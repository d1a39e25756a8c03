/** Searching the entries of an opened archive: the class and package
    queries over a JAR's entry names (`search_class_in_jar`,
    `search_package_in_jar`), the content search of a JAR with its entry
    routing and counting (`search_content_in_jar`), the content search of a
    ZIP-family archive (`search_content_in_zip`) and the entry census of
    `count_jar_contents`. Entries that cannot be read (`by_index` fails) are
    skipped everywhere, so each function first keeps the readable ones. */
module ArchiveScan {
  import opened Wrappers
  import opened Model
  import opened Text
  import opened Picks
  import opened BinaryStrings
  import opened LineScan
  import opened Names
  import opened FileTypes

  /** The readable entries of an archive, in index order (see
      `ReadableInIndexOrder`). */
  function Readable(a: Archive): (es: seq<Entry>)
    ensures |es| <= |a|
    ensures forall e :: e in es <==> Some(e) in a
    ensures forall e :: multiset(es)[e] == multiset(a)[Some(e)]
  {
    if |a| == 0 then []
    else
      var init := a[..|a| - 1];
      var last := a[|a| - 1];
      assert a == init + [last];
      assert multiset(a) == multiset(init) + multiset{last};
      assert forall x :: x in a <==> x in init || x == last;
      Readable(init) + (if last.Some? then [last.value] else [])
  }

  /** The entry an index holds; only looked at where it is readable. */
  function EntryAt(o: Option<Entry>): Entry {
    o.GetOr(Entry("", None, None))
  }

  /** The readable indices of an archive, ascending. */
  function ReadablePositions(a: Archive): (ix: seq<int>)
    ensures forall j :: 0 <= j < |ix| ==> 0 <= ix[j] < |a|
    ensures forall k :: k in ix <==> 0 <= k < |a| && a[k].Some?
    ensures forall i, j :: 0 <= i < j < |ix| ==> ix[i] < ix[j]
  {
    if |a| == 0 then []
    else
      var init := a[..|a| - 1];
      var rest := ReadablePositions(init);
      assert forall k :: 0 <= k < |init| ==> init[k] == a[k];
      if a[|a| - 1].Some? then
        assert forall j :: 0 <= j < |rest| ==> rest[j] < |init|;
        rest + [|init|]
      else rest
  }

  /** The readable entries are listed in index order: the j-th is the entry
      at the j-th readable index. */
  lemma {:induction false} ReadableInIndexOrder(a: Archive)
    ensures ListsAt(a, EntryAt, Readable(a), ReadablePositions(a))
  {
    if |a| > 0 {
      var init := a[..|a| - 1];
      ReadableInIndexOrder(init);
      PickStep(a, EntryAt, Readable(init), ReadablePositions(init), a[|a| - 1].Some?);
    }
  }

  /** The location reported for an entry: `archive:entry`. */
  function EntryLocation(archivePath: string, name: string): string {
    archivePath + ":" + name
  }

  /** Directory entries are the names ending in `/`. */
  predicate IsDirectory(name: string) {
    EndsWith(name, "/")
  }

  datatype Kind = ClassKind | JavaKind | OtherKind

  /** The counter an entry name goes to. */
  function KindOf(name: string): Kind {
    if EndsWith(name, ".class") then ClassKind
    else if EndsWith(name, ".java") then JavaKind
    else OtherKind
  }

  /** The `(classes, java, others)` counters. */
  datatype Counts = Counts(classes: nat, java: nat, others: nat) {
    function Total(): nat {
      classes + java + others
    }

    /** The counters of two runs added up. */
    function Plus(c: Counts): Counts {
      Counts(classes + c.classes, java + c.java, others + c.others)
    }
  }

  /** `counts` with the counter of kind `k` incremented. */
  function Bump(counts: Counts, k: Kind): (c: Counts)
    ensures c.Total() == counts.Total() + 1
  {
    match k
    case ClassKind => counts.(classes := counts.classes + 1)
    case JavaKind => counts.(java := counts.java + 1)
    case OtherKind => counts.(others := counts.others + 1)
  }

  /** The type filter of a content search: `*` selects everything, `class`
      and `java` their kinds, `other` the rest. */
  predicate ShouldSearch(fileTypes: seq<string>, name: string) {
    || "*" in fileTypes
    || ("class" in fileTypes && KindOf(name) == ClassKind)
    || ("java" in fileTypes && KindOf(name) == JavaKind)
    || ("other" in fileTypes && KindOf(name) == OtherKind)
  }

  /** Text read in full always yields lines; there is no read error after a
      successful `read_to_string`. */
  function AsLines(ls: seq<string>): (lines: seq<LineRead>)
    ensures |lines| == |ls|
    ensures forall k :: 0 <= k < |ls| ==> lines[k] == Line(ls[k])
  {
    if |ls| == 0 then [] else AsLines(ls[..|ls| - 1]) + [Line(ls[|ls| - 1])]
  }

  /** `search_in_text_content` on an entry: no results when its text
      cannot be decoded, otherwise the line scan typed by the part of the
      name after its last dot. */
  function TextResults(location: string, name: string, text: Option<seq<string>>, pat: Pattern): seq<SearchResult> {
    match text
    case None => []
    case Some(ls) => Scan(location, GetArchiveFileType(name), AsLines(ls), pat)
  }

  /** What the content search reports for one entry: nothing for a
      directory or a filtered-out entry; the bytecode strings of a class
      entry; the matching lines of any other entry. */
  function EntryContent(archivePath: string, e: Entry, fileTypes: seq<string>, pat: Pattern): seq<SearchResult> {
    var location := EntryLocation(archivePath, e.name);
    if IsDirectory(e.name) || !ShouldSearch(fileTypes, e.name) then []
    else if KindOf(e.name) == ClassKind then BinaryResults(location, "class_bytecode", e.bytes, pat)
    else TextResults(location, e.name, e.lines, pat)
  }

  /** The results of the content search of a JAR, entry by entry. */
  function ContentOf(archivePath: string, es: seq<Entry>, fileTypes: seq<string>, pat: Pattern): seq<SearchResult> {
    if |es| == 0 then []
    else ContentOf(archivePath, es[..|es| - 1], fileTypes, pat) + EntryContent(archivePath, es[|es| - 1], fileTypes, pat)
  }

  function JarContent(archivePath: string, a: Archive, fileTypes: seq<string>, pat: Pattern): seq<SearchResult> {
    ContentOf(archivePath, Readable(a), fileTypes, pat)
  }

  /** The counters of the content search: every readable non-directory
      entry bumps the counter of its kind. */
  function CountsOf(es: seq<Entry>): Counts {
    if |es| == 0 then Counts(0, 0, 0) else CountStep(CountsOf(es[..|es| - 1]), es[|es| - 1].name)
  }

  /** One entry of the content search's counting: directories are skipped. */
  function CountStep(counts: Counts, name: string): Counts {
    if IsDirectory(name) then counts else Bump(counts, KindOf(name))
  }

  function JarCounts(a: Archive): Counts {
    CountsOf(Readable(a))
  }

  /** The readable entries that are not directories. */
  function Files(es: seq<Entry>): (fs: seq<Entry>)
    ensures forall e :: e in fs <==> e in es && !IsDirectory(e.name)
    ensures forall e :: multiset(fs)[e] == if IsDirectory(e.name) then 0 else multiset(es)[e]
  {
    if |es| == 0 then []
    else
      var init := es[..|es| - 1];
      var e := es[|es| - 1];
      assert es == init + [e];
      assert multiset(es) == multiset(init) + multiset{e};
      assert forall x :: x in es <==> x in init || x == e;
      Files(init) + (if IsDirectory(e.name) then [] else [e])
  }

  /** The number of entries of a kind. */
  function CountKind(es: seq<Entry>, k: Kind): nat {
    if |es| == 0 then 0
    else CountKind(es[..|es| - 1], k) + (if KindOf(es[|es| - 1].name) == k then 1 else 0)
  }

  lemma CountKindSnoc(es: seq<Entry>, e: Entry, k: Kind)
    ensures CountKind(es + [e], k) == CountKind(es, k) + (if KindOf(e.name) == k then 1 else 0)
  {
    assert (es + [e])[..|es|] == es;
  }

  /** Every entry has exactly one kind. */
  lemma {:induction false} KindsPartition(es: seq<Entry>)
    ensures CountKind(es, ClassKind) + CountKind(es, JavaKind) + CountKind(es, OtherKind) == |es|
  {
    if |es| > 0 {
      KindsPartition(es[..|es| - 1]);
    }
  }

  /** Counting one more file bumps the counter of its kind. */
  lemma BumpCountsKind(counts: Counts, fs: seq<Entry>, e: Entry)
    requires counts == Counts(CountKind(fs, ClassKind), CountKind(fs, JavaKind), CountKind(fs, OtherKind))
    ensures Bump(counts, KindOf(e.name)) == Counts(CountKind(fs + [e], ClassKind), CountKind(fs + [e], JavaKind), CountKind(fs + [e], OtherKind))
  {
    var k := KindOf(e.name);
    CountKindSnoc(fs, e, ClassKind);
    CountKindSnoc(fs, e, JavaKind);
    CountKindSnoc(fs, e, OtherKind);
    var c := Bump(counts, k);
    assert c.classes == counts.classes + (if k == ClassKind then 1 else 0);
    assert c.java == counts.java + (if k == JavaKind then 1 else 0);
    assert c.others == counts.others + (if k == OtherKind then 1 else 0);
  }

  /** Each counter of the content search is the number of files of its
      kind. */
  lemma {:induction false} CountsAreKindCounts(es: seq<Entry>)
    ensures CountsOf(es) == Counts(CountKind(Files(es), ClassKind), CountKind(Files(es), JavaKind), CountKind(Files(es), OtherKind))
  {
    if |es| > 0 {
      var init := es[..|es| - 1];
      var e := es[|es| - 1];
      CountsAreKindCounts(init);
      assert CountsOf(es) == CountStep(CountsOf(init), e.name);
      if !IsDirectory(e.name) {
        assert Files(es) == Files(init) + [e];
        BumpCountsKind(CountsOf(init), Files(init), e);
      } else {
        assert Files(es) == Files(init) + [];
        assert Files(es) == Files(init);
      }
    }
  }

  /** Every readable non-directory entry is counted exactly once, under its
      own kind: each counter is the number of files of that kind, and the
      three together are the number of files. */
  lemma CountsArePartition(es: seq<Entry>)
    ensures CountsOf(es) == Counts(CountKind(Files(es), ClassKind), CountKind(Files(es), JavaKind), CountKind(Files(es), OtherKind))
    ensures CountsOf(es).Total() == |Files(es)|
  {
    CountsAreKindCounts(es);
    KindsPartition(Files(es));
  }

  /** `count_jar_contents`: classes, Java sources and all files among the
      readable non-directory entries. */
  function CensusOf(es: seq<Entry>): (nat, nat, nat) {
    if |es| == 0 then (0, 0, 0) else CensusStep(CensusOf(es[..|es| - 1]), es[|es| - 1].name)
  }

  /** One entry of `count_jar_contents`. */
  function CensusStep(census: (nat, nat, nat), name: string): (nat, nat, nat) {
    if IsDirectory(name) then census
    else if EndsWith(name, ".class") then (census.0 + 1, census.1, census.2 + 1)
    else if EndsWith(name, ".java") then (census.0, census.1 + 1, census.2 + 1)
    else (census.0, census.1, census.2 + 1)
  }

  /** An archive that cannot be opened counts as empty. */
  function CountJarContents(a: Option<Archive>): (nat, nat, nat) {
    match a
    case None => (0, 0, 0)
    case Some(arch) => CensusOf(Readable(arch))
  }

  /** The census agrees with the content search's counters: the same
      class and Java counts, and its file count is the sum of all three
      counters (it includes classes and Java sources). */
  lemma {:induction false} CensusAgreesWithCounts(es: seq<Entry>)
    ensures CensusOf(es).0 == CountsOf(es).classes
    ensures CensusOf(es).1 == CountsOf(es).java
    ensures CensusOf(es).2 == CountsOf(es).Total()
  {
    if |es| > 0 {
      var init := es[..|es| - 1];
      CensusAgreesWithCounts(init);
      var name := es[|es| - 1].name;
      assert CensusOf(es) == CensusStep(CensusOf(init), name);
      assert CountsOf(es) == CountStep(CountsOf(init), name);
    }
  }

  /** `count_jar_contents` on an archive reports the content search's class
      and Java counters and the number of readable non-directory entries;
      an archive that cannot be opened reports nothing. */
  lemma JarCensus(a: Option<Archive>)
    ensures a.None? ==> CountJarContents(a) == (0, 0, 0)
    ensures a.Some? ==> CountJarContents(a) == (JarCounts(a.value).classes, JarCounts(a.value).java, |Files(Readable(a.value))|)
  {
    if a.Some? {
      CensusAgreesWithCounts(Readable(a.value));
      CountsArePartition(Readable(a.value));
    }
  }

  /** Listing every kind in the filter is the same as `*`; listing one kind
      selects exactly that kind. */
  lemma FilterCoverage(name: string)
    ensures ShouldSearch(["*"], name)
    ensures ShouldSearch(["class", "java", "other"], name)
    ensures ShouldSearch(["class"], name) <==> EndsWith(name, ".class")
    ensures ShouldSearch(["java"], name) <==> !EndsWith(name, ".class") && EndsWith(name, ".java")
    ensures ShouldSearch(["other"], name) <==> !EndsWith(name, ".class") && !EndsWith(name, ".java")
  {
  }

  /** `r` came out of searching file entry `e` of the archive, routed by
      kind: a class entry's result is one of its bytecode strings, with no
      line number and type `class_bytecode`; any other entry's result is one
      of its matching lines, typed by the text after the last dot of its
      name. */
  ghost predicate RoutedFrom(archivePath: string, e: Entry, fileTypes: seq<string>, pat: Pattern, r: SearchResult) {
    && !IsDirectory(e.name)
    && ShouldSearch(fileTypes, e.name)
    && r.fileLocation == EntryLocation(archivePath, e.name)
    && (KindOf(e.name) == ClassKind ==>
          && e.bytes.Some? && r.lineNumber.None? && r.matchType == "class_bytecode"
          && r.lineContent in Extracted(e.bytes.value, pat))
    && (KindOf(e.name) != ClassKind ==>
          && e.lines.Some? && r.matchType == GetArchiveFileType(e.name)
          && IsLineHit(r.fileLocation, r.matchType, AsLines(e.lines.value), pat, r))
  }

  lemma TextResultsRouted(location: string, name: string, ls: seq<string>, pat: Pattern, r: SearchResult)
    requires r in TextResults(location, name, Some(ls), pat)
    ensures r.fileLocation == location && r.matchType == GetArchiveFileType(name)
    ensures IsLineHit(location, GetArchiveFileType(name), AsLines(ls), pat, r)
  {
    var found := Scan(location, GetArchiveFileType(name), AsLines(ls), pat);
    ScanReportsMatchingLines(location, GetArchiveFileType(name), AsLines(ls), pat);
    var k :| 0 <= k < |found| && found[k] == r;
  }

  /** Every result of searching one entry is routed by the entry's kind. */
  lemma EntryContentRouted(archivePath: string, e: Entry, fileTypes: seq<string>, pat: Pattern)
    ensures forall r :: r in EntryContent(archivePath, e, fileTypes, pat) ==> RoutedFrom(archivePath, e, fileTypes, pat, r)
  {
    var location := EntryLocation(archivePath, e.name);
    forall r | r in EntryContent(archivePath, e, fileTypes, pat)
      ensures RoutedFrom(archivePath, e, fileTypes, pat, r)
    {
      if KindOf(e.name) == ClassKind {
        var found := BinaryResults(location, "class_bytecode", e.bytes, pat);
        assert r in found;
        var k :| 0 <= k < |found| && found[k] == r;
      } else {
        assert r in TextResults(location, e.name, e.lines, pat);
        TextResultsRouted(location, e.name, e.lines.value, pat, r);
      }
    }
  }

  /** Every result of a JAR's content search comes from one of its
      readable file entries, routed by that entry's kind; and every result
      of searching a readable entry is reported. */
  lemma {:induction false} ContentOfRouted(archivePath: string, es: seq<Entry>, fileTypes: seq<string>, pat: Pattern)
    ensures forall r :: r in ContentOf(archivePath, es, fileTypes, pat) ==>
      exists e :: e in es && RoutedFrom(archivePath, e, fileTypes, pat, r)
    ensures forall e, r :: e in es && r in EntryContent(archivePath, e, fileTypes, pat) ==>
      r in ContentOf(archivePath, es, fileTypes, pat)
  {
    if |es| > 0 {
      var init := es[..|es| - 1];
      var last := es[|es| - 1];
      ContentOfRouted(archivePath, init, fileTypes, pat);
      assert forall x :: x in es <==> x in init || x == last;
      EntryContentRouted(archivePath, last, fileTypes, pat);
    }
  }

  /** The result of the class query for a class entry. */
  function ClassHit(archivePath: string, name: string): SearchResult {
    SearchResult(EntryLocation(archivePath, name), None, ClassName(name), "class")
  }

  /** `ClassHit` for one archive, as a function of the entry. */
  function ClassHitAt(archivePath: string): Entry -> SearchResult {
    (e: Entry) => ClassHit(archivePath, e.name)
  }

  /** The class entries a class query reports. */
  predicate ClassSelected(e: Entry, query: string, exact: bool) {
    EndsWith(e.name, ".class") && ClassMatches(ClassName(e.name), query, exact)
  }

  /** The positions of the entries a class query selects. */
  function ClassIndices(es: seq<Entry>, query: string, exact: bool): (ix: set<int>)
    ensures forall k :: k in ix <==> 0 <= k < |es| && ClassSelected(es[k], query, exact)
  {
    if |es| == 0 then {}
    else
      var init := es[..|es| - 1];
      assert forall k :: 0 <= k < |init| ==> init[k] == es[k];
      ClassIndices(init, query, exact) + (if ClassSelected(es[|es| - 1], query, exact) then {|es| - 1} else {})
  }

  /** The class results of a list of entries: one per selected entry. */
  function ClassesOf(archivePath: string, es: seq<Entry>, query: string, exact: bool): (found: seq<SearchResult>)
    ensures forall r :: r in found <==> exists e :: e in es && ClassSelected(e, query, exact) && r == ClassHit(archivePath, e.name)
    ensures |found| == |ClassIndices(es, query, exact)|
  {
    if |es| == 0 then []
    else
      var init := es[..|es| - 1];
      var e := es[|es| - 1];
      var rest := ClassesOf(archivePath, init, query, exact);
      assert forall x :: x in es <==> x in init || x == e;
      assert |es| - 1 !in ClassIndices(init, query, exact);
      if ClassSelected(e, query, exact) then rest + [ClassHit(archivePath, e.name)] else rest
  }

  /** The positions of the entries a class query selects, in entry order. */
  function ClassPositions(es: seq<Entry>, query: string, exact: bool): (ix: seq<int>)
    ensures forall j :: 0 <= j < |ix| ==> 0 <= ix[j] < |es|
    ensures forall k :: k in ix <==> k in ClassIndices(es, query, exact)
    ensures forall i, j :: 0 <= i < j < |ix| ==> ix[i] < ix[j]
  {
    if |es| == 0 then []
    else
      var init := es[..|es| - 1];
      var rest := ClassPositions(init, query, exact);
      if ClassSelected(es[|es| - 1], query, exact) then
        assert forall j :: 0 <= j < |rest| ==> rest[j] < |init|;
        rest + [|init|]
      else rest
  }

  /** The class query reports in entry order: it lists the hits of the
      entries at the ascending positions of the selected entries. */
  lemma {:induction false} ClassesInEntryOrder(archivePath: string, es: seq<Entry>, query: string, exact: bool)
    ensures ListsAt(es, ClassHitAt(archivePath), ClassesOf(archivePath, es, query, exact), ClassPositions(es, query, exact))
  {
    if |es| > 0 {
      var init := es[..|es| - 1];
      ClassesInEntryOrder(archivePath, init, query, exact);
      PickStep(es, ClassHitAt(archivePath), ClassesOf(archivePath, init, query, exact), ClassPositions(init, query, exact), ClassSelected(es[|es| - 1], query, exact));
    }
  }

  /** The class results of `search_class_in_jar`. */
  function ClassScan(archivePath: string, a: Archive, query: string, exact: bool): seq<SearchResult> {
    ClassesOf(archivePath, Readable(a), query, exact)
  }

  /** The number of readable entries ending in `.class`. */
  function ClassCountOf(es: seq<Entry>): nat {
    if |es| == 0 then 0
    else ClassCountOf(es[..|es| - 1]) + (if EndsWith(es[|es| - 1].name, ".class") then 1 else 0)
  }

  lemma ClassIsNotDirectory(name: string)
    requires EndsWith(name, ".class")
    ensures !IsDirectory(name)
  {
    assert name[|name| - 6..][5] == 's';
  }

  /** The class search counts the same classes as the content search: a
      name ending in `.class` is never a directory. */
  lemma {:induction false} ClassCountAgrees(es: seq<Entry>)
    ensures ClassCountOf(es) == CountsOf(es).classes
  {
    if |es| > 0 {
      var init := es[..|es| - 1];
      var name := es[|es| - 1].name;
      ClassCountAgrees(init);
      assert CountsOf(es) == CountStep(CountsOf(init), name);
      if EndsWith(name, ".class") {
        ClassIsNotDirectory(name);
      }
    }
  }

  /** The result of the package query for an entry. */
  function PackageHit(archivePath: string, name: string): SearchResult {
    SearchResult(EntryLocation(archivePath, name), None, ClassName(name), "package")
  }

  /** `PackageHit` for one archive, as a function of the entry. */
  function PackageHitAt(archivePath: string): Entry -> SearchResult {
    (e: Entry) => PackageHit(archivePath, e.name)
  }

  /** The positions of the entries a package query selects. */
  function PackageIndices(es: seq<Entry>, path: string): (ix: set<int>)
    ensures forall k :: k in ix <==> 0 <= k < |es| && PackageMatch(es[k].name, path)
  {
    if |es| == 0 then {}
    else
      var init := es[..|es| - 1];
      assert forall k :: 0 <= k < |init| ==> init[k] == es[k];
      PackageIndices(init, path) + (if PackageMatch(es[|es| - 1].name, path) then {|es| - 1} else {})
  }

  /** The package results of a list of entries: one per matching entry. */
  function PackagesOf(archivePath: string, es: seq<Entry>, path: string): (found: seq<SearchResult>)
    ensures forall r :: r in found <==> exists e :: e in es && PackageMatch(e.name, path) && r == PackageHit(archivePath, e.name)
    ensures |found| == |PackageIndices(es, path)|
  {
    if |es| == 0 then []
    else
      var init := es[..|es| - 1];
      var e := es[|es| - 1];
      assert forall x :: x in es <==> x in init || x == e;
      assert |es| - 1 !in PackageIndices(init, path);
      PackagesOf(archivePath, init, path) + (if PackageMatch(e.name, path) then [PackageHit(archivePath, e.name)] else [])
  }
  /** The positions of the entries a package query selects, in entry order. */
  function PackagePositions(es: seq<Entry>, path: string): (ix: seq<int>)
    ensures forall j :: 0 <= j < |ix| ==> 0 <= ix[j] < |es|
    ensures forall k :: k in ix <==> 0 <= k < |es| && PackageMatch(es[k].name, path)
    ensures forall i, j :: 0 <= i < j < |ix| ==> ix[i] < ix[j]
  {
    if |es| == 0 then []
    else
      var init := es[..|es| - 1];
      var rest := PackagePositions(init, path);
      assert forall k :: 0 <= k < |init| ==> init[k] == es[k];
      if PackageMatch(es[|es| - 1].name, path) then
        assert forall j :: 0 <= j < |rest| ==> rest[j] < |init|;
        rest + [|init|]
      else rest
  }

  /** The package query reports in entry order: it lists the hits of the
      entries at the ascending positions of the matching entries. */
  lemma {:induction false} PackagesInEntryOrder(archivePath: string, es: seq<Entry>, path: string)
    ensures ListsAt(es, PackageHitAt(archivePath), PackagesOf(archivePath, es, path), PackagePositions(es, path))
  {
    if |es| > 0 {
      var init := es[..|es| - 1];
      PackagesInEntryOrder(archivePath, init, path);
      PickStep(es, PackageHitAt(archivePath), PackagesOf(archivePath, init, path), PackagePositions(init, path), PackageMatch(es[|es| - 1].name, path));
    }
  }


  /** The results of `search_package_in_jar` for a package path. */
  function PackageScan(archivePath: string, a: Archive, path: string): seq<SearchResult> {
    PackagesOf(archivePath, Readable(a), path)
  }

  /** `search_content_in_zip`: every readable non-directory entry is
      searched as text, whatever its kind. */
  function ZipContentOf(archivePath: string, es: seq<Entry>, pat: Pattern): seq<SearchResult> {
    if |es| == 0 then []
    else
      var e := es[|es| - 1];
      ZipContentOf(archivePath, es[..|es| - 1], pat)
        + (if IsDirectory(e.name) then [] else TextResults(EntryLocation(archivePath, e.name), e.name, e.lines, pat))
  }

  function ZipContent(archivePath: string, a: Archive, pat: Pattern): seq<SearchResult> {
    ZipContentOf(archivePath, Readable(a), pat)
  }

  /** A ZIP-family archive is searched like a JAR with every entry treated
      as text: with no class entries and the `*` filter, both searches
      report the same. */
  lemma {:induction false} ZipIsJarWithoutClasses(archivePath: string, es: seq<Entry>, pat: Pattern)
    requires forall k :: 0 <= k < |es| ==> KindOf(es[k].name) != ClassKind
    ensures ZipContentOf(archivePath, es, pat) == ContentOf(archivePath, es, ["*"], pat)
  {
    if |es| > 0 {
      ZipIsJarWithoutClasses(archivePath, es[..|es| - 1], pat);
    }
  }

  /** How a ZIP-family result arises from one entry: the entry is a
      readable file, and the result is one of its matching lines, typed by
      the entry's extension. */
  ghost predicate ZipRoutedFrom(archivePath: string, e: Entry, pat: Pattern, r: SearchResult) {
    && !IsDirectory(e.name)
    && e.lines.Some?
    && IsLineHit(EntryLocation(archivePath, e.name), GetArchiveFileType(e.name), AsLines(e.lines.value), pat, r)
  }

  /** The search of one readable ZIP entry reports exactly its matching lines. */
  lemma ZipEntryRouted(archivePath: string, e: Entry, pat: Pattern)
    requires !IsDirectory(e.name) && e.lines.Some?
    ensures forall r :: r in TextResults(EntryLocation(archivePath, e.name), e.name, e.lines, pat) ==>
      ZipRoutedFrom(archivePath, e, pat, r)
    ensures forall n :: 0 <= n < |e.lines.value| && Hit(Line(e.lines.value[n]), pat) ==>
      LineResult(EntryLocation(archivePath, e.name), GetArchiveFileType(e.name), n, e.lines.value[n])
        in TextResults(EntryLocation(archivePath, e.name), e.name, e.lines, pat)
  {
    var location := EntryLocation(archivePath, e.name);
    var lines := AsLines(e.lines.value);
    ScanReportsMatchingLines(location, GetArchiveFileType(e.name), lines, pat);
    forall r | r in TextResults(location, e.name, e.lines, pat)
      ensures ZipRoutedFrom(archivePath, e, pat, r)
    {
      TextResultsRouted(location, e.name, e.lines.value, pat, r);
    }
    forall n | 0 <= n < |e.lines.value| && Hit(Line(e.lines.value[n]), pat)
      ensures LineResult(location, GetArchiveFileType(e.name), n, e.lines.value[n]) in TextResults(location, e.name, e.lines, pat)
    {
      assert lines[n] == Line(e.lines.value[n]);
    }
  }

  /** Every result of a ZIP-family search is a matching line of one of its
      readable file entries, and every matching line of every readable file
      entry is reported. */
  lemma {:induction false} ZipContentRouted(archivePath: string, es: seq<Entry>, pat: Pattern)
    ensures forall r :: r in ZipContentOf(archivePath, es, pat) ==>
      exists e :: e in es && ZipRoutedFrom(archivePath, e, pat, r)
    ensures forall e, n :: e in es && !IsDirectory(e.name) && e.lines.Some? && 0 <= n < |e.lines.value| && Hit(Line(e.lines.value[n]), pat) ==>
      LineResult(EntryLocation(archivePath, e.name), GetArchiveFileType(e.name), n, e.lines.value[n]) in ZipContentOf(archivePath, es, pat)
  {
    if |es| > 0 {
      var init := es[..|es| - 1];
      var last := es[|es| - 1];
      var rest := ZipContentOf(archivePath, init, pat);
      var tail := if IsDirectory(last.name) then [] else TextResults(EntryLocation(archivePath, last.name), last.name, last.lines, pat);
      assert ZipContentOf(archivePath, es, pat) == rest + tail;
      ZipContentRouted(archivePath, init, pat);
      assert forall x :: x in es <==> x in init || x == last;
      if !IsDirectory(last.name) && last.lines.Some? {
        ZipEntryRouted(archivePath, last, pat);
      }
      forall r | r in ZipContentOf(archivePath, es, pat)
        ensures exists e :: e in es && ZipRoutedFrom(archivePath, e, pat, r)
      {
        if r !in rest {
          assert r in tail && ZipRoutedFrom(archivePath, last, pat, r);
        }
      }
    }
  }
}
