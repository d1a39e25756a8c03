/** The search modes of `JarTool` over the files a directory walk yields:
    the class and package queries over JARs, the content search of JARs,
    and master mode, which buckets every non-excluded file by extension and
    searches each bucket its own way. Each file is handled by one unit of
    work that passes the size gate, opens the file, reports its matches
    through `add_result` and then updates the statistics. The files of a
    phase are handled in walk order. */
module Search {
  import opened Wrappers
  import opened Model
  import opened Text
  import opened Picks
  import opened LineScan
  import opened BinaryStrings
  import opened Names
  import opened FileTypes
  import opened Gating
  import opened Aggregate
  import opened ArchiveScan

  /** The per-file operations. */
  datatype Unit =
    | ClassInJar(query: string, exact: bool)
    | PackageInJar(packagePath: string)
    | ContentInJar(pat: Pattern, fileTypes: seq<string>)
    | ContentInZip(pat: Pattern)
    | ContentInFile(pat: Pattern)
    | ContentInAllFiles(pat: Pattern)

  /** The file could be opened the way the unit needs it: as an archive,
      or as a text file. */
  predicate Opened(f: FileNode, u: Unit) {
    match u
    case ContentInFile(_) => f.lines.Some?
    case ContentInAllFiles(_) => f.lines.Some?
    case _ => f.archive.Some?
  }

  /** The matches one unit reports for an opened file, in report order. */
  function UnitResults(f: FileNode, u: Unit): seq<SearchResult>
    requires Opened(f, u)
  {
    match u
    case ClassInJar(query, exact) => ClassScan(f.path, f.archive.value, query, exact)
    case PackageInJar(path) => PackageScan(f.path, f.archive.value, path)
    case ContentInJar(pat, fileTypes) => JarContent(f.path, f.archive.value, fileTypes, pat)
    case ContentInZip(pat) => ZipContent(f.path, f.archive.value, pat)
    case ContentInFile(pat) => Scan(f.path, GetFileType(f.ext), f.lines.value, pat)
    case ContentInAllFiles(pat) => MasterFileScan(f.path, GetFileType(f.ext), f.lines.value, f.bytes, pat)
  }

  /** The statistics update at the end of a unit: one more file processed,
      plus the class count of a class query and the three counters of a
      JAR content search. */
  function UnitStats(s: Stats, f: FileNode, u: Unit): (s': Stats)
    requires Opened(f, u)
    ensures s'.filesProcessed == s.filesProcessed + 1
    ensures s'.matchesFound == s.matchesFound
    ensures s'.totalJars == s.totalJars && s'.totalZipFiles == s.totalZipFiles
    ensures u.ClassInJar? ==>
      && s'.totalClassFiles == s.totalClassFiles + CountKind(Files(Readable(f.archive.value)), ClassKind)
      && s'.totalJavaFiles == s.totalJavaFiles && s'.totalOtherFiles == s.totalOtherFiles
    ensures u.ContentInJar? ==>
      var fs := Files(Readable(f.archive.value));
      && s'.totalClassFiles == s.totalClassFiles + CountKind(fs, ClassKind)
      && s'.totalJavaFiles == s.totalJavaFiles + CountKind(fs, JavaKind)
      && s'.totalOtherFiles == s.totalOtherFiles + CountKind(fs, OtherKind)
      && s'.totalClassFiles + s'.totalJavaFiles + s'.totalOtherFiles
         == s.totalClassFiles + s.totalJavaFiles + s.totalOtherFiles + |fs|
    ensures !u.ClassInJar? && !u.ContentInJar? ==>
      s'.totalClassFiles == s.totalClassFiles && s'.totalJavaFiles == s.totalJavaFiles && s'.totalOtherFiles == s.totalOtherFiles
  {
    var s1 := s.(filesProcessed := s.filesProcessed + 1);
    match u
    case ClassInJar(_, _) =>
      ClassCountAgrees(Readable(f.archive.value));
      CountsArePartition(Readable(f.archive.value));
      s1.(totalClassFiles := s.totalClassFiles + ClassCountOf(Readable(f.archive.value)))
    case ContentInJar(_, _) =>
      CountsArePartition(Readable(f.archive.value));
      var c := JarCounts(f.archive.value);
      s1.(totalClassFiles := s.totalClassFiles + c.classes,
          totalJavaFiles := s.totalJavaFiles + c.java,
          totalOtherFiles := s.totalOtherFiles + c.others)
    case _ => s1
  }

  /** The unit processes the file: the size gate admits it and it can be
      opened. */
  predicate Processes(config: Config, f: FileNode, u: Unit) {
    ShouldProcessFile(config, f.path, f.size) && Opened(f, u)
  }

  /** The entry counters a unit adds for a file it processes: the class
      count of a class query, the three counters of a JAR content search,
      and nothing for the other units. */
  function UnitCounts(f: FileNode, u: Unit): Counts
    requires Opened(f, u)
  {
    match u
    case ClassInJar(_, _) => Counts(CountKind(Files(Readable(f.archive.value)), ClassKind), 0, 0)
    case ContentInJar(_, _) =>
      var fs := Files(Readable(f.archive.value));
      Counts(CountKind(fs, ClassKind), CountKind(fs, JavaKind), CountKind(fs, OtherKind))
    case _ => Counts(0, 0, 0)
  }

  /** One unit on one file: nothing happens when the size gate refuses the
      file or it cannot be opened; otherwise its matches are added and the
      statistics updated. */
  function RunUnit(t: Tool, f: FileNode, u: Unit): (t': Tool)
    ensures t'.config == t.config
    ensures !Processes(t.config, f, u) ==> t' == t
    ensures Processes(t.config, f, u) ==>
      && t'.stats.filesProcessed == t.stats.filesProcessed + 1
      && t'.stats.matchesFound == t.stats.matchesFound + |UnitResults(f, u)|
      && t'.stats.totalClassFiles == t.stats.totalClassFiles + UnitCounts(f, u).classes
      && t'.stats.totalJavaFiles == t.stats.totalJavaFiles + UnitCounts(f, u).java
      && t'.stats.totalOtherFiles == t.stats.totalOtherFiles + UnitCounts(f, u).others
      && t'.results == AddAll(t, UnitResults(f, u)).results
      && t'.uniqueFiles == AddAll(t, UnitResults(f, u)).uniqueFiles
    ensures t'.stats.totalJars == t.stats.totalJars && t'.stats.totalZipFiles == t.stats.totalZipFiles
  {
    if !Processes(t.config, f, u) then t
    else
      var rs := UnitResults(f, u);
      var t1 := AddAll(t, rs);
      AddAllCounts(t, rs);
      t1.(stats := UnitStats(t1.stats, f, u))
  }

  /** A unit over a list of files, in order. */
  function RunAll(t: Tool, files: seq<FileNode>, u: Unit): Tool {
    if |files| == 0 then t else RunUnit(RunAll(t, files[..|files| - 1], u), files[|files| - 1], u)
  }

  /** How many of `files` a unit processes under `config`. */
  function ProcessedCount(config: Config, files: seq<FileNode>, u: Unit): (n: nat)
    ensures n <= |files|
  {
    if |files| == 0 then 0
    else ProcessedCount(config, files[..|files| - 1], u) + (if Processes(config, files[|files| - 1], u) then 1 else 0)
  }

  /** The entry counters a unit adds over the files it processes. */
  function PhaseCounts(config: Config, files: seq<FileNode>, u: Unit): Counts {
    if |files| == 0 then Counts(0, 0, 0)
    else
      var c := PhaseCounts(config, files[..|files| - 1], u);
      var f := files[|files| - 1];
      if Processes(config, f, u) then c.Plus(UnitCounts(f, u)) else c
  }

  /** Only the class query and the JAR content search count entries. */
  lemma {:induction false} NoCountsOutsideJars(config: Config, files: seq<FileNode>, u: Unit)
    requires !u.ClassInJar? && !u.ContentInJar?
    ensures PhaseCounts(config, files, u) == Counts(0, 0, 0)
  {
    if |files| > 0 {
      NoCountsOutsideJars(config, files[..|files| - 1], u);
    }
  }

  /** The JARs of the walk that the class, package and content searches
      look at. */
  function FoundJars(t: Tool, walked: seq<FileNode>): seq<FileNode> {
    FindArchiveFiles(walked, t.config.excludes, ["jar"])
  }

  /** `search_exact_class` (`exact`) and `search_class_substring`: the
      walk's JARs are counted, then each is searched for the class. */
  function SearchClasses(t: Tool, walked: seq<FileNode>, query: string, exact: bool): Tool {
    var jars := FoundJars(t, walked);
    RunAll(t.(stats := t.stats.(totalJars := |jars|)), jars, ClassInJar(query, exact))
  }

  /** `search_package`: the package name becomes a path prefix once, then
      each JAR is searched with it. */
  function SearchPackage(t: Tool, walked: seq<FileNode>, pkg: string): Tool {
    var jars := FoundJars(t, walked);
    RunAll(t.(stats := t.stats.(totalJars := |jars|)), jars, PackageInJar(PackagePath(pkg)))
  }

  /** `search_content`: an invalid pattern (`None`) fails before anything
      is looked at; otherwise each JAR's entries are searched. */
  function SearchContent(t: Tool, walked: seq<FileNode>, pat: Option<Pattern>, fileTypes: seq<string>): (r: Result<Tool, string>)
    ensures pat.None? <==> r.Failure?
  {
    match pat
    case None => Failure("invalid pattern")
    case Some(p) =>
      var jars := FoundJars(t, walked);
      Success(RunAll(t.(stats := t.stats.(totalJars := |jars|)), jars, ContentInJar(p, fileTypes)))
  }

  /** The walked files master mode keeps: those not excluded, in walk
      order. */
  function Kept(walked: seq<FileNode>, excludes: set<string>): (kept: seq<FileNode>)
    ensures |kept| <= |walked|
    ensures forall f :: f in kept <==> f in walked && !Excluded(f.path, excludes)
    ensures forall f :: multiset(kept)[f] == if Excluded(f.path, excludes) then 0 else multiset(walked)[f]
  {
    if |walked| == 0 then []
    else
      var init := walked[..|walked| - 1];
      var f := walked[|walked| - 1];
      assert walked == init + [f];
      assert multiset(walked) == multiset(init) + multiset{f};
      assert forall g :: g in walked <==> g in init || g == f;
      Kept(init, excludes) + (if Excluded(f.path, excludes) then [] else [f])
  }

  /** The positions of the walked files master mode keeps, in walk order. */
  function KeptPositions(walked: seq<FileNode>, excludes: set<string>): (ix: seq<int>)
    ensures forall j :: 0 <= j < |ix| ==> 0 <= ix[j] < |walked|
    ensures forall k :: k in ix <==> 0 <= k < |walked| && !Excluded(walked[k].path, excludes)
    ensures forall i, j :: 0 <= i < j < |ix| ==> ix[i] < ix[j]
  {
    if |walked| == 0 then []
    else
      var init := walked[..|walked| - 1];
      var rest := KeptPositions(init, excludes);
      assert forall k :: 0 <= k < |init| ==> init[k] == walked[k];
      if !Excluded(walked[|walked| - 1].path, excludes) then
        assert forall j :: 0 <= j < |rest| ==> rest[j] < |init|;
        rest + [|init|]
      else rest
  }

  /** Master mode keeps walk order: it lists the walked files at the
      ascending positions of the files it keeps. */
  lemma {:induction false} KeptInWalkOrder(walked: seq<FileNode>, excludes: set<string>)
    ensures ListsAt(walked, Id, Kept(walked, excludes), KeptPositions(walked, excludes))
  {
    if |walked| > 0 {
      var init := walked[..|walked| - 1];
      KeptInWalkOrder(init, excludes);
      PickStep(walked, Id, Kept(init, excludes), KeptPositions(init, excludes), !Excluded(walked[|walked| - 1].path, excludes));
    }
  }

  /** The files of one master-mode bucket, in walk order. */
  function Bucket(files: seq<FileNode>, c: Category): (b: seq<FileNode>)
    ensures forall f :: f in b <==> f in files && Classify(f.ext) == c
  {
    if |files| == 0 then []
    else
      var init := files[..|files| - 1];
      var f := files[|files| - 1];
      assert forall g :: g in files <==> g in init || g == f;
      Bucket(init, c) + (if Classify(f.ext) == c then [f] else [])
  }

  /** A bucket holds each file of its category as often as the walk does,
      and no other file. */
  lemma {:induction false} BucketMultiplicity(files: seq<FileNode>, c: Category)
    ensures forall f :: multiset(Bucket(files, c))[f] == if Classify(f.ext) == c then multiset(files)[f] else 0
  {
    if |files| > 0 {
      var init := files[..|files| - 1];
      var f := files[|files| - 1];
      BucketMultiplicity(init, c);
      assert files == init + [f];
      assert multiset(files) == multiset(init) + multiset{f};
    }
  }

  /** Master mode's buckets. */
  datatype Plan = Plan(
    jars: seq<FileNode>, zips: seq<FileNode>, javas: seq<FileNode>,
    configs: seq<FileNode>, scripts: seq<FileNode>, xmls: seq<FileNode>,
    texts: seq<FileNode>, others: seq<FileNode>)
  {
    /** The files searched as loose files, bucket after bucket. */
    function Rest(): seq<FileNode> {
      configs + scripts + xmls + texts + others
    }
  }

  function PlanOf(files: seq<FileNode>): Plan {
    Plan(Bucket(files, Jar), Bucket(files, ZipFamily), Bucket(files, JavaSource),
         Bucket(files, ConfigFile), Bucket(files, ScriptFile), Bucket(files, XmlFile),
         Bucket(files, TextFile), Bucket(files, OtherFile))
  }

  /** The eight bucket sizes. */
  function BucketSizes(files: seq<FileNode>): nat {
    |Bucket(files, Jar)| + |Bucket(files, ZipFamily)| + |Bucket(files, JavaSource)|
      + |Bucket(files, ConfigFile)| + |Bucket(files, ScriptFile)| + |Bucket(files, XmlFile)|
      + |Bucket(files, TextFile)| + |Bucket(files, OtherFile)|
  }

  /** Every file lands in exactly one bucket, so the bucket sizes add up to
      the number of files. */
  lemma {:induction false} BucketsPartition(files: seq<FileNode>)
    ensures BucketSizes(files) == |files|
  {
    if |files| > 0 {
      BucketsPartition(files[..|files| - 1]);
    }
  }

  /** The bucketing of master mode is a partition of the kept files:
      each lands in the one bucket of its category, the sizes add up, and
      the loose-file phase gets the configuration, script, XML, text and
      other buckets. */
  lemma PlanIsPartition(files: seq<FileNode>)
    ensures var plan := PlanOf(files);
      && |plan.Rest()| == |plan.configs| + |plan.scripts| + |plan.xmls| + |plan.texts| + |plan.others|
      && |plan.jars| + |plan.zips| + |plan.javas| + |plan.Rest()| == |files|
      && (forall f :: f in files ==> f in Bucket(files, Classify(f.ext)))
      && (forall f, c :: f in Bucket(files, c) ==> f in files && c == Classify(f.ext))
  {
    BucketsPartition(files);
  }

  /** Master mode's statistics once the files are bucketed. */
  function PlannedStats(s: Stats, plan: Plan): Stats {
    s.(totalJars := |plan.jars|, totalZipFiles := |plan.zips|,
       totalJavaFiles := |plan.javas|, totalOtherFiles := |plan.Rest()|)
  }

  /** Before any phase runs, the JAR, ZIP, Java and other totals count
      every kept file exactly once. */
  lemma PlannedTotalsCoverFiles(s: Stats, files: seq<FileNode>)
    ensures PlannedStats(s, PlanOf(files)).totalJars + PlannedStats(s, PlanOf(files)).totalZipFiles
      + PlannedStats(s, PlanOf(files)).totalJavaFiles + PlannedStats(s, PlanOf(files)).totalOtherFiles == |files|
  {
    PlanIsPartition(files);
  }

  /** The buckets of the walk's kept files. */
  function PlanFor(t: Tool, walked: seq<FileNode>): Plan {
    PlanOf(Kept(walked, t.config.excludes))
  }

  /** The four phases of master mode, in order: JARs (every entry),
      ZIP-family archives, Java sources, and every other file with the
      text-then-binary scan. */
  function Phases(t: Tool, plan: Plan, p: Pattern): Tool {
    var t2 := RunAll(t, plan.jars, ContentInJar(p, ["*"]));
    var t3 := RunAll(t2, plan.zips, ContentInZip(p));
    var t4 := RunAll(t3, plan.javas, ContentInFile(p));
    RunAll(t4, plan.Rest(), ContentInAllFiles(p))
  }

  /** Master mode on a valid pattern: the kept files are bucketed, the
      totals set, and the phases run. */
  function Master(t: Tool, walked: seq<FileNode>, p: Pattern): Tool {
    var plan := PlanFor(t, walked);
    Phases(t.(stats := PlannedStats(t.stats, plan)), plan, p)
  }

  /** `master_search`: an invalid pattern fails first. */
  function MasterSearch(t: Tool, walked: seq<FileNode>, pat: Option<Pattern>): (r: Result<Tool, string>)
    ensures pat.None? <==> r.Failure?
  {
    match pat
    case None => Failure("invalid pattern")
    case Some(p) => Success(Master(t, walked, p))
  }

  /** How many files the four phases process. */
  function MasterProcessed(config: Config, plan: Plan, p: Pattern): nat {
    ProcessedCount(config, plan.jars, ContentInJar(p, ["*"])) + ProcessedCount(config, plan.zips, ContentInZip(p))
      + ProcessedCount(config, plan.javas, ContentInFile(p)) + ProcessedCount(config, plan.Rest(), ContentInAllFiles(p))
  }

  /** The entry counters of master mode's JAR phase. */
  function JarPhaseCounts(config: Config, plan: Plan, p: Pattern): Counts {
    PhaseCounts(config, plan.jars, ContentInJar(p, ["*"]))
  }

  /** `s` is a prefix of `s'`. */
  predicate IsPrefix(s: seq<SearchResult>, s': seq<SearchResult>) {
    |s| <= |s'| && s'[..|s|] == s
  }

  /** `after` extends `before`, and every appended result is at one of
      `locs`. */
  predicate AppendedAt(before: seq<SearchResult>, after: seq<SearchResult>, locs: set<string>) {
    IsPrefix(before, after) && forall k :: |before| <= k < |after| ==> after[k].fileLocation in locs
  }

  /** `loc` is the path of `f`, or the location of one of its readable
      entries. */
  ghost predicate AtFile(loc: string, f: FileNode) {
    || loc == f.path
    || (f.archive.Some? && exists e :: e in Readable(f.archive.value) && loc == EntryLocation(f.path, e.name))
  }

  /** `r` is located in one of `files` that the size gate of `config`
      admits: at its path or at one of its entries. */
  ghost predicate LocatedIn(r: SearchResult, files: seq<FileNode>, config: Config) {
    exists f :: f in files && ShouldProcessFile(config, f.path, f.size) && AtFile(r.fileLocation, f)
  }

  /** `after` extends `before`, and every appended result is located in
      one of `files` admitted by `config`. */
  ghost predicate AppendedIn(before: seq<SearchResult>, after: seq<SearchResult>, files: seq<FileNode>, config: Config) {
    IsPrefix(before, after) && forall k :: |before| <= k < |after| ==> LocatedIn(after[k], files, config)
  }

  /** Every result a fold appends stands for one of the folded matches'
      locations. */
  lemma {:induction false} AddAllLocations(t: Tool, rs: seq<SearchResult>)
    ensures AppendedAt(t.results, AddAll(t, rs).results, Locations(rs))
  {
    if |rs| > 0 {
      var init := rs[..|rs| - 1];
      var x := rs[|rs| - 1];
      AddAllLocations(t, init);
      AddAllCounts(t, init);
      var mid := AddAll(t, init).results;
      var after := AddAll(t, rs).results;
      assert Locations(rs) == Locations(init) + {x.fileLocation};
      assert IsPrefix(mid, after);
      forall k | |t.results| <= k < |after|
        ensures after[k].fileLocation in Locations(rs)
      {
        if k < |mid| {
          assert after[k] == mid[k];
        }
      }
      assert after[..|t.results|] == mid[..|t.results|];
    }
  }

  /** Every match a unit reports is located in the file it searched: at
      the file's path, or at one of its readable entries. */
  lemma UnitResultsLocated(f: FileNode, u: Unit)
    requires Opened(f, u)
    ensures forall r :: r in UnitResults(f, u) ==>
      || r.fileLocation == f.path
      || (f.archive.Some? && exists e :: e in Readable(f.archive.value) && r.fileLocation == EntryLocation(f.path, e.name))
  {
    forall r | r in UnitResults(f, u)
      ensures AtFile(r.fileLocation, f)
    {
      match u
      case ClassInJar(query, exact) =>
        var e :| e in Readable(f.archive.value) && ClassSelected(e, query, exact) && r == ClassHit(f.path, e.name);
      case PackageInJar(path) =>
        var e :| e in Readable(f.archive.value) && PackageMatch(e.name, path) && r == PackageHit(f.path, e.name);
      case ContentInJar(pat, fileTypes) =>
        ContentOfRouted(f.path, Readable(f.archive.value), fileTypes, pat);
        var e :| e in Readable(f.archive.value) && RoutedFrom(f.path, e, fileTypes, pat, r);
      case ContentInZip(pat) =>
        ZipContentRouted(f.path, Readable(f.archive.value), pat);
        var e :| e in Readable(f.archive.value) && ZipRoutedFrom(f.path, e, pat, r);
      case ContentInFile(pat) =>
        var found := Scan(f.path, GetFileType(f.ext), f.lines.value, pat);
        ScanReportsMatchingLines(f.path, GetFileType(f.ext), f.lines.value, pat);
        var k :| 0 <= k < |found| && found[k] == r;
      case ContentInAllFiles(pat) =>
        MasterScanLocated(f.path, GetFileType(f.ext), f.lines.value, f.bytes, pat, r);
    }
  }

  /** Every result of master mode's loose-file scan is at the file's
      path. */
  lemma MasterScanLocated(location: string, fileType: string, lines: seq<LineRead>, bytes: Option<seq<byte>>, pat: Pattern, r: SearchResult)
    requires r in MasterFileScan(location, fileType, lines, bytes, pat)
    ensures r.fileLocation == location
  {
    var e := FirstError(lines);
    var text := Scan(location, fileType, lines[..e], pat);
    if e < |lines| && |text| == 0 {
      var found := BinaryResults(location, fileType + "_binary", bytes, pat);
      var k :| 0 <= k < |found| && found[k] == r;
    } else {
      ScanReportsMatchingLines(location, fileType, lines[..e], pat);
      var k :| 0 <= k < |text| && text[k] == r;
    }
  }

  /** A unit only appends results, and each appended result is located in
      the file, which passed the gate. */
  lemma RunUnitLocated(t: Tool, f: FileNode, u: Unit)
    ensures AppendedIn(t.results, RunUnit(t, f, u).results, [f], t.config)
  {
    if Processes(t.config, f, u) {
      var rs := UnitResults(f, u);
      AddAllLocations(t, rs);
      UnitResultsLocated(f, u);
      var after := RunUnit(t, f, u).results;
      assert after == AddAll(t, rs).results;
      forall k | |t.results| <= k < |after|
        ensures LocatedIn(after[k], [f], t.config)
      {
        assert after[k].fileLocation in Locations(rs);
        LocationsWitness(rs, after[k].fileLocation);
        var j :| 0 <= j < |rs| && rs[j].fileLocation == after[k].fileLocation;
        assert rs[j] in rs;
        assert AtFile(rs[j].fileLocation, f);
        assert f in [f];
      }
    } else {
      assert t.results[..|t.results|] == t.results;
    }
  }

  /** Appending in two steps, each located in `files`, is appending once. */
  lemma AppendedInChain(a: seq<SearchResult>, b: seq<SearchResult>, c: seq<SearchResult>, files: seq<FileNode>, config: Config)
    requires AppendedIn(a, b, files, config) && AppendedIn(b, c, files, config)
    ensures AppendedIn(a, c, files, config)
  {
    assert c[..|a|] == c[..|b|][..|a|];
    forall k | |a| <= k < |c|
      ensures LocatedIn(c[k], files, config)
    {
      if k < |b| {
        assert c[k] == c[..|b|][k];
      }
    }
  }

  /** Results located in some files are located in any files containing
      them. */
  lemma AppendedInWiden(a: seq<SearchResult>, b: seq<SearchResult>, files: seq<FileNode>, more: seq<FileNode>, config: Config)
    requires AppendedIn(a, b, files, config)
    requires forall f :: f in files ==> f in more
    ensures AppendedIn(a, b, more, config)
  {
    forall k | |a| <= k < |b|
      ensures LocatedIn(b[k], more, config)
    {
      var f :| f in files && ShouldProcessFile(config, f.path, f.size) && AtFile(b[k].fileLocation, f);
    }
  }

  /** A phase keeps the configuration, only appends results, and every
      appended result is located in one of the phase's files that passed
      the gate. */
  lemma {:induction false} RunAllLocated(t: Tool, files: seq<FileNode>, u: Unit)
    ensures RunAll(t, files, u).config == t.config
    ensures AppendedIn(t.results, RunAll(t, files, u).results, files, t.config)
  {
    if |files| == 0 {
      assert t.results[..|t.results|] == t.results;
    } else {
      var init := files[..|files| - 1];
      var f := files[|files| - 1];
      var mid := RunAll(t, init, u);
      RunAllLocated(t, init, u);
      RunUnitLocated(mid, f, u);
      assert forall g :: g in init ==> g in files;
      assert forall g :: g in [f] ==> g in files;
      AppendedInWiden(t.results, mid.results, init, files, t.config);
      AppendedInWiden(mid.results, RunAll(t, files, u).results, [f], files, t.config);
      AppendedInChain(t.results, mid.results, RunAll(t, files, u).results, files, t.config);
    }
  }

  /** A phase processes exactly the files the gate admits and that open,
      adds exactly their entry counters, and never touches the JAR and ZIP
      totals. */
  lemma {:induction false} RunAllCounts(t: Tool, files: seq<FileNode>, u: Unit)
    ensures RunAll(t, files, u).config == t.config
    ensures RunAll(t, files, u).stats.filesProcessed == t.stats.filesProcessed + ProcessedCount(t.config, files, u)
    ensures RunAll(t, files, u).stats.totalClassFiles == t.stats.totalClassFiles + PhaseCounts(t.config, files, u).classes
    ensures RunAll(t, files, u).stats.totalJavaFiles == t.stats.totalJavaFiles + PhaseCounts(t.config, files, u).java
    ensures RunAll(t, files, u).stats.totalOtherFiles == t.stats.totalOtherFiles + PhaseCounts(t.config, files, u).others
    ensures RunAll(t, files, u).stats.totalJars == t.stats.totalJars
    ensures RunAll(t, files, u).stats.totalZipFiles == t.stats.totalZipFiles
    ensures RunAll(t, files, u).stats.matchesFound == t.stats.matchesFound + |PhaseResults(t.config, files, u)|
  {
    assert RunAll(t, files, u).stats.matchesFound == t.stats.matchesFound + |PhaseResults(t.config, files, u)| by {
      RunAllIsFold(t, files, u);
    }
    if |files| > 0 {
      RunAllCounts(t, files[..|files| - 1], u);
    }
  }

  /** A one-phase search that first sets the JAR total stores exactly the
      phase's matches, as `add_result` folds them into the tool, and counts
      each of them; in normal mode they are appended in order. */
  lemma SearchPhaseResults(t: Tool, jars: seq<FileNode>, u: Unit)
    ensures SameStore(RunAll(t.(stats := t.stats.(totalJars := |jars|)), jars, u), AddAll(t, PhaseResults(t.config, jars, u)))
    ensures RunAll(t.(stats := t.stats.(totalJars := |jars|)), jars, u).stats.matchesFound
      == t.stats.matchesFound + |PhaseResults(t.config, jars, u)|
    ensures !t.config.miniMode ==>
      RunAll(t.(stats := t.stats.(totalJars := |jars|)), jars, u).results == t.results + PhaseResults(t.config, jars, u)
  {
    var t0 := t.(stats := t.stats.(totalJars := |jars|));
    var rs := PhaseResults(t.config, jars, u);
    RunAllIsFold(t0, jars, u);
    AddAllIgnoresStats(t0, t, rs);
    if !t.config.miniMode {
      NormalModeKeepsAll(t, rs);
    }
  }

  /** The matches a unit reports over the files it processes, file after
      file. */
  function PhaseResults(config: Config, files: seq<FileNode>, u: Unit): seq<SearchResult> {
    if |files| == 0 then []
    else
      var f := files[|files| - 1];
      PhaseResults(config, files[..|files| - 1], u) + (if Processes(config, f, u) then UnitResults(f, u) else [])
  }

  /** A phase reports a match exactly when one of the files it processes
      reports it. */
  lemma {:induction false} PhaseResultsMembers(config: Config, files: seq<FileNode>, u: Unit)
    ensures forall r :: r in PhaseResults(config, files, u) <==>
      exists f :: f in files && Processes(config, f, u) && r in UnitResults(f, u)
  {
    if |files| > 0 {
      var init := files[..|files| - 1];
      var f := files[|files| - 1];
      PhaseResultsMembers(config, init, u);
      assert forall g :: g in files <==> g in init || g == f;
    }
  }

  /** A phase is the fold of `add_result` over the matches of the files it
      processes: it stores what that fold stores, and counts one match per
      reported result. */
  lemma {:induction false} RunAllIsFold(t: Tool, files: seq<FileNode>, u: Unit)
    ensures SameStore(RunAll(t, files, u), AddAll(t, PhaseResults(t.config, files, u)))
    ensures RunAll(t, files, u).stats.matchesFound == t.stats.matchesFound + |PhaseResults(t.config, files, u)|
  {
    if |files| > 0 {
      var init := files[..|files| - 1];
      var f := files[|files| - 1];
      RunAllIsFold(t, init, u);
      var prev := RunAll(t, init, u);
      var rs := PhaseResults(t.config, init, u);
      AddAllCounts(t, rs);
      if Processes(t.config, f, u) {
        var us := UnitResults(f, u);
        AddAllIgnoresStats(prev, AddAll(t, rs), us);
        AddAllAppend(t, rs, us);
        assert PhaseResults(t.config, files, u) == rs + us;
      } else {
        assert PhaseResults(t.config, files, u) == rs + [];
        assert rs + [] == rs;
      }
    }
  }

  /** In normal mode a phase appends every match of the files it
      processes, in order. */
  lemma RunAllNormalMode(t: Tool, files: seq<FileNode>, u: Unit)
    requires !t.config.miniMode
    ensures RunAll(t, files, u).results == t.results + PhaseResults(t.config, files, u)
  {
    RunAllIsFold(t, files, u);
    NormalModeKeepsAll(t, PhaseResults(t.config, files, u));
  }

  /** A mini-mode phase on a fresh tool stores one result per location
      reported, which is at most the number of matches it counts. */
  lemma PhaseMiniModeCounts(config: Config, files: seq<FileNode>, u: Unit)
    requires config.miniMode
    ensures var t := RunAll(NewTool(config), files, u); var rs := PhaseResults(config, files, u);
      && t.stats.matchesFound == |rs|
      && t.uniqueFiles == Locations(rs)
      && |t.results| == |Locations(rs)| <= t.stats.matchesFound
  {
    RunAllIsFold(NewTool(config), files, u);
    MiniModeCounts(config, PhaseResults(config, files, u));
  }

  /** The class query phase reports exactly the hits of the selected class
      entries of the JARs it processes. */
  lemma {:induction false} ClassPhaseResults(config: Config, jars: seq<FileNode>, query: string, exact: bool)
    ensures forall r :: r in PhaseResults(config, jars, ClassInJar(query, exact)) <==>
      exists f, e :: f in jars && Processes(config, f, ClassInJar(query, exact)) && e in Readable(f.archive.value)
        && ClassSelected(e, query, exact) && r == ClassHit(f.path, e.name)
  {
    var u := ClassInJar(query, exact);
    PhaseResultsMembers(config, jars, u);
    forall r | r in PhaseResults(config, jars, u)
      ensures exists f, e :: f in jars && Processes(config, f, u) && e in Readable(f.archive.value)
                             && ClassSelected(e, query, exact) && r == ClassHit(f.path, e.name)
    {
      var f :| f in jars && Processes(config, f, u) && r in UnitResults(f, u);
      var e :| e in Readable(f.archive.value) && ClassSelected(e, query, exact) && r == ClassHit(f.path, e.name);
    }
    forall f, e | f in jars && Processes(config, f, u) && e in Readable(f.archive.value) && ClassSelected(e, query, exact)
      ensures ClassHit(f.path, e.name) in PhaseResults(config, jars, u)
    {
      assert ClassHit(f.path, e.name) in UnitResults(f, u);
    }
  }

  /** The package query phase reports exactly the hits of the matching
      entries of the JARs it processes. */
  lemma {:induction false} PackagePhaseResults(config: Config, jars: seq<FileNode>, path: string)
    ensures forall r :: r in PhaseResults(config, jars, PackageInJar(path)) <==>
      exists f, e :: f in jars && Processes(config, f, PackageInJar(path)) && e in Readable(f.archive.value)
        && PackageMatch(e.name, path) && r == PackageHit(f.path, e.name)
  {
    var u := PackageInJar(path);
    PhaseResultsMembers(config, jars, u);
    forall r | r in PhaseResults(config, jars, u)
      ensures exists f, e :: f in jars && Processes(config, f, u) && e in Readable(f.archive.value)
                             && PackageMatch(e.name, path) && r == PackageHit(f.path, e.name)
    {
      var f :| f in jars && Processes(config, f, u) && r in UnitResults(f, u);
      var e :| e in Readable(f.archive.value) && PackageMatch(e.name, path) && r == PackageHit(f.path, e.name);
    }
    forall f, e | f in jars && Processes(config, f, u) && e in Readable(f.archive.value) && PackageMatch(e.name, path)
      ensures PackageHit(f.path, e.name) in PhaseResults(config, jars, u)
    {
      assert PackageHit(f.path, e.name) in UnitResults(f, u);
    }
  }

  /** A unit keeps a mini-mode tool consistent. */
  lemma RunUnitKeepsMiniInv(t: Tool, f: FileNode, u: Unit)
    requires t.config.miniMode && MiniInv(t)
    ensures MiniInv(RunUnit(t, f, u))
  {
    if Processes(t.config, f, u) {
      AddAllKeepsMiniInv(t, UnitResults(f, u));
    }
  }

  /** A phase keeps a mini-mode tool consistent. */
  lemma {:induction false} RunAllKeepsMiniInv(t: Tool, files: seq<FileNode>, u: Unit)
    requires t.config.miniMode && MiniInv(t)
    ensures MiniInv(RunAll(t, files, u))
  {
    if |files| > 0 {
      RunAllKeepsMiniInv(t, files[..|files| - 1], u);
      RunAllLocated(t, files[..|files| - 1], u);
      RunUnitKeepsMiniInv(RunAll(t, files[..|files| - 1], u), files[|files| - 1], u);
    }
  }

  /** What a phase guarantees about the results of the tool it leaves. */
  ghost predicate PhaseFacts(before: Tool, after: Tool, files: seq<FileNode>) {
    && after.config == before.config
    && AppendedIn(before.results, after.results, files, before.config)
    && (before.config.miniMode && MiniInv(before) ==> MiniInv(after))
  }

  lemma RunAllFacts(t: Tool, files: seq<FileNode>, u: Unit)
    ensures PhaseFacts(t, RunAll(t, files, u), files)
  {
    RunAllLocated(t, files, u);
    if t.config.miniMode && MiniInv(t) {
      RunAllKeepsMiniInv(t, files, u);
    }
  }

  /** Two phases in a row, over files of a larger list. */
  lemma PhaseFactsChain(t1: Tool, t2: Tool, t3: Tool, a: seq<FileNode>, b: seq<FileNode>, all: seq<FileNode>)
    requires PhaseFacts(t1, t2, a) && PhaseFacts(t2, t3, b)
    requires forall f :: f in a ==> f in all
    requires forall f :: f in b ==> f in all
    ensures PhaseFacts(t1, t3, a + b)
    ensures AppendedIn(t1.results, t3.results, all, t1.config)
  {
    assert forall f :: f in a ==> f in a + b;
    assert forall f :: f in b ==> f in a + b;
    AppendedInWiden(t1.results, t2.results, a, a + b, t1.config);
    AppendedInWiden(t2.results, t3.results, b, a + b, t1.config);
    AppendedInChain(t1.results, t2.results, t3.results, a + b, t1.config);
    assert forall f :: f in a + b ==> f in all;
    AppendedInWiden(t1.results, t3.results, a + b, all, t1.config);
  }

  /** Every file of the loose-file phase is a kept file. */
  lemma RestInFiles(files: seq<FileNode>)
    ensures forall f :: f in PlanOf(files).Rest() ==> f in files
  {
    var plan := PlanOf(files);
    forall f | f in plan.Rest()
      ensures f in files
    {
      assert f in plan.configs || f in plan.scripts || f in plan.xmls || f in plan.texts || f in plan.others;
    }
  }

  /** The four phases of master mode only append results located in the
      kept files, and keep a mini-mode tool consistent. */
  lemma MasterPhasesLocated(t1: Tool, kept: seq<FileNode>, p: Pattern)
    ensures PhaseFacts(t1, Phases(t1, PlanOf(kept), p), kept)
  {
    var plan := PlanOf(kept);
    var t2 := RunAll(t1, plan.jars, ContentInJar(p, ["*"]));
    var t3 := RunAll(t2, plan.zips, ContentInZip(p));
    var t4 := RunAll(t3, plan.javas, ContentInFile(p));
    var t5 := RunAll(t4, plan.Rest(), ContentInAllFiles(p));
    RunAllFacts(t1, plan.jars, ContentInJar(p, ["*"]));
    RunAllFacts(t2, plan.zips, ContentInZip(p));
    RunAllFacts(t3, plan.javas, ContentInFile(p));
    RunAllFacts(t4, plan.Rest(), ContentInAllFiles(p));
    RestInFiles(kept);
    PhaseFactsChain(t1, t2, t3, plan.jars, plan.zips, kept);
    PhaseFactsChain(t1, t3, t4, plan.jars + plan.zips, plan.javas, kept);
    PhaseFactsChain(t1, t4, t5, plan.jars + plan.zips + plan.javas, plan.Rest(), kept);
  }

  /** The four phases of master mode process the files each phase admits,
      and only the JAR phase adds entry counters. */
  lemma MasterPhasesCounts(t1: Tool, plan: Plan, p: Pattern)
    ensures Phases(t1, plan, p).stats.filesProcessed == t1.stats.filesProcessed + MasterProcessed(t1.config, plan, p)
    ensures Phases(t1, plan, p).stats.totalClassFiles == t1.stats.totalClassFiles + JarPhaseCounts(t1.config, plan, p).classes
    ensures Phases(t1, plan, p).stats.totalJavaFiles == t1.stats.totalJavaFiles + JarPhaseCounts(t1.config, plan, p).java
    ensures Phases(t1, plan, p).stats.totalOtherFiles == t1.stats.totalOtherFiles + JarPhaseCounts(t1.config, plan, p).others
    ensures Phases(t1, plan, p).stats.totalJars == t1.stats.totalJars
    ensures Phases(t1, plan, p).stats.totalZipFiles == t1.stats.totalZipFiles
  {
    var t2 := RunAll(t1, plan.jars, ContentInJar(p, ["*"]));
    var t3 := RunAll(t2, plan.zips, ContentInZip(p));
    var t4 := RunAll(t3, plan.javas, ContentInFile(p));
    RunAllCounts(t1, plan.jars, ContentInJar(p, ["*"]));
    RunAllCounts(t2, plan.zips, ContentInZip(p));
    RunAllCounts(t3, plan.javas, ContentInFile(p));
    RunAllCounts(t4, plan.Rest(), ContentInAllFiles(p));
    NoCountsOutsideJars(t1.config, plan.zips, ContentInZip(p));
    NoCountsOutsideJars(t1.config, plan.javas, ContentInFile(p));
    NoCountsOutsideJars(t1.config, plan.Rest(), ContentInAllFiles(p));
  }

  /** The matches of master mode's four phases, phase after phase. */
  function MasterResults(config: Config, plan: Plan, p: Pattern): seq<SearchResult> {
    PhaseResults(config, plan.jars, ContentInJar(p, ["*"])) + PhaseResults(config, plan.zips, ContentInZip(p))
      + PhaseResults(config, plan.javas, ContentInFile(p)) + PhaseResults(config, plan.Rest(), ContentInAllFiles(p))
  }

  /** The next phase continues the fold of the phases before it. */
  lemma FoldStep(t1: Tool, prev: Tool, before: seq<SearchResult>, files: seq<FileNode>, u: Unit)
    requires SameStore(prev, AddAll(t1, before))
    requires prev.stats.matchesFound == t1.stats.matchesFound + |before|
    ensures SameStore(RunAll(prev, files, u), AddAll(t1, before + PhaseResults(t1.config, files, u)))
    ensures RunAll(prev, files, u).stats.matchesFound == t1.stats.matchesFound + |before + PhaseResults(t1.config, files, u)|
  {
    AddAllCounts(t1, before);
    var rs := PhaseResults(prev.config, files, u);
    RunAllIsFold(prev, files, u);
    AddAllIgnoresStats(prev, AddAll(t1, before), rs);
    AddAllAppend(t1, before, rs);
  }

  /** Master mode's phases are one fold of `add_result` over their matches,
      phase after phase. */
  lemma MasterPhasesResults(t1: Tool, plan: Plan, p: Pattern)
    ensures SameStore(Phases(t1, plan, p), AddAll(t1, MasterResults(t1.config, plan, p)))
    ensures Phases(t1, plan, p).stats.matchesFound == t1.stats.matchesFound + |MasterResults(t1.config, plan, p)|
  {
    var c := t1.config;
    var t2 := RunAll(t1, plan.jars, ContentInJar(p, ["*"]));
    var t3 := RunAll(t2, plan.zips, ContentInZip(p));
    var t4 := RunAll(t3, plan.javas, ContentInFile(p));
    var a := PhaseResults(c, plan.jars, ContentInJar(p, ["*"]));
    var b := PhaseResults(c, plan.zips, ContentInZip(p));
    var d := PhaseResults(c, plan.javas, ContentInFile(p));
    RunAllIsFold(t1, plan.jars, ContentInJar(p, ["*"]));
    FoldStep(t1, t2, a, plan.zips, ContentInZip(p));
    FoldStep(t1, t3, a + b, plan.javas, ContentInFile(p));
    FoldStep(t1, t4, a + b + d, plan.Rest(), ContentInAllFiles(p));
  }

  /** Master mode, on a valid pattern: the configuration is kept, the JAR
      and ZIP totals are the bucket sizes, results are only appended and
      each is located in a kept file that passed the size gate, and a
      mini-mode tool stays consistent. */
  lemma MasterSearchFacts(t: Tool, walked: seq<FileNode>, p: Pattern)
    ensures MasterSearch(t, walked, Some(p)) == Success(Master(t, walked, p))
    ensures Master(t, walked, p).config == t.config
    ensures Master(t, walked, p).stats.totalJars == |PlanFor(t, walked).jars|
    ensures Master(t, walked, p).stats.totalZipFiles == |PlanFor(t, walked).zips|
    ensures AppendedIn(t.results, Master(t, walked, p).results, Kept(walked, t.config.excludes), t.config)
    ensures t.config.miniMode && MiniInv(t) ==> MiniInv(Master(t, walked, p))
    ensures !t.config.miniMode ==> Master(t, walked, p).results == t.results + MasterResults(t.config, PlanFor(t, walked), p)
  {
    var kept := Kept(walked, t.config.excludes);
    var plan := PlanOf(kept);
    var t1 := t.(stats := PlannedStats(t.stats, plan));
    MasterPhasesLocated(t1, kept, p);
    MasterPhasesCounts(t1, plan, p);
    MasterStore(t, walked, p);
  }

  /** Master mode stores exactly its phases' matches, as `add_result` folds
      them into the tool, and counts each of them. */
  lemma MasterStore(t: Tool, walked: seq<FileNode>, p: Pattern)
    ensures SameStore(Master(t, walked, p), AddAll(t, MasterResults(t.config, PlanFor(t, walked), p)))
    ensures Master(t, walked, p).stats.matchesFound == t.stats.matchesFound + |MasterResults(t.config, PlanFor(t, walked), p)|
    ensures !t.config.miniMode ==> Master(t, walked, p).results == t.results + MasterResults(t.config, PlanFor(t, walked), p)
  {
    var plan := PlanFor(t, walked);
    var t1 := t.(stats := PlannedStats(t.stats, plan));
    var rs := MasterResults(t.config, plan, p);
    MasterPhasesResults(t1, plan, p);
    AddAllIgnoresStats(t1, t, rs);
    if !t.config.miniMode {
      NormalModeKeepsAll(t, rs);
    }
  }

  /** Master mode's counters. The files processed are those of the four
      phases that the gate admits and that open, at most one per kept file.
      The Java and other totals are the bucket sizes plus the JAR entries of
      those kinds, and the class total grows by the JAR class entries. */
  lemma MasterSearchCounts(t: Tool, walked: seq<FileNode>, p: Pattern)
    ensures Master(t, walked, p).stats.filesProcessed == t.stats.filesProcessed + MasterProcessed(t.config, PlanFor(t, walked), p)
    ensures MasterProcessed(t.config, PlanFor(t, walked), p) <= |Kept(walked, t.config.excludes)|
    ensures Master(t, walked, p).stats.totalClassFiles == t.stats.totalClassFiles + JarPhaseCounts(t.config, PlanFor(t, walked), p).classes
    ensures Master(t, walked, p).stats.totalJavaFiles == |PlanFor(t, walked).javas| + JarPhaseCounts(t.config, PlanFor(t, walked), p).java
    ensures Master(t, walked, p).stats.totalOtherFiles == |PlanFor(t, walked).Rest()| + JarPhaseCounts(t.config, PlanFor(t, walked), p).others
    ensures Master(t, walked, p).stats.matchesFound == t.stats.matchesFound + |MasterResults(t.config, PlanFor(t, walked), p)|
  {
    MasterStore(t, walked, p);
    var kept := Kept(walked, t.config.excludes);
    var plan := PlanOf(kept);
    PlanIsPartition(kept);
    var t1 := t.(stats := PlannedStats(t.stats, plan));
    MasterPhasesCounts(t1, plan, p);
  }

  /** A JAR whose one entry is the Java source `A.java`. */
  predicate OneJavaEntryJar(f: FileNode) {
    f.ext == Some("jar") && f.archive == Some([Some(Entry("A.java", None, None))])
  }

  /** A walk of that one JAR keeps it, and buckets it as a JAR and not as
      a Java source. */
  lemma OneJarPlan(t: Tool, f: FileNode)
    requires t.config.excludes == {} && OneJavaEntryJar(f)
    ensures PlanFor(t, [f]).jars == [f]
    ensures PlanFor(t, [f]).javas == []
  {
    var w := [f];
    assert w[..0] == [];
    assert !Excluded(f.path, {});
    assert Kept(w, {}) == Kept([], {}) + [f];
    assert Classify(f.ext) == Jar;
    assert Bucket(w, Jar) == Bucket([], Jar) + [f];
    assert Bucket(w, JavaSource) == Bucket([], JavaSource) + [];
  }

  /** `A.java` is a Java source entry, not a directory. */
  lemma JavaEntryName()
    ensures !IsDirectory("A.java") && KindOf("A.java") == JavaKind
  {
    var name := "A.java";
    assert name[|name| - 1..] == "a";
    assert name[0] != ".class"[0];
    assert name[|name| - 6..] == name;
    assert name[|name| - 5..] == ".java";
  }

  /** An archive of one readable entry. */
  lemma ReadableOne(e: Entry)
    ensures Readable([Some(e)]) == [e]
  {
    assert [Some(e)][..0] == [];
  }

  /** One entry that is not a directory. */
  lemma FilesOne(e: Entry)
    requires !IsDirectory(e.name)
    ensures Files([e]) == [e]
  {
    assert [e][..0] == [];
  }

  /** The JAR holds one Java entry. */
  lemma OneJarEntries(f: FileNode)
    requires OneJavaEntryJar(f)
    ensures CountKind(Files(Readable(f.archive.value)), JavaKind) == 1
  {
    var e := Entry("A.java", None, None);
    ReadableOne(e);
    JavaEntryName();
    FilesOne(e);
    assert [e][..0] == [];
    assert CountKind([e], JavaKind) == CountKind([], JavaKind) + 1;
  }

  /** The JAR phase over one file it processes adds that file's counters. */
  lemma PhaseCountsOne(config: Config, f: FileNode, u: Unit)
    requires Processes(config, f, u)
    ensures PhaseCounts(config, [f], u) == Counts(0, 0, 0).Plus(UnitCounts(f, u))
  {
    assert [f][..0] == [];
  }

  /** Without exclusions or threshold the JAR content search processes
      that JAR. */
  lemma OneJarProcessed(config: Config, f: FileNode, p: Pattern)
    requires config.excludes == {} && config.sizeThreshold == 0 && OneJavaEntryJar(f)
    ensures Processes(config, f, ContentInJar(p, ["*"]))
  {
    assert !Excluded(f.path, {});
  }

  /** The JAR content search of that JAR counts one Java entry. */
  lemma OneJarUnitJava(f: FileNode, p: Pattern)
    requires OneJavaEntryJar(f)
    ensures UnitCounts(f, ContentInJar(p, ["*"])).java == 1
  {
    OneJarEntries(f);
  }

  /** Master mode's JAR phase over that one JAR finds one Java entry. */
  lemma OneJarPhase(t: Tool, f: FileNode, p: Pattern)
    requires t.config.excludes == {} && t.config.sizeThreshold == 0 && OneJavaEntryJar(f)
    ensures JarPhaseCounts(t.config, PlanFor(t, [f]), p).java == 1
  {
    var u := ContentInJar(p, ["*"]);
    OneJarPlan(t, f);
    OneJarProcessed(t.config, f, p);
    PhaseCountsOne(t.config, f, u);
    OneJarUnitJava(f, p);
    assert JarPhaseCounts(t.config, PlanFor(t, [f]), p) == PhaseCounts(t.config, [f], u);
  }

  /** Master mode counts a JAR's Java entry as a Java file although the walk
      holds no Java source: without exclusions or size threshold, a walk of
      just such a JAR has an empty Java bucket and a Java total of 1. */
  lemma MasterCountsJarEntriesAsFiles(t: Tool, f: FileNode, p: Pattern)
    requires t.config.excludes == {} && t.config.sizeThreshold == 0 && OneJavaEntryJar(f)
    ensures |PlanFor(t, [f]).javas| == 0
    ensures Master(t, [f], p).stats.totalJavaFiles == 1
  {
    OneJarPlan(t, f);
    OneJarPhase(t, f, p);
    MasterSearchCounts(t, [f], p);
  }

  /** The class and package searches set the JAR total to the number of
      JARs found, process exactly the found JARs the gate admits and that
      open, only append results, and locate every result in a found JAR that
      passed the gate. The class search adds each processed JAR's class
      entries to the class total. */
  lemma SearchClassesFacts(t: Tool, walked: seq<FileNode>, query: string, exact: bool)
    ensures SearchClasses(t, walked, query, exact).stats.totalJars == |FoundJars(t, walked)|
    ensures SearchClasses(t, walked, query, exact).stats.filesProcessed
      == t.stats.filesProcessed + ProcessedCount(t.config, FoundJars(t, walked), ClassInJar(query, exact))
    ensures SearchClasses(t, walked, query, exact).stats.totalClassFiles
      == t.stats.totalClassFiles + PhaseCounts(t.config, FoundJars(t, walked), ClassInJar(query, exact)).classes
    ensures AppendedIn(t.results, SearchClasses(t, walked, query, exact).results, FoundJars(t, walked), t.config)
    ensures SearchClasses(t, walked, query, exact).stats.matchesFound
      == t.stats.matchesFound + |PhaseResults(t.config, FoundJars(t, walked), ClassInJar(query, exact))|
    ensures !t.config.miniMode ==>
      SearchClasses(t, walked, query, exact).results == t.results + PhaseResults(t.config, FoundJars(t, walked), ClassInJar(query, exact))
  {
    var jars := FoundJars(t, walked);
    SearchPhaseResults(t, jars, ClassInJar(query, exact));
    RunAllFacts(t.(stats := t.stats.(totalJars := |jars|)), jars, ClassInJar(query, exact));
    RunAllCounts(t.(stats := t.stats.(totalJars := |jars|)), jars, ClassInJar(query, exact));
  }

  lemma SearchPackageFacts(t: Tool, walked: seq<FileNode>, pkg: string)
    ensures SearchPackage(t, walked, pkg).stats.totalJars == |FoundJars(t, walked)|
    ensures SearchPackage(t, walked, pkg).stats.filesProcessed
      == t.stats.filesProcessed + ProcessedCount(t.config, FoundJars(t, walked), PackageInJar(PackagePath(pkg)))
    ensures AppendedIn(t.results, SearchPackage(t, walked, pkg).results, FoundJars(t, walked), t.config)
    ensures SearchPackage(t, walked, pkg).stats.matchesFound
      == t.stats.matchesFound + |PhaseResults(t.config, FoundJars(t, walked), PackageInJar(PackagePath(pkg)))|
    ensures !t.config.miniMode ==>
      SearchPackage(t, walked, pkg).results == t.results + PhaseResults(t.config, FoundJars(t, walked), PackageInJar(PackagePath(pkg)))
  {
    var jars := FoundJars(t, walked);
    SearchPhaseResults(t, jars, PackageInJar(PackagePath(pkg)));
    RunAllFacts(t.(stats := t.stats.(totalJars := |jars|)), jars, PackageInJar(PackagePath(pkg)));
    RunAllCounts(t.(stats := t.stats.(totalJars := |jars|)), jars, PackageInJar(PackagePath(pkg)));
  }

  /** The content search on a valid pattern: the JAR total is the number of
      JARs found, the found JARs the gate admits and that open are processed
      and their entry counters added, results are only appended and each is
      located in a found JAR that passed the gate. */
  lemma SearchContentFacts(t: Tool, walked: seq<FileNode>, p: Pattern, fileTypes: seq<string>)
    ensures SearchContent(t, walked, Some(p), fileTypes).value.stats.totalJars == |FoundJars(t, walked)|
    ensures SearchContent(t, walked, Some(p), fileTypes).value.stats.filesProcessed
      == t.stats.filesProcessed + ProcessedCount(t.config, FoundJars(t, walked), ContentInJar(p, fileTypes))
    ensures SearchContent(t, walked, Some(p), fileTypes).value.stats.totalClassFiles
      == t.stats.totalClassFiles + PhaseCounts(t.config, FoundJars(t, walked), ContentInJar(p, fileTypes)).classes
    ensures SearchContent(t, walked, Some(p), fileTypes).value.stats.totalJavaFiles
      == t.stats.totalJavaFiles + PhaseCounts(t.config, FoundJars(t, walked), ContentInJar(p, fileTypes)).java
    ensures SearchContent(t, walked, Some(p), fileTypes).value.stats.totalOtherFiles
      == t.stats.totalOtherFiles + PhaseCounts(t.config, FoundJars(t, walked), ContentInJar(p, fileTypes)).others
    ensures AppendedIn(t.results, SearchContent(t, walked, Some(p), fileTypes).value.results, FoundJars(t, walked), t.config)
    ensures SearchContent(t, walked, Some(p), fileTypes).value.stats.matchesFound
      == t.stats.matchesFound + |PhaseResults(t.config, FoundJars(t, walked), ContentInJar(p, fileTypes))|
    ensures !t.config.miniMode ==>
      SearchContent(t, walked, Some(p), fileTypes).value.results == t.results + PhaseResults(t.config, FoundJars(t, walked), ContentInJar(p, fileTypes))
  {
    var jars := FoundJars(t, walked);
    SearchPhaseResults(t, jars, ContentInJar(p, fileTypes));
    RunAllFacts(t.(stats := t.stats.(totalJars := |jars|)), jars, ContentInJar(p, fileTypes));
    RunAllCounts(t.(stats := t.stats.(totalJars := |jars|)), jars, ContentInJar(p, fileTypes));
  }
}
