/** Which paths the tool looks at: the exclusion test
    (`should_exclude_path`), the size gate every per-file search passes
    first (`should_process_file`) and the archive finder's filter
    (`find_archive_files`). A path is given as the string its lossy
    conversion yields; a file's size is `None` when its metadata cannot be
    read. */
module Gating {
  import opened Wrappers
  import opened Model
  import opened Text
  import opened Picks

  /** Some exclusion string occurs in the path. */
  predicate Excluded(path: string, excludes: set<string>) {
    exists e | e in excludes :: Contains(path, e)
  }

  /** The loop of `should_exclude_path`: it tries the exclusion strings one
      by one, in whatever order the set yields them, and answers true at the
      first that occurs in the path. */
  method ShouldExcludePath(path: string, excludes: set<string>) returns (excluded: bool)
    ensures excluded <==> Excluded(path, excludes)
  {
    var rest := excludes;
    while rest != {}
      invariant rest <= excludes
      invariant forall e :: e in excludes - rest ==> !Contains(path, e)
      decreases |rest|
    {
      var e :| e in rest;
      if Contains(path, e) {
        return true;
      }
      rest := rest - {e};
    }
    return false;
  }

  /** `should_process_file`: an excluded path is refused; otherwise the file
      is accepted when its size is unknown or the threshold is 0, and refused
      exactly when its size is below the threshold. */
  function ShouldProcessFile(config: Config, path: string, size: Option<nat>): (accept: bool)
    ensures Excluded(path, config.excludes) ==> !accept
    ensures !Excluded(path, config.excludes) && (size.None? || config.sizeThreshold == 0) ==> accept
    ensures !Excluded(path, config.excludes) && size.Some? && config.sizeThreshold > 0 ==>
      (accept <==> size.value >= config.sizeThreshold)
  {
    if Excluded(path, config.excludes) then false
    else if size.None? then true
    else if config.sizeThreshold == 0 then true
    else size.value >= config.sizeThreshold
  }

  /** Raising the size threshold, including switching the gate on from 0,
      never admits a file that was refused before. */
  lemma HigherThresholdAdmitsFewer(config: Config, higher: nat, path: string, size: Option<nat>)
    requires config.sizeThreshold <= higher
    ensures ShouldProcessFile(config.(sizeThreshold := higher), path, size) ==> ShouldProcessFile(config, path, size)
  {
  }

  /** More exclusion strings never admit a file that was refused before. */
  lemma MoreExcludesAdmitFewer(config: Config, more: set<string>, path: string, size: Option<nat>)
    requires config.excludes <= more
    ensures ShouldProcessFile(config.(excludes := more), path, size) ==> ShouldProcessFile(config, path, size)
  {
    if Excluded(path, config.excludes) {
      var e :| e in config.excludes && Contains(path, e);
      assert e in more;
    }
  }

  /** With no exclusions and no threshold every file is processed. */
  lemma NoGateAdmitsAll(config: Config, path: string, size: Option<nat>)
    requires config.excludes == {} && config.sizeThreshold == 0
    ensures ShouldProcessFile(config, path, size)
  {
  }

  /** The empty exclusion string occurs in every path, so it excludes
      everything. */
  lemma EmptyExclusionExcludesAll(path: string, excludes: set<string>)
    requires "" in excludes
    ensures Excluded(path, excludes)
  {
    assert OccursAt(path, "", 0);
  }

  /** A walked file `find_archive_files` keeps: not excluded, and with an
      extension equal to one of the targets when both are lower-cased. */
  predicate IsArchiveOf(f: FileNode, excludes: set<string>, extensions: seq<string>) {
    && !Excluded(f.path, excludes)
    && f.ext.Some?
    && exists t | t in extensions :: ToLower(f.ext.value) == ToLower(t)
  }

  /** `find_archive_files`: the walked files that pass the filter, in walk
      order. */
  function FindArchiveFiles(walked: seq<FileNode>, excludes: set<string>, extensions: seq<string>): (found: seq<FileNode>)
    ensures |found| <= |walked|
    ensures forall f :: f in found <==> f in walked && IsArchiveOf(f, excludes, extensions)
    ensures forall f :: multiset(found)[f] == if IsArchiveOf(f, excludes, extensions) then multiset(walked)[f] else 0
  {
    if |walked| == 0 then []
    else
      var init := walked[..|walked| - 1];
      var rest := FindArchiveFiles(init, excludes, extensions);
      var f := walked[|walked| - 1];
      assert walked == init + [f];
      assert multiset(walked) == multiset(init) + multiset{f};
      assert forall g :: g in walked <==> g in init || g == f;
      if IsArchiveOf(f, excludes, extensions) then rest + [f] else rest
  }

  /** The positions of the walked files `find_archive_files` keeps, in
      walk order. */
  function ArchivePositions(walked: seq<FileNode>, excludes: set<string>, extensions: seq<string>): (ix: seq<int>)
    ensures forall j :: 0 <= j < |ix| ==> 0 <= ix[j] < |walked|
    ensures forall k :: k in ix <==> 0 <= k < |walked| && IsArchiveOf(walked[k], excludes, extensions)
    ensures forall i, j :: 0 <= i < j < |ix| ==> ix[i] < ix[j]
  {
    if |walked| == 0 then []
    else
      var init := walked[..|walked| - 1];
      var rest := ArchivePositions(init, excludes, extensions);
      assert forall k :: 0 <= k < |init| ==> init[k] == walked[k];
      if IsArchiveOf(walked[|walked| - 1], excludes, extensions) then
        assert forall j :: 0 <= j < |rest| ==> rest[j] < |init|;
        rest + [|init|]
      else rest
  }

  /** The archive finder keeps walk order: it lists the walked files at
      the ascending positions of the files it keeps. */
  lemma {:induction false} FindArchiveFilesInWalkOrder(walked: seq<FileNode>, excludes: set<string>, extensions: seq<string>)
    ensures ListsAt(walked, Id, FindArchiveFiles(walked, excludes, extensions), ArchivePositions(walked, excludes, extensions))
  {
    if |walked| > 0 {
      var init := walked[..|walked| - 1];
      FindArchiveFilesInWalkOrder(init, excludes, extensions);
      PickStep(walked, Id, FindArchiveFiles(init, excludes, extensions), ArchivePositions(init, excludes, extensions), IsArchiveOf(walked[|walked| - 1], excludes, extensions));
    }
  }

  /** Both sides of the extension comparison are lower-cased: `A.JAR` is
      found by a search for `jar`. */
  lemma FindArchiveFilesIgnoresCase(f: FileNode)
    requires f.ext == Some("JAR") && f.path == "lib/A.JAR"
    ensures FindArchiveFiles([f], {}, ["jar"]) == [f]
  {
    assert ToLower("JAR") == ToLower("jar");
    assert IsArchiveOf(f, {}, ["jar"]);
    assert [f][..0] == [];
  }
}
