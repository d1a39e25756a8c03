/** Result aggregation (`add_result`). Every reported match increments
    `matches_found`. In normal mode the result is appended as it is; in mini
    mode only the first result of each location is kept, reduced to the
    location, no line number, the content `Found matches` and its match
    type. The tool's locks only serialise these updates, so a run is the
    sequential fold of `AddResult` over the matches in the order they are
    reported. */
module Aggregate {
  import opened Wrappers
  import opened Model

  /** The reduced form mini mode stores. */
  function MiniForm(r: SearchResult): SearchResult {
    SearchResult(r.fileLocation, None, "Found matches", r.matchType)
  }

  /** One `add_result` call. */
  function AddResult(t: Tool, r: SearchResult): (t': Tool)
    ensures t'.config == t.config
    ensures t'.stats == t.stats.(matchesFound := t.stats.matchesFound + 1)
    ensures !t.config.miniMode ==> t'.results == t.results + [r] && t'.uniqueFiles == t.uniqueFiles
    ensures t.config.miniMode && r.fileLocation !in t.uniqueFiles ==>
      t'.results == t.results + [MiniForm(r)] && t'.uniqueFiles == t.uniqueFiles + {r.fileLocation}
    ensures t.config.miniMode && r.fileLocation in t.uniqueFiles ==>
      t'.results == t.results && t'.uniqueFiles == t.uniqueFiles
  {
    var stats := t.stats.(matchesFound := t.stats.matchesFound + 1);
    if !t.config.miniMode then t.(results := t.results + [r], stats := stats)
    else if r.fileLocation in t.uniqueFiles then t.(stats := stats)
    else t.(results := t.results + [MiniForm(r)], uniqueFiles := t.uniqueFiles + {r.fileLocation}, stats := stats)
  }

  /** `add_result` applied to each of `rs` in order. */
  function AddAll(t: Tool, rs: seq<SearchResult>): Tool {
    if |rs| == 0 then t else AddResult(AddAll(t, rs[..|rs| - 1]), rs[|rs| - 1])
  }

  /** The locations of a list of results. */
  function Locations(rs: seq<SearchResult>): (locs: set<string>)
    ensures |locs| <= |rs|
    ensures forall k :: 0 <= k < |rs| ==> rs[k].fileLocation in locs
  {
    if |rs| == 0 then {}
    else
      var init := rs[..|rs| - 1];
      var locs := Locations(init);
      assert forall k :: 0 <= k < |init| ==> rs[k] == init[k];
      locs + {rs[|rs| - 1].fileLocation}
  }

  /** Every location collected is the location of one of the results. */
  lemma {:induction false} LocationsWitness(rs: seq<SearchResult>, l: string)
    requires l in Locations(rs)
    ensures exists k :: 0 <= k < |rs| && rs[k].fileLocation == l
  {
    var init := rs[..|rs| - 1];
    if l in Locations(init) {
      LocationsWitness(init, l);
      var k :| 0 <= k < |init| && init[k].fileLocation == l;
      assert rs[k] == init[k];
    }
  }

  /** The fold leaves the configuration alone and counts every match;
      statistics other than `matches_found` are untouched. */
  lemma {:induction false} AddAllCounts(t: Tool, rs: seq<SearchResult>)
    ensures AddAll(t, rs).config == t.config
    ensures AddAll(t, rs).stats == t.stats.(matchesFound := t.stats.matchesFound + |rs|)
  {
    if |rs| > 0 {
      AddAllCounts(t, rs[..|rs| - 1]);
    }
  }

  /** Two tools that agree on everything `add_result` reads or writes
      except the statistics. */
  predicate SameStore(a: Tool, b: Tool) {
    a.config == b.config && a.results == b.results && a.uniqueFiles == b.uniqueFiles
  }

  /** The stored results and seen locations of the fold do not depend on
      the statistics it starts from. */
  lemma {:induction false} AddAllIgnoresStats(a: Tool, b: Tool, rs: seq<SearchResult>)
    requires SameStore(a, b)
    ensures SameStore(AddAll(a, rs), AddAll(b, rs))
  {
    if |rs| > 0 {
      AddAllIgnoresStats(a, b, rs[..|rs| - 1]);
    }
  }

  /** Folding two lists one after the other is folding their
      concatenation. */
  lemma {:induction false} AddAllAppend(t: Tool, a: seq<SearchResult>, b: seq<SearchResult>)
    ensures AddAll(t, a + b) == AddAll(AddAll(t, a), b)
  {
    if |b| == 0 {
      assert a + b == a;
    } else {
      var init := b[..|b| - 1];
      AddAllAppend(t, a, init);
      assert (a + b)[..|a + b| - 1] == a + init;
      assert (a + b)[|a + b| - 1] == b[|b| - 1];
    }
  }

  /** In normal mode every match is kept unchanged and in order. */
  lemma {:induction false} NormalModeKeepsAll(t: Tool, rs: seq<SearchResult>)
    requires !t.config.miniMode
    ensures AddAll(t, rs).results == t.results + rs
  {
    if |rs| > 0 {
      var init := rs[..|rs| - 1];
      NormalModeKeepsAll(t, init);
      AddAllCounts(t, init);
      assert init + [rs[|rs| - 1]] == rs;
    }
  }

  /** The locations of the stored results. */
  function ResultLocations(results: seq<SearchResult>): set<string> {
    if |results| == 0 then {} else ResultLocations(results[..|results| - 1]) + {results[|results| - 1].fileLocation}
  }

  /** No two stored results share a location. */
  predicate DistinctLocations(results: seq<SearchResult>) {
    forall j, k :: 0 <= j < k < |results| ==> results[j].fileLocation != results[k].fileLocation
  }

  /** Every stored result is in reduced form. */
  predicate AllMini(results: seq<SearchResult>) {
    forall k :: 0 <= k < |results| ==> results[k].lineNumber.None? && results[k].lineContent == "Found matches"
  }

  /** The consistency of a mini-mode tool: reduced results, one per
      location, and the seen-set is exactly their locations. */
  predicate MiniInv(t: Tool) {
    && AllMini(t.results)
    && DistinctLocations(t.results)
    && ResultLocations(t.results) == t.uniqueFiles
    && |t.results| == |t.uniqueFiles|
  }

  lemma ResultLocationsSnoc(results: seq<SearchResult>, r: SearchResult)
    ensures ResultLocations(results + [r]) == ResultLocations(results) + {r.fileLocation}
  {
    assert (results + [r])[..|results|] == results;
  }

  /** The locations of the results are exactly the ones some result has. */
  lemma {:induction false} ResultLocationsMembers(results: seq<SearchResult>)
    ensures forall l :: l in ResultLocations(results) <==> exists k :: 0 <= k < |results| && results[k].fileLocation == l
  {
    if |results| > 0 {
      var init := results[..|results| - 1];
      ResultLocationsMembers(init);
      forall l | l in ResultLocations(results)
        ensures exists k :: 0 <= k < |results| && results[k].fileLocation == l
      {
        if l in ResultLocations(init) {
          var k :| 0 <= k < |init| && init[k].fileLocation == l;
          assert results[k] == init[k];
        } else {
          assert results[|results| - 1].fileLocation == l;
        }
      }
      forall l | exists k :: 0 <= k < |results| && results[k].fileLocation == l
        ensures l in ResultLocations(results)
      {
        var k :| 0 <= k < |results| && results[k].fileLocation == l;
        if k < |init| {
          assert init[k] == results[k];
        }
      }
    }
  }

  /** A result at a new location keeps the locations distinct. */
  lemma DistinctSnoc(results: seq<SearchResult>, r: SearchResult)
    requires DistinctLocations(results) && r.fileLocation !in ResultLocations(results)
    ensures DistinctLocations(results + [r])
  {
    ResultLocationsMembers(results);
    var after := results + [r];
    forall j, k | 0 <= j < k < |after|
      ensures after[j].fileLocation != after[k].fileLocation
    {
      assert after[j] == results[j];
      if k < |results| {
        assert after[k] == results[k];
      }
    }
  }

  /** `add_result` keeps a mini-mode tool consistent. */
  lemma AddResultKeepsMiniInv(t: Tool, r: SearchResult)
    requires t.config.miniMode && MiniInv(t)
    ensures MiniInv(AddResult(t, r))
  {
    if r.fileLocation !in t.uniqueFiles {
      ResultLocationsSnoc(t.results, MiniForm(r));
      DistinctSnoc(t.results, MiniForm(r));
      assert AllMini(t.results + [MiniForm(r)]);
    }
  }

  /** In mini mode the seen-set grows by exactly the locations folded in. */
  lemma {:induction false} AddAllSeen(t: Tool, rs: seq<SearchResult>)
    requires t.config.miniMode
    ensures AddAll(t, rs).uniqueFiles == t.uniqueFiles + Locations(rs)
  {
    if |rs| > 0 {
      AddAllSeen(t, rs[..|rs| - 1]);
      AddAllCounts(t, rs[..|rs| - 1]);
    }
  }

  /** Folding keeps a mini-mode tool consistent and adds exactly the new
      locations to the seen-set. */
  lemma {:induction false} AddAllKeepsMiniInv(t: Tool, rs: seq<SearchResult>)
    requires t.config.miniMode && MiniInv(t)
    ensures MiniInv(AddAll(t, rs))
    ensures AddAll(t, rs).uniqueFiles == t.uniqueFiles + Locations(rs)
  {
    if |rs| > 0 {
      var init := rs[..|rs| - 1];
      AddAllKeepsMiniInv(t, init);
      AddAllCounts(t, init);
      AddResultKeepsMiniInv(AddAll(t, init), rs[|rs| - 1]);
    }
  }

  /** The counting law of mini mode, from a fresh tool: one result per
      distinct location, however many matches there were, and never more
      results than matches. */
  lemma MiniModeCounts(config: Config, rs: seq<SearchResult>)
    requires config.miniMode
    ensures var t := AddAll(NewTool(config), rs);
      && t.stats.matchesFound == |rs|
      && t.uniqueFiles == Locations(rs)
      && ResultLocations(t.results) == Locations(rs)
      && |t.results| == |Locations(rs)| <= t.stats.matchesFound
      && DistinctLocations(t.results)
      && AllMini(t.results)
  {
    AddAllKeepsMiniInv(NewTool(config), rs);
    AddAllCounts(NewTool(config), rs);
  }

  /** A result at `r`'s location whose match type comes from the first
      match at that location among `rs`. */
  ghost predicate FirstSeen(rs: seq<SearchResult>, r: SearchResult) {
    exists j :: 0 <= j < |rs| && rs[j].fileLocation == r.fileLocation && rs[j].matchType == r.matchType
      && rs[j].fileLocation !in Locations(rs[..j])
  }

  lemma FirstSeenSnoc(rs: seq<SearchResult>, x: SearchResult, r: SearchResult)
    requires FirstSeen(rs, r)
    ensures FirstSeen(rs + [x], r)
  {
    var j :| 0 <= j < |rs| && rs[j].fileLocation == r.fileLocation && rs[j].matchType == r.matchType
      && rs[j].fileLocation !in Locations(rs[..j]);
    assert (rs + [x])[..j] == rs[..j];
    assert (rs + [x])[j] == rs[j];
  }

  ghost predicate AllFirstSeen(rs: seq<SearchResult>, results: seq<SearchResult>) {
    forall k :: 0 <= k < |results| ==> FirstSeen(rs, results[k])
  }

  lemma KeepsFirstStep(before: Tool, init: seq<SearchResult>, x: SearchResult)
    requires before.config.miniMode && before.uniqueFiles == Locations(init)
    requires AllFirstSeen(init, before.results)
    ensures AllFirstSeen(init + [x], AddResult(before, x).results)
  {
    var after := AddResult(before, x);
    var rs := init + [x];
    forall k | 0 <= k < |after.results|
      ensures FirstSeen(rs, after.results[k])
    {
      if k < |before.results| {
        assert after.results[k] == before.results[k];
        FirstSeenSnoc(init, x, before.results[k]);
      } else {
        assert rs[..|init|] == init && rs[|init|] == x;
        assert after.results[k] == MiniForm(x);
      }
    }
  }

  /** One more match keeps the first-seen property of a fresh tool's
      fold. */
  lemma KeepsFirstSnoc(config: Config, init: seq<SearchResult>, x: SearchResult)
    requires config.miniMode
    requires AllFirstSeen(init, AddAll(NewTool(config), init).results)
    ensures AllFirstSeen(init + [x], AddAll(NewTool(config), init + [x]).results)
  {
    var before := AddAll(NewTool(config), init);
    AddAllSeen(NewTool(config), init);
    AddAllCounts(NewTool(config), init);
    KeepsFirstStep(before, init, x);
    assert (init + [x])[..|init|] == init;
  }

  /** In mini mode, from a fresh tool, every stored result stands for the
      first match at its location and carries that match's type. */
  lemma {:induction false} MiniModeKeepsFirst(config: Config, rs: seq<SearchResult>)
    requires config.miniMode
    ensures AllFirstSeen(rs, AddAll(NewTool(config), rs).results)
  {
    if |rs| > 0 {
      var init := rs[..|rs| - 1];
      MiniModeKeepsFirst(config, init);
      KeepsFirstSnoc(config, init, rs[|rs| - 1]);
      assert init + [rs[|rs| - 1]] == rs;
    }
  }
}
