/** Line-by-line text search (`search_in_text_content`,
    `search_content_in_file`) and master mode's loose-file scan
    (`search_content_in_all_files`), which stops at the first read error and
    falls back to binary string extraction when no line has matched yet. */
module LineScan {
  import opened Wrappers
  import opened Model
  import opened Text
  import opened BinaryStrings

  /** A line that was read and that the pattern accepts. */
  predicate Hit(line: LineRead, pat: Pattern) {
    line.Line? && pat(line.text)
  }

  /** The result reported for the matching line at index `n`: 1-based line
      number and trimmed content. */
  function LineResult(location: string, matchType: string, n: nat, text: string): SearchResult {
    SearchResult(location, Some(n + 1), Trim(text), matchType)
  }

  /** `r` reports a matching line of `lines`, at `location`, typed
      `matchType`, with its 1-based number and its trimmed text. */
  ghost predicate IsLineHit(location: string, matchType: string, lines: seq<LineRead>, pat: Pattern, r: SearchResult) {
    && r.fileLocation == location
    && r.matchType == matchType
    && r.lineNumber.Some?
    && 1 <= r.lineNumber.value <= |lines|
    && Hit(lines[r.lineNumber.value - 1], pat)
    && r.lineContent == Trim(lines[r.lineNumber.value - 1].text)
  }

  /** The results for the lines from index `i` on; lines that failed to
      read are skipped but still counted in the numbering. */
  function ScanFrom(location: string, matchType: string, lines: seq<LineRead>, pat: Pattern, i: nat): seq<SearchResult>
    requires i <= |lines|
    decreases |lines| - i
  {
    if i == |lines| then []
    else
      (if Hit(lines[i], pat) then [LineResult(location, matchType, i, lines[i].text)] else [])
        + ScanFrom(location, matchType, lines, pat, i + 1)
  }

  /** The enumerate-and-match loop over a file's or entry's lines. */
  function Scan(location: string, matchType: string, lines: seq<LineRead>, pat: Pattern): seq<SearchResult> {
    ScanFrom(location, matchType, lines, pat, 0)
  }

  /** The head of the scan from `i` followed by the scan from `i + 1`. */
  lemma ScanFromUnfold(location: string, matchType: string, lines: seq<LineRead>, pat: Pattern, i: nat)
    requires i < |lines|
    ensures ScanFrom(location, matchType, lines, pat, i)
      == (if Hit(lines[i], pat) then [LineResult(location, matchType, i, lines[i].text)] else [])
        + ScanFrom(location, matchType, lines, pat, i + 1)
  {
  }

  /** The line number of a result, 0 when it has none. */
  function NumberOf(r: SearchResult): nat {
    r.lineNumber.GetOr(0)
  }

  /** Every result reports a matching line of `lines`. */
  ghost predicate AllLineHits(location: string, matchType: string, lines: seq<LineRead>, pat: Pattern, found: seq<SearchResult>) {
    forall k :: 0 <= k < |found| ==> IsLineHit(location, matchType, lines, pat, found[k])
  }

  /** Every result's line number exceeds `bound`. */
  predicate Above(found: seq<SearchResult>, bound: nat) {
    forall k :: 0 <= k < |found| ==> NumberOf(found[k]) > bound
  }

  /** Line numbers strictly increase along the results. */
  predicate Ascending(found: seq<SearchResult>) {
    forall k, m :: 0 <= k < m < |found| ==> NumberOf(found[k]) < NumberOf(found[m])
  }

  lemma {:induction false} ScanFromSound(location: string, matchType: string, lines: seq<LineRead>, pat: Pattern, i: nat)
    requires i <= |lines|
    ensures AllLineHits(location, matchType, lines, pat, ScanFrom(location, matchType, lines, pat, i))
    decreases |lines| - i
  {
    if i < |lines| {
      ScanFromSound(location, matchType, lines, pat, i + 1);
      ScanFromUnfold(location, matchType, lines, pat, i);
      var found := ScanFrom(location, matchType, lines, pat, i);
      var rest := ScanFrom(location, matchType, lines, pat, i + 1);
      if Hit(lines[i], pat) {
        forall k | 0 <= k < |found|
          ensures IsLineHit(location, matchType, lines, pat, found[k])
        {
          if k > 0 {
            assert found[k] == rest[k - 1];
          }
        }
      }
    }
  }

  lemma {:induction false} ScanFromAbove(location: string, matchType: string, lines: seq<LineRead>, pat: Pattern, i: nat)
    requires i <= |lines|
    ensures Above(ScanFrom(location, matchType, lines, pat, i), i)
    decreases |lines| - i
  {
    if i < |lines| {
      ScanFromAbove(location, matchType, lines, pat, i + 1);
      ScanFromUnfold(location, matchType, lines, pat, i);
    }
  }

  lemma {:induction false} ScanFromOrdered(location: string, matchType: string, lines: seq<LineRead>, pat: Pattern, i: nat)
    requires i <= |lines|
    ensures Ascending(ScanFrom(location, matchType, lines, pat, i))
    decreases |lines| - i
  {
    if i < |lines| {
      ScanFromOrdered(location, matchType, lines, pat, i + 1);
      ScanFromAbove(location, matchType, lines, pat, i + 1);
      ScanFromUnfold(location, matchType, lines, pat, i);
      var found := ScanFrom(location, matchType, lines, pat, i);
      var rest := ScanFrom(location, matchType, lines, pat, i + 1);
      if Hit(lines[i], pat) {
        forall k, m | 0 <= k < m < |found|
          ensures NumberOf(found[k]) < NumberOf(found[m])
        {
          assert found[m] == rest[m - 1];
          if k > 0 {
            assert found[k] == rest[k - 1];
          }
        }
      }
    }
  }

  /** A scan over lines none of which matches reports nothing. */
  lemma {:induction false} ScanFromNoHits(location: string, matchType: string, lines: seq<LineRead>, pat: Pattern, i: nat)
    requires i <= |lines|
    requires forall n :: i <= n < |lines| ==> !Hit(lines[n], pat)
    ensures ScanFrom(location, matchType, lines, pat, i) == []
    decreases |lines| - i
  {
    if i < |lines| {
      ScanFromNoHits(location, matchType, lines, pat, i + 1);
      ScanFromUnfold(location, matchType, lines, pat, i);
    }
  }

  lemma {:induction false} ScanFromComplete(location: string, matchType: string, lines: seq<LineRead>, pat: Pattern, i: nat, n: nat)
    requires i <= n < |lines| && Hit(lines[n], pat)
    ensures LineResult(location, matchType, n, lines[n].text) in ScanFrom(location, matchType, lines, pat, i)
    decreases n - i
  {
    ScanFromUnfold(location, matchType, lines, pat, i);
    if i < n {
      ScanFromComplete(location, matchType, lines, pat, i + 1, n);
    }
  }

  /** The text scan reports exactly the matching lines, each once, in
      ascending line order, each with its 1-based number and trimmed text. */
  lemma ScanReportsMatchingLines(location: string, matchType: string, lines: seq<LineRead>, pat: Pattern)
    ensures AllLineHits(location, matchType, lines, pat, Scan(location, matchType, lines, pat))
    ensures Ascending(Scan(location, matchType, lines, pat))
    ensures forall n :: 0 <= n < |lines| && Hit(lines[n], pat) ==>
      LineResult(location, matchType, n, lines[n].text) in Scan(location, matchType, lines, pat)
  {
    ScanFromSound(location, matchType, lines, pat, 0);
    ScanFromOrdered(location, matchType, lines, pat, 0);
    forall n | 0 <= n < |lines| && Hit(lines[n], pat)
      ensures LineResult(location, matchType, n, lines[n].text) in Scan(location, matchType, lines, pat)
    {
      ScanFromComplete(location, matchType, lines, pat, 0, n);
    }
  }

  /** Scanning one more line appends that line's result, if any. */
  lemma {:induction false} ScanFromSnoc(location: string, matchType: string, lines: seq<LineRead>, line: LineRead, pat: Pattern, i: nat)
    requires i <= |lines|
    ensures ScanFrom(location, matchType, lines + [line], pat, i)
      == ScanFrom(location, matchType, lines, pat, i)
        + (if Hit(line, pat) then [LineResult(location, matchType, |lines|, line.text)] else [])
    decreases |lines| - i
  {
    var longer := lines + [line];
    var last := if Hit(line, pat) then [LineResult(location, matchType, |lines|, line.text)] else [];
    if i < |lines| {
      ScanFromSnoc(location, matchType, lines, line, pat, i + 1);
      assert longer[i] == lines[i];
      ScanFromUnfold(location, matchType, longer, pat, i);
      ScanFromUnfold(location, matchType, lines, pat, i);
      var head := if Hit(lines[i], pat) then [LineResult(location, matchType, i, lines[i].text)] else [];
      assert ScanFrom(location, matchType, longer, pat, i) == head + ScanFrom(location, matchType, longer, pat, i + 1);
      assert ScanFrom(location, matchType, lines, pat, i) == head + ScanFrom(location, matchType, lines, pat, i + 1);
    } else {
      assert longer[i] == line;
      ScanFromUnfold(location, matchType, longer, pat, i);
      assert ScanFrom(location, matchType, longer, pat, i + 1) == [];
    }
  }

  /** The index of the first line that failed to read, or the number of
      lines when every line was read. */
  function FirstErrorFrom(lines: seq<LineRead>, i: nat): (e: nat)
    requires i <= |lines|
    ensures i <= e <= |lines|
    ensures forall k :: i <= k < e ==> lines[k].Line?
    ensures e < |lines| ==> lines[e].ReadError?
    decreases |lines| - i
  {
    if i == |lines| || lines[i].ReadError? then i else FirstErrorFrom(lines, i + 1)
  }

  function FirstError(lines: seq<LineRead>): nat {
    FirstErrorFrom(lines, 0)
  }

  /** A read error at `e`, preceded only by good lines, is the first one. */
  lemma {:induction false} FirstErrorAt(lines: seq<LineRead>, i: nat, e: nat)
    requires i <= e <= |lines|
    requires forall k :: i <= k < e ==> lines[k].Line?
    requires e == |lines| || lines[e].ReadError?
    ensures FirstErrorFrom(lines, i) == e
    decreases e - i
  {
    if i < e {
      FirstErrorAt(lines, i + 1, e);
    }
  }

  /** What master mode reports for a loose file: the matching lines before
      the first read error; and, when there is a read error and no line
      before it matched, instead the binary strings of the file's bytes,
      typed `<file type>_binary`. */
  function MasterFileScan(location: string, fileType: string, lines: seq<LineRead>, bytes: Option<seq<byte>>, pat: Pattern): seq<SearchResult> {
    var e := FirstError(lines);
    var text := Scan(location, fileType, lines[..e], pat);
    if e < |lines| && |text| == 0 then BinaryResults(location, fileType + "_binary", bytes, pat) else text
  }

  /** The loop of `search_content_in_all_files`: lines are matched until
      the first read error; at that error the binary search runs only if
      no line has matched yet, and the loop stops. */
  method ScanWithFallback(location: string, fileType: string, lines: seq<LineRead>, bytes: Option<seq<byte>>, pat: Pattern)
    returns (found: seq<SearchResult>)
    ensures found == MasterFileScan(location, fileType, lines, bytes, pat)
  {
    found := [];
    var foundTextMatch := false;
    var n := 0;
    while n < |lines|
      invariant 0 <= n <= |lines|
      invariant forall k :: 0 <= k < n ==> lines[k].Line?
      invariant found == Scan(location, fileType, lines[..n], pat)
      invariant foundTextMatch <==> |found| > 0
    {
      assert lines[..n + 1] == lines[..n] + [lines[n]];
      ScanFromSnoc(location, fileType, lines[..n], lines[n], pat, 0);
      match lines[n]
      case Line(text) =>
        if pat(text) {
          found := found + [LineResult(location, fileType, n, text)];
          foundTextMatch := true;
        }
        n := n + 1;
      case ReadError =>
        FirstErrorAt(lines, 0, n);
        if !foundTextMatch {
          found := BinaryResults(location, fileType + "_binary", bytes, pat);
        }
        return;
    }
    FirstErrorAt(lines, 0, n);
    assert lines[..n] == lines;
  }

  /** On a file that reads cleanly, master mode's scan is the plain line
      scan of `search_content_in_file`. */
  lemma MasterScanWithoutErrors(location: string, fileType: string, lines: seq<LineRead>, bytes: Option<seq<byte>>, pat: Pattern)
    requires forall k :: 0 <= k < |lines| ==> lines[k].Line?
    ensures MasterFileScan(location, fileType, lines, bytes, pat) == Scan(location, fileType, lines, pat)
  {
    FirstErrorAt(lines, 0, |lines|);
    assert lines[..|lines|] == lines;
  }

  /** The fallback runs at most once and only when needed: if a line before
      the first read error matches, the results are line matches from
      before that error; otherwise, when there is a read error, the results
      are exactly the file's binary strings. */
  lemma MasterScanFallback(location: string, fileType: string, lines: seq<LineRead>, bytes: Option<seq<byte>>, pat: Pattern)
    ensures var e := FirstError(lines);
      var found := MasterFileScan(location, fileType, lines, bytes, pat);
      && ((exists n :: 0 <= n < e && Hit(lines[n], pat)) ==>
            forall k :: 0 <= k < |found| ==>
              IsLineHit(location, fileType, lines, pat, found[k]) && found[k].lineNumber.value <= e)
      && (e < |lines| && (forall n :: 0 <= n < e ==> !Hit(lines[n], pat)) ==>
            found == BinaryResults(location, fileType + "_binary", bytes, pat))
  {
    var e := FirstError(lines);
    var prefix := lines[..e];
    var text := Scan(location, fileType, prefix, pat);
    ScanReportsMatchingLines(location, fileType, prefix, pat);
    if exists n :: 0 <= n < e && Hit(lines[n], pat) {
      var n :| 0 <= n < e && Hit(lines[n], pat);
      assert prefix[n] == lines[n];
      assert LineResult(location, fileType, n, lines[n].text) in text;
      forall k | 0 <= k < |text|
        ensures IsLineHit(location, fileType, lines, pat, text[k]) && text[k].lineNumber.value <= e
      {
        assert IsLineHit(location, fileType, prefix, pat, text[k]);
        assert prefix[text[k].lineNumber.value - 1] == lines[text[k].lineNumber.value - 1];
      }
    } else {
      forall n | 0 <= n < |prefix|
        ensures !Hit(prefix[n], pat)
      {
        assert prefix[n] == lines[n];
      }
      ScanFromNoHits(location, fileType, prefix, pat, 0);
    }
  }
}
