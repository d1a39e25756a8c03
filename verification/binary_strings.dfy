/** The "strings"-style extractor that searches compiled class entries and,
    as a fallback, undecodable loose files: it collects maximal runs of
    printable ASCII bytes and reports each run of at least four characters
    that the pattern accepts.

    The reference definition `Extracted` takes the maximal runs of the
    buffer (`Runs`, characterised by `MaximalRun`) in buffer order and keeps
    the qualifying ones; `ExtractStrings` is the byte-at-a-time state
    machine of the source, proved to compute exactly that. */
module BinaryStrings {
  import opened Wrappers
  import opened Model

  /** A byte the extractor keeps in a run: an ASCII graphic character
      (0x21 to 0x7E), a space or a tab. */
  predicate Printable(b: byte) {
    (0x21 <= b <= 0x7E) || b == 0x20 || b == 0x09
  }

  /** The characters of a byte run, one `char` per byte (`byte as char`). */
  function AsText(bs: seq<byte>): (s: string)
    ensures |s| == |bs|
    ensures forall k :: 0 <= k < |bs| ==> s[k] == (bs[k] as int) as char
  {
    if |bs| == 0 then [] else AsText(bs[..|bs| - 1]) + [(bs[|bs| - 1] as int) as char]
  }

  /** The half-open byte range `[start, end)` of a run. */
  datatype Span = Span(start: nat, end: nat)

  /** A maximal run of printable bytes: non-empty, printable throughout,
      and not extendable on either side. */
  ghost predicate MaximalRun(buf: seq<byte>, s: Span) {
    && s.start < s.end <= |buf|
    && (forall k :: s.start <= k < s.end ==> Printable(buf[k]))
    && (s.start == 0 || !Printable(buf[s.start - 1]))
    && (s.end == |buf| || !Printable(buf[s.end]))
  }

  /** Position `i` is not strictly inside a run of printable bytes. */
  ghost predicate AtBoundary(buf: seq<byte>, i: nat)
    requires i <= |buf|
  {
    i == 0 || i == |buf| || !Printable(buf[i - 1]) || !Printable(buf[i])
  }

  /** Where the run of printable bytes starting at `i` ends. */
  function RunEnd(buf: seq<byte>, i: nat): (j: nat)
    requires i <= |buf|
    ensures i <= j <= |buf|
    ensures forall k :: i <= k < j ==> Printable(buf[k])
    ensures j == |buf| || !Printable(buf[j])
    decreases |buf| - i
  {
    if i == |buf| || !Printable(buf[i]) then i else RunEnd(buf, i + 1)
  }

  /** A run that ends at `i` is the run `RunEnd` finds from its start. */
  lemma {:induction false} RunEndAt(buf: seq<byte>, start: nat, i: nat)
    requires start <= i <= |buf|
    requires forall k :: start <= k < i ==> Printable(buf[k])
    requires i == |buf| || !Printable(buf[i])
    ensures RunEnd(buf, start) == i
    decreases i - start
  {
    if start < i {
      RunEndAt(buf, start + 1, i);
    }
  }

  /** The runs of printable bytes in `buf[i..]`, left to right. */
  function RunsFrom(buf: seq<byte>, i: nat): (spans: seq<Span>)
    requires i <= |buf|
    ensures forall k :: 0 <= k < |spans| ==> i <= spans[k].start < spans[k].end <= |buf|
    decreases |buf| - i
  {
    if i == |buf| then []
    else if !Printable(buf[i]) then RunsFrom(buf, i + 1)
    else
      var j := RunEnd(buf, i);
      [Span(i, j)] + RunsFrom(buf, j)
  }

  function Runs(buf: seq<byte>): seq<Span> {
    RunsFrom(buf, 0)
  }

  /** Every span is a maximal run. */
  ghost predicate AllMaximal(buf: seq<byte>, spans: seq<Span>) {
    forall k :: 0 <= k < |spans| ==> MaximalRun(buf, spans[k])
  }

  /** Each span ends strictly before the next one starts. */
  predicate Separated(spans: seq<Span>) {
    forall k :: 0 <= k < |spans| - 1 ==> spans[k].end < spans[k + 1].start
  }

  /** Putting a maximal run in front of later, separated maximal runs keeps
      the list sound. */
  lemma ConsRun(buf: seq<byte>, first: Span, rest: seq<Span>)
    requires MaximalRun(buf, first) && AllMaximal(buf, rest) && Separated(rest)
    requires |rest| > 0 ==> first.end < rest[0].start
    ensures AllMaximal(buf, [first] + rest) && Separated([first] + rest)
  {
    var spans := [first] + rest;
    forall k | 0 <= k < |spans|
      ensures MaximalRun(buf, spans[k])
    {
      if k > 0 {
        assert spans[k] == rest[k - 1];
      }
    }
    forall k | 0 <= k < |spans| - 1
      ensures spans[k].end < spans[k + 1].start
    {
      if k > 0 {
        assert spans[k] == rest[k - 1] && spans[k + 1] == rest[k];
      }
    }
  }

  lemma {:induction false} RunsFromSound(buf: seq<byte>, i: nat)
    requires i <= |buf| && AtBoundary(buf, i)
    ensures AllMaximal(buf, RunsFrom(buf, i))
    ensures Separated(RunsFrom(buf, i))
    decreases |buf| - i
  {
    if i == |buf| {
    } else if !Printable(buf[i]) {
      RunsFromSound(buf, i + 1);
    } else {
      var j := RunEnd(buf, i);
      RunsFromSound(buf, j);
      var rest := RunsFrom(buf, j);
      if |rest| > 0 {
        assert MaximalRun(buf, rest[0]);
        assert Printable(buf[j - 1]);
      }
      ConsRun(buf, Span(i, j), rest);
    }
  }

  /** Every maximal run starting at or after a boundary `i` is yielded by
      `RunsFrom(buf, i)`. */
  lemma {:induction false} RunsFromComplete(buf: seq<byte>, i: nat, s: Span)
    requires i <= |buf| && AtBoundary(buf, i)
    requires MaximalRun(buf, s) && i <= s.start
    ensures s in RunsFrom(buf, i)
    decreases |buf| - i
  {
    if i == |buf| {
      assert false;
    } else if !Printable(buf[i]) {
      assert s.start != i;
      RunsFromComplete(buf, i + 1, s);
    } else {
      var j := RunEnd(buf, i);
      if s.start == i {
        RunEndAt(buf, i, s.end);
        assert RunsFrom(buf, i)[0] == s;
      } else {
        assert Printable(buf[s.start - 1]) ==> s.start >= j;
        RunsFromComplete(buf, j, s);
        assert RunsFrom(buf, i) == [Span(i, j)] + RunsFrom(buf, j);
      }
    }
  }

  /** `Runs` lists exactly the maximal runs of the buffer, in buffer order,
      each once. */
  lemma RunsAreExactlyMaximalRuns(buf: seq<byte>)
    ensures AllMaximal(buf, Runs(buf))
    ensures Separated(Runs(buf))
    ensures forall s :: MaximalRun(buf, s) ==> s in Runs(buf)
  {
    RunsFromSound(buf, 0);
    forall s | MaximalRun(buf, s)
      ensures s in Runs(buf)
    {
      RunsFromComplete(buf, 0, s);
    }
  }

  /** A run is reported when it has at least four characters and the
      pattern accepts it. */
  predicate Qualifies(s: string, pat: Pattern) {
    |s| >= 4 && pat(s)
  }

  ghost predicate SpansWithin(buf: seq<byte>, spans: seq<Span>) {
    forall k :: 0 <= k < |spans| ==> spans[k].start <= spans[k].end <= |buf|
  }

  /** The texts of the qualifying spans, in order. */
  function Select(buf: seq<byte>, spans: seq<Span>, pat: Pattern): seq<string>
    requires SpansWithin(buf, spans)
  {
    if |spans| == 0 then []
    else
      var text := AsText(buf[spans[0].start..spans[0].end]);
      (if Qualifies(text, pat) then [text] else []) + Select(buf, spans[1..], pat)
  }

  /** `Select` keeps exactly the qualifying texts of the spans. */
  lemma {:induction false} SelectMembers(buf: seq<byte>, spans: seq<Span>, pat: Pattern)
    requires SpansWithin(buf, spans)
    ensures forall x :: x in Select(buf, spans, pat) ==> Qualifies(x, pat)
    ensures forall k :: 0 <= k < |spans| && Qualifies(AsText(buf[spans[k].start..spans[k].end]), pat) ==>
      AsText(buf[spans[k].start..spans[k].end]) in Select(buf, spans, pat)
    ensures forall x :: x in Select(buf, spans, pat) ==>
      exists k :: 0 <= k < |spans| && x == AsText(buf[spans[k].start..spans[k].end])
  {
    if |spans| > 0 {
      SelectMembers(buf, spans[1..], pat);
      assert forall k :: 1 <= k < |spans| ==> spans[k] == spans[1..][k - 1];
    }
  }

  /** The reported strings of `buf[i..]`, run by run: bytes that are not
      printable are skipped, and each run is reported when it qualifies. */
  function StringsFrom(buf: seq<byte>, i: nat, pat: Pattern): seq<string>
    requires i <= |buf|
    decreases |buf| - i
  {
    if i == |buf| then []
    else if !Printable(buf[i]) then StringsFrom(buf, i + 1, pat)
    else
      var j := RunEnd(buf, i);
      var text := AsText(buf[i..j]);
      (if Qualifies(text, pat) then [text] else []) + StringsFrom(buf, j, pat)
  }

  /** The strings the extractor reports for `buf`. */
  function Extracted(buf: seq<byte>, pat: Pattern): seq<string> {
    StringsFrom(buf, 0, pat)
  }

  /** Reporting run by run is selecting the qualifying texts of `RunsFrom`. */
  lemma {:induction false} StringsFromSelectsRuns(buf: seq<byte>, i: nat, pat: Pattern)
    requires i <= |buf|
    ensures StringsFrom(buf, i, pat) == Select(buf, RunsFrom(buf, i), pat)
    decreases |buf| - i
  {
    if i == |buf| {
    } else if !Printable(buf[i]) {
      StringsFromSelectsRuns(buf, i + 1, pat);
    } else {
      var j := RunEnd(buf, i);
      StringsFromSelectsRuns(buf, j, pat);
      var spans := RunsFrom(buf, i);
      assert spans[1..] == RunsFrom(buf, j);
    }
  }

  /** The reported strings are the qualifying maximal runs in buffer order. */
  lemma ExtractedSelectsRuns(buf: seq<byte>, pat: Pattern)
    ensures Extracted(buf, pat) == Select(buf, Runs(buf), pat)
  {
    StringsFromSelectsRuns(buf, 0, pat);
  }

  /** What is reported is exactly the qualifying maximal runs: every
      reported string is the text of a maximal run of at least four
      characters that the pattern accepts, and every such run is reported. */
  lemma ExtractedAreQualifyingRuns(buf: seq<byte>, pat: Pattern)
    ensures forall x :: x in Extracted(buf, pat) ==>
      Qualifies(x, pat) && exists s :: MaximalRun(buf, s) && x == AsText(buf[s.start..s.end])
    ensures forall s :: MaximalRun(buf, s) && Qualifies(AsText(buf[s.start..s.end]), pat) ==>
      AsText(buf[s.start..s.end]) in Extracted(buf, pat)
  {
    var runs := Runs(buf);
    RunsAreExactlyMaximalRuns(buf);
    SelectMembers(buf, runs, pat);
    ExtractedSelectsRuns(buf, pat);
    forall x | x in Extracted(buf, pat)
      ensures exists s :: MaximalRun(buf, s) && x == AsText(buf[s.start..s.end])
    {
      var k :| 0 <= k < |runs| && x == AsText(buf[runs[k].start..runs[k].end]);
      assert MaximalRun(buf, runs[k]);
    }
    forall s | MaximalRun(buf, s) && Qualifies(AsText(buf[s.start..s.end]), pat)
      ensures AsText(buf[s.start..s.end]) in Extracted(buf, pat)
    {
      var k :| 0 <= k < |runs| && runs[k] == s;
    }
  }

  /** A four-letter run between control bytes is reported; a three-letter
      run, one short of the minimum, is not. */
  lemma ExtractedExamples(pat: Pattern)
    requires pat("ABCD")
    ensures Extracted([0x00, 0x41, 0x42, 0x43, 0x44, 0x01], pat) == ["ABCD"]
    ensures Extracted([0x00, 0x41, 0x42, 0x43, 0x01], pat) == []
  {
    var b1: seq<byte> := [0x00, 0x41, 0x42, 0x43, 0x44, 0x01];
    assert RunEnd(b1, 1) == 5 by { RunEndAt(b1, 1, 5); }
    assert Runs(b1) == [Span(1, 5)];
    assert AsText(b1[1..5]) == "ABCD";
    var b2: seq<byte> := [0x00, 0x41, 0x42, 0x43, 0x01];
    assert RunEnd(b2, 1) == 4 by { RunEndAt(b2, 1, 4); }
    assert Runs(b2) == [Span(1, 4)];
  }

  /** Appending the next byte's character to the text of a run. */
  lemma ExtendRun(buf: seq<byte>, start: nat, i: nat, current: string)
    requires start <= i < |buf|
    requires current == AsText(buf[start..i])
    ensures current + [(buf[i] as int) as char] == AsText(buf[start..i + 1])
  {
    assert buf[start..i + 1][..i - start] == buf[start..i];
  }

  /** Closing the run `buf[start..i]` at the non-printable byte `i`. */
  lemma CloseRun(buf: seq<byte>, start: nat, i: nat, pat: Pattern)
    requires start <= i < |buf|
    requires i <= RunEnd(buf, start)
    requires !Printable(buf[i])
    ensures var text := AsText(buf[start..i]);
      StringsFrom(buf, start, pat)
        == (if Qualifies(text, pat) then [text] else []) + StringsFrom(buf, i + 1, pat)
  {
    if start < i {
      assert RunEnd(buf, start) == i;
    }
  }

  /** Closing the run `buf[start..]` at the end of the buffer. */
  lemma FinishRun(buf: seq<byte>, start: nat, pat: Pattern)
    requires start <= |buf|
    requires RunEnd(buf, start) == |buf|
    ensures var text := AsText(buf[start..]);
      StringsFrom(buf, start, pat) == (if Qualifies(text, pat) then [text] else [])
  {
    if start < |buf| {
      assert buf[start..|buf|] == buf[start..];
    }
  }

  lemma ConcatAssoc<T>(a: seq<T>, b: seq<T>, c: seq<T>)
    ensures (a + b) + c == a + (b + c)
  {
  }

  /** The scanner's state after the bytes before `i`: the strings found
      so far, and the open run `buf[start..i]` whose characters are in
      `current`. Whatever the rest of the buffer yields, appended to
      `found`, is the full extraction. */
  ghost predicate ScanState(buf: seq<byte>, pat: Pattern, i: nat, start: nat, current: string, inString: bool, found: seq<string>) {
    && start <= i <= |buf|
    && (inString <==> |current| > 0)
    && current == AsText(buf[start..i])
    && i <= RunEnd(buf, start)
    && found + StringsFrom(buf, start, pat) == Extracted(buf, pat)
  }

  /** One iteration of the extraction loop, on the byte at `i`. */
  method ScanByte(buf: seq<byte>, pat: Pattern, i: nat, ghost start: nat, current: string, inString: bool, found: seq<string>)
    returns (ghost start': nat, current': string, inString': bool, found': seq<string>)
    requires i < |buf|
    requires ScanState(buf, pat, i, start, current, inString, found)
    ensures ScanState(buf, pat, i + 1, start', current', inString', found')
  {
    var b := buf[i];
    if Printable(b) {
      ExtendRun(buf, start, i, current);
      start', current', inString', found' := start, current + [(b as int) as char], true, found;
    } else {
      CloseRun(buf, start, i, pat);
      found' := found;
      if inString && |current| >= 4 {
        if pat(current) {
          found' := found + [current];
        }
      }
      ghost var emitted := if Qualifies(current, pat) then [current] else [];
      assert found' == found + emitted;
      ConcatAssoc(found, emitted, StringsFrom(buf, i + 1, pat));
      start', current', inString' := i + 1, [], false;
    }
  }

  /** The extraction loop of `search_in_binary_content` and
      `search_binary_file`: bytes are appended to the current string while
      printable; a non-printable byte closes the current string, which is
      reported when it qualifies; a string still open at the end of the
      buffer is treated the same way. */
  method ExtractStrings(buf: seq<byte>, pat: Pattern) returns (found: seq<string>)
    ensures found == Extracted(buf, pat)
  {
    found := [];
    var current: string := [];
    var inString := false;
    var i: nat := 0;
    ghost var start: nat := 0;
    while i < |buf|
      invariant ScanState(buf, pat, i, start, current, inString, found)
    {
      start, current, inString, found := ScanByte(buf, pat, i, start, current, inString, found);
      i := i + 1;
    }
    FinishRun(buf, start, pat);
    assert buf[start..i] == buf[start..];
    if inString && |current| >= 4 && pat(current) {
      found := found + [current];
    }
  }

  /** The results reported for one buffer: one per extracted string, at
      `location`, without a line number, typed `matchType`. Nothing is
      reported when the bytes could not be read. */
  function BinaryResults(location: string, matchType: string, bytes: Option<seq<byte>>, pat: Pattern): (found: seq<SearchResult>)
    ensures bytes.None? ==> found == []
    ensures bytes.Some? ==> |found| == |Extracted(bytes.value, pat)|
    ensures forall k :: 0 <= k < |found| ==>
      found[k] == SearchResult(location, None, Extracted(bytes.value, pat)[k], matchType)
  {
    match bytes
    case None => []
    case Some(buf) =>
      var strings := Extracted(buf, pat);
      seq(|strings|, k requires 0 <= k < |strings| => SearchResult(location, None, strings[k], matchType))
  }
}
