/** String operations the tool relies on, over `string` = `seq<char>`:
    prefix/suffix/substring tests, suffix stripping, single-character
    replacement, whitespace trimming, ASCII lower-casing and "the part after
    the last dot". Each is given by a contract that says what its result
    means rather than how it is computed. */
module Text {

  predicate StartsWith(s: string, prefix: string) {
    |prefix| <= |s| && s[..|prefix|] == prefix
  }

  predicate EndsWith(s: string, suffix: string) {
    |suffix| <= |s| && s[|s| - |suffix|..] == suffix
  }

  /** `needle` occurs in `s` starting at position `i`. */
  predicate OccursAt(s: string, needle: string, i: nat) {
    i + |needle| <= |s| && s[i..i + |needle|] == needle
  }

  /** Plain, case-sensitive substring containment (Rust's `str::contains`). */
  predicate Contains(s: string, needle: string) {
    exists i: nat | i <= |s| :: OccursAt(s, needle, i)
  }

  /** `s` with `suffix` removed when it ends with it, unchanged otherwise
      (`strip_suffix(..).unwrap_or(s)`). */
  function StripSuffix(s: string, suffix: string): (r: string)
    ensures EndsWith(s, suffix) ==> r + suffix == s
    ensures !EndsWith(s, suffix) ==> r == s
  {
    if EndsWith(s, suffix) then s[..|s| - |suffix|] else s
  }

  /** Every occurrence of the character `from` replaced by `to`. */
  function Replace(s: string, from: char, to: char): (r: string)
    ensures |r| == |s|
    ensures forall k :: 0 <= k < |s| ==> r[k] == (if s[k] == from then to else s[k])
  {
    if |s| == 0 then [] else Replace(s[..|s| - 1], from, to) + [if s[|s| - 1] == from then to else s[|s| - 1]]
  }

  /** Replacing `from` by `to` and then `to` back by `from` is the identity
      when `to` did not occur in the original. */
  lemma ReplaceRoundTrip(s: string, from: char, to: char)
    requires to !in s
    ensures Replace(Replace(s, from, to), to, from) == s
  {
    var once := Replace(s, from, to);
    var twice := Replace(once, to, from);
    forall k | 0 <= k < |s|
      ensures twice[k] == s[k]
    {
      assert s[k] != to;
    }
  }

  /** ASCII whitespace: tab, line feed, vertical tab, form feed, carriage
      return and space. */
  predicate IsSpace(c: char) {
    c == ' ' || ('\t' <= c <= '\r')
  }

  /** Neither the first nor the last character is whitespace. */
  predicate IsTrimmed(s: string) {
    |s| == 0 || (!IsSpace(s[0]) && !IsSpace(s[|s| - 1]))
  }

  /** The number of whitespace characters `s` starts with. */
  function LeadingSpaces(s: string): (n: nat)
    ensures n <= |s|
    ensures forall k :: 0 <= k < n ==> IsSpace(s[k])
    ensures n < |s| ==> !IsSpace(s[n])
  {
    if |s| > 0 && IsSpace(s[0]) then 1 + LeadingSpaces(s[1..]) else 0
  }

  /** The number of whitespace characters `s` ends with. */
  function TrailingSpaces(s: string): (n: nat)
    ensures n <= |s|
    ensures forall k :: |s| - n <= k < |s| ==> IsSpace(s[k])
    ensures n < |s| ==> !IsSpace(s[|s| - n - 1])
  {
    if |s| > 0 && IsSpace(s[|s| - 1]) then 1 + TrailingSpaces(s[..|s| - 1]) else 0
  }

  /** Leading and trailing whitespace removed (`str::trim`, restricted to
      ASCII whitespace): the result is the slice of `s` that starts after
      its leading whitespace, it has no whitespace at either end, and
      everything cut away behind it is whitespace. */
  function Trim(s: string): (r: string)
    ensures IsTrimmed(r)
    ensures LeadingSpaces(s) + |r| <= |s|
    ensures r == s[LeadingSpaces(s)..LeadingSpaces(s) + |r|]
    ensures forall k :: LeadingSpaces(s) + |r| <= k < |s| ==> IsSpace(s[k])
  {
    var n := LeadingSpaces(s);
    var t := s[n..];
    var m := TrailingSpaces(t);
    assert forall k :: n + |t| - m <= k < |s| ==> s[k] == t[k - n];
    assert t[..|t| - m] == s[n..n + (|t| - m)];
    t[..|t| - m]
  }

  /** Trimming twice is the same as trimming once. */
  lemma TrimIdempotent(s: string)
    ensures Trim(Trim(s)) == Trim(s)
  {
    var r := Trim(s);
    if |r| > 0 {
      assert LeadingSpaces(r) == 0;
      assert TrailingSpaces(r[0..]) == 0;
    }
  }

  function LowerChar(c: char): char {
    if 'A' <= c <= 'Z' then (c as int + 32) as char else c
  }

  /** ASCII lower-casing, character by character. */
  function ToLower(s: string): (r: string)
    ensures |r| == |s|
    ensures forall k :: 0 <= k < |s| ==> r[k] == LowerChar(s[k])
  {
    if |s| == 0 then [] else ToLower(s[..|s| - 1]) + [LowerChar(s[|s| - 1])]
  }

  /** The last of the pieces `s.split('.')` yields: the longest suffix of
      `s` without a dot. It is all of `s` when `s` has no dot, and otherwise
      it starts right after the last dot. */
  function AfterLastDot(s: string): (r: string)
    ensures |r| <= |s| && r == s[|s| - |r|..]
    ensures '.' !in r
    ensures |r| == |s| || s[|s| - |r| - 1] == '.'
  {
    if |s| == 0 then []
    else if s[|s| - 1] == '.' then []
    else
      var init := s[..|s| - 1];
      var r := AfterLastDot(init) + [s[|s| - 1]];
      assert init[|init| - (|r| - 1)..] + [s[|s| - 1]] == s[|s| - |r|..];
      r
  }

  /** A name without a dot is its own last component. */
  lemma {:induction false} AfterLastDotNoDot(s: string)
    requires '.' !in s
    ensures AfterLastDot(s) == s
  {
    if |s| > 0 {
      var init := s[..|s| - 1];
      NoDotInPrefix(s, |s| - 1);
      AfterLastDotNoDot(init);
      assert AfterLastDot(s) == AfterLastDot(init) + [s[|s| - 1]];
      assert init + [s[|s| - 1]] == s;
    }
  }

  /** A prefix of a dot-free string is dot-free. */
  lemma NoDotInPrefix(s: string, n: nat)
    requires '.' !in s && n <= |s|
    ensures '.' !in s[..n]
  {
    forall k | 0 <= k < n ensures s[..n][k] != '.' { assert s[..n][k] == s[k]; }
  }

  /** The last component starts right after the last dot. */
  lemma {:induction false} AfterLastDotAt(s: string, p: nat)
    requires p < |s| && s[p] == '.' && '.' !in s[p + 1..]
    ensures AfterLastDot(s) == s[p + 1..]
  {
    if p < |s| - 1 {
      var init := s[..|s| - 1];
      assert s[|s| - 1] == s[p + 1..][|s| - p - 2];
      assert init[p + 1..] + [s[|s| - 1]] == s[p + 1..];
      assert '.' !in init[p + 1..] by {
        forall k | p + 1 <= k < |init| ensures init[k] != '.' {
          assert init[k] == s[p + 1..][k - p - 1];
        }
      }
      AfterLastDotAt(init, p);
    }
  }
}
