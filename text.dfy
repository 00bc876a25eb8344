/**
 * The Python string primitives the modelled code relies on: `str.upper`,
 * the `in` substring test, `str.find`, `str.count` of one character,
 * `str.endswith`, `str.strip` and `"".join`.
 */
module Text {

  /** `c.upper()` on the ASCII range: `a`..`z` become `A`..`Z`, everything else is kept. */
  function UpperChar(c: char): char {
    if 'a' <= c <= 'z' then (c as int - 'a' as int + 'A' as int) as char else c
  }

  /** `s.upper()`, character by character. */
  function Upper(s: string): (r: string)
    ensures |r| == |s|
  {
    if s == [] then [] else [UpperChar(s[0])] + Upper(s[1..])
  }

  /** Upper-casing works on each character by itself. */
  lemma {:induction false} UpperIsPointwise(s: string)
    ensures forall i :: 0 <= i < |s| ==> Upper(s)[i] == UpperChar(s[i])
  {
    if s != [] {
      UpperIsPointwise(s[1..]);
      forall i | 0 < i < |s|
        ensures Upper(s)[i] == UpperChar(s[i])
      {
        assert Upper(s)[i] == Upper(s[1..])[i - 1];
      }
    }
  }

  /** `pat` occurs in `s` starting at index `i`. */
  predicate OccursAt(s: string, pat: string, i: int) {
    0 <= i && i + |pat| <= |s| && s[i..i + |pat|] == pat
  }

  /** Python's `pat in s` for strings. */
  predicate Contains(s: string, pat: string) {
    exists i :: 0 <= i <= |s| - |pat| && OccursAt(s, pat, i)
  }

  /** `s.find(pat, k)`: the least occurrence at or after `k`, or -1. */
  function FindFrom(s: string, pat: string, k: nat): (r: int)
    decreases |s| - k
    ensures r == -1 || (k <= r && OccursAt(s, pat, r))
    ensures r == -1 <==> forall j :: k <= j ==> !OccursAt(s, pat, j)
    ensures r != -1 ==> forall j :: k <= j < r ==> !OccursAt(s, pat, j)
  {
    if k + |pat| > |s| then -1
    else if s[k..k + |pat|] == pat then k
    else FindFrom(s, pat, k + 1)
  }

  /** `s.find(pat)`: the index of the first occurrence of `pat` in `s`, or -1. */
  function Find(s: string, pat: string): (r: int)
    ensures r == -1 <==> !Contains(s, pat)
    ensures r != -1 ==> OccursAt(s, pat, r) && forall j :: 0 <= j < r ==> !OccursAt(s, pat, j)
  {
    FindFrom(s, pat, 0)
  }

  /** `s.count(c)` for a one-character `c`: the number of positions holding `c`. */
  function Count(s: string, c: char): nat {
    if s == [] then 0 else (if s[0] == c then 1 else 0) + Count(s[1..], c)
  }

  /** Two distinct characters together occur at most `|s|` times. */
  lemma {:induction false} CountPairBound(s: string, c: char, d: char)
    requires c != d
    ensures Count(s, c) + Count(s, d) <= |s|
  {
    if s != [] {
      CountPairBound(s[1..], c, d);
    }
  }

  /** `s.endswith(suffix)`. */
  predicate EndsWith(s: string, suffix: string) {
    |suffix| <= |s| && s[|s| - |suffix|..] == suffix
  }

  /** The characters `str.isspace` accepts below code point 128: space, tab to carriage return, and 0x1C to 0x1F. */
  predicate IsWhitespace(c: char) {
    c == ' ' || '\t' <= c <= '\r' || '\U{1C}' <= c <= '\U{1F}'
  }

  /** Every character of `s` from index `lo` up to `hi` is whitespace. */
  predicate WhitespaceBetween(s: string, lo: int, hi: int) {
    forall i :: lo <= i < hi && 0 <= i < |s| ==> IsWhitespace(s[i])
  }

  /** Every character of `s` is whitespace. */
  predicate AllWhitespace(s: string) {
    WhitespaceBetween(s, 0, |s|)
  }

  /** `s.lstrip()`. */
  function StripLeading(s: string): (r: string)
    ensures |r| <= |s| && r == s[|s| - |r|..]
    ensures WhitespaceBetween(s, 0, |s| - |r|)
    ensures r == [] || !IsWhitespace(r[0])
  {
    if s != [] && IsWhitespace(s[0]) then StripLeading(s[1..]) else s
  }

  /** `s.rstrip()`. */
  function StripTrailing(s: string): (r: string)
    ensures |r| <= |s| && r == s[..|r|]
    ensures WhitespaceBetween(s, |r|, |s|)
    ensures r == [] || !IsWhitespace(r[|r| - 1])
  {
    if s != [] && IsWhitespace(s[|s| - 1]) then StripTrailing(s[..|s| - 1]) else s
  }

  /**
   * `s.strip()`: the result is a contiguous piece of `s`, everything cut off on
   * either side is whitespace, and the result neither starts nor ends with whitespace.
   */
  function Strip(s: string): (r: string)
    ensures exists a :: OccursAt(s, r, a) && WhitespaceBetween(s, 0, a) && WhitespaceBetween(s, a + |r|, |s|)
    ensures r == [] || (!IsWhitespace(r[0]) && !IsWhitespace(r[|r| - 1]))
  {
    var t := StripLeading(s);
    var r := StripTrailing(t);
    StripCutsWhitespaceOnly(s);
    var a := |s| - |t|;
    assert OccursAt(s, r, a) && WhitespaceBetween(s, 0, a) && WhitespaceBetween(s, a + |r|, |s|);
    r
  }

  lemma StripCutsWhitespaceOnly(s: string)
    ensures var t := StripLeading(s);
      var r := StripTrailing(t);
      var a := |s| - |t|;
      OccursAt(s, r, a) && WhitespaceBetween(s, 0, a) && WhitespaceBetween(s, a + |r|, |s|)
  {
    var t := StripLeading(s);
    PrefixOfSuffix(s, t, StripTrailing(t));
  }

  /** A prefix `r` of a suffix `t` of `s` occurs in `s` where `t` starts, and what follows `r` in `t` follows it in `s`. */
  lemma PrefixOfSuffix(s: string, t: string, r: string)
    requires |t| <= |s| && t == s[|s| - |t|..]
    requires |r| <= |t| && r == t[..|r|]
    requires WhitespaceBetween(t, |r|, |t|)
    ensures OccursAt(s, r, |s| - |t|)
    ensures WhitespaceBetween(s, |s| - |t| + |r|, |s|)
  {
    var a := |s| - |t|;
    assert s[a..a + |r|] == s[a..][..|r|];
    forall i | a + |r| <= i < |s|
      ensures IsWhitespace(s[i])
    {
      assert s[i] == t[i - a];
    }
  }

  /** A line with no whitespace in it, followed only by whitespace, strips back to itself. */
  lemma StripOfCleanLine(body: string, tail: string)
    requires forall i :: 0 <= i < |body| ==> !IsWhitespace(body[i])
    requires AllWhitespace(tail)
    ensures Strip(body + tail) == body
  {
    if body == [] {
      assert body + tail == tail;
      StripLeadingOfWhitespace(tail);
    } else {
      assert StripLeading(body + tail) == body + tail;
      StripTrailingOfPaddedLine(body, tail);
    }
  }

  lemma {:induction false} StripLeadingOfWhitespace(s: string)
    requires AllWhitespace(s)
    ensures StripLeading(s) == []
  {
    if s != [] {
      StripLeadingOfWhitespace(s[1..]);
    }
  }

  lemma {:induction false} StripTrailingOfPaddedLine(body: string, tail: string)
    requires body != [] && !IsWhitespace(body[|body| - 1])
    requires AllWhitespace(tail)
    ensures StripTrailing(body + tail) == body
    decreases |tail|
  {
    if tail == [] {
      assert body + tail == body;
    } else {
      var s := body + tail;
      assert s[..|s| - 1] == body + tail[..|tail| - 1];
      StripTrailingOfPaddedLine(body, tail[..|tail| - 1]);
    }
  }

  /** `"".join(parts)`. */
  function Concat(parts: seq<string>): string {
    if parts == [] then "" else Concat(parts[..|parts| - 1]) + parts[|parts| - 1]
  }
}
