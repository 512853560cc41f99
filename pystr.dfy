/**
 The two Python string methods the cleaner relies on, `str.lower()` and
 `str.strip()` without arguments, restricted to ASCII: upper-case letters are
 'A'..'Z', and whitespace is what `str.isspace` accepts below 128.
 Every other character is left unchanged by `Lower` and kept by `Strip`.
 */
module PyStr {

  /** `str.isspace` on the ASCII range: tab, line feed, vertical tab, form feed,
      carriage return (9..13), the four information separators (28..31) and space (32). */
  predicate IsSpace(c: char) {
    9 <= c as int <= 13 || 28 <= c as int <= 32
  }

  predicate IsUpper(c: char) {
    'A' <= c <= 'Z'
  }

  /** The string holds no upper-case letter. */
  predicate NoUpper(s: string) {
    forall i :: 0 <= i < |s| ==> !IsUpper(s[i])
  }

  /** The string neither starts nor ends with whitespace. */
  predicate NoOuterSpace(s: string) {
    s == [] || (!IsSpace(s[0]) && !IsSpace(s[|s| - 1]))
  }

  /** Lower-casing one character: only 'A'..'Z' change, and whitespace stays whitespace. */
  function LowerChar(c: char): (d: char)
    ensures !IsUpper(d)
    ensures d != c ==> IsUpper(c) && d as int == c as int + 32
    ensures IsSpace(d) <==> IsSpace(c)
  {
    if IsUpper(c) then (c as int + 32) as char else c
  }

  /** `s.lower()`: the same length, character by character lower-cased. */
  function Lower(s: string): (r: string)
    ensures |r| == |s|
    ensures forall i :: 0 <= i < |s| ==> r[i] == LowerChar(s[i])
    ensures NoUpper(r)
  {
    if s == [] then [] else [LowerChar(s[0])] + Lower(s[1..])
  }

  /** Lower-casing twice is lower-casing once. */
  lemma LowerIdempotent(s: string)
    ensures Lower(Lower(s)) == Lower(s)
  {
    assert forall i :: 0 <= i < |s| ==> Lower(Lower(s))[i] == Lower(s)[i];
  }

  /** A string is its own lower-case form exactly when it holds no upper-case letter. */
  lemma {:induction false} LowerFixedPoints(s: string)
    ensures Lower(s) == s <==> NoUpper(s)
  {
    if NoUpper(s) {
      forall i | 0 <= i < |s| ensures Lower(s)[i] == s[i] {
        assert !IsUpper(s[i]);
      }
    }
  }

  /** Lower-casing keeps whitespace where it was, so it keeps a stripped string stripped. */
  lemma LowerKeepsNoOuterSpace(s: string)
    requires NoOuterSpace(s)
    ensures NoOuterSpace(Lower(s))
  {
  }

  /** The number of whitespace characters at the start of `s`. */
  function LeadingSpaces(s: string): (n: nat)
    ensures n <= |s|
    ensures forall i :: 0 <= i < n ==> IsSpace(s[i])
    ensures n < |s| ==> !IsSpace(s[n])
  {
    if s != [] && IsSpace(s[0]) then 1 + LeadingSpaces(s[1..]) else 0
  }

  /** The number of whitespace characters at the end of `s`. */
  function TrailingSpaces(s: string): (n: nat)
    ensures n <= |s|
    ensures forall i :: |s| - n <= i < |s| ==> IsSpace(s[i])
    ensures n < |s| ==> !IsSpace(s[|s| - 1 - n])
  {
    if s != [] && IsSpace(s[|s| - 1]) then 1 + TrailingSpaces(s[..|s| - 1]) else 0
  }

  /** `r` is the part of `s` that starts at offset `i`, and everything of `s`
      before and after that part is whitespace. */
  ghost predicate MarginsAt(r: string, s: string, i: nat) {
    && i + |r| <= |s|
    && r == s[i..i + |r|]
    && (forall k :: 0 <= k < i ==> IsSpace(s[k]))
    && (forall k :: i + |r| <= k < |s| ==> IsSpace(s[k]))
  }

  /** `r` is `s` with a whitespace-only margin removed on either side and no
      whitespace left at either end: the meaning of `s.strip()`. */
  ghost predicate IsStripOf(r: string, s: string) {
    NoOuterSpace(r) && exists i: nat :: MarginsAt(r, s, i)
  }

  /** `s.strip()`. */
  function Strip(s: string): (r: string)
    ensures IsStripOf(r, s)
  {
    var i := LeadingSpaces(s);
    var t := s[i..];
    var r := t[..|t| - TrailingSpaces(t)];
    assert r == s[i..i + |r|];
    assert forall k :: 0 <= k < i ==> IsSpace(s[k]);
    assert forall k :: i + |r| <= k < |s| ==> IsSpace(s[k]) by {
      forall k | i + |r| <= k < |s| ensures IsSpace(s[k]) {
        assert s[k] == t[k - i];
      }
    }
    assert MarginsAt(r, s, i);
    r
  }

  /** At most one string is a strip of `s`: `IsStripOf` pins the result down. */
  lemma StripUnique(r1: string, r2: string, s: string)
    requires IsStripOf(r1, s) && IsStripOf(r2, s)
    ensures r1 == r2
  {
    var i1: nat :| MarginsAt(r1, s, i1);
    var i2: nat :| MarginsAt(r2, s, i2);
    if r1 != [] && r2 != [] {
      // the first non-space character and the last one fix both ends
      assert s[i1] == r1[0] && s[i2] == r2[0];
      assert i1 == i2;
      assert s[i1 + |r1| - 1] == r1[|r1| - 1] && s[i2 + |r2| - 1] == r2[|r2| - 1];
      assert |r1| == |r2|;
    }
  }

  /** A string without outer whitespace is its own strip. */
  lemma StripNoOuterSpace(s: string)
    requires NoOuterSpace(s)
    ensures Strip(s) == s
  {
    assert MarginsAt(s, s, 0);
    StripUnique(Strip(s), s, s);
  }

  /** Stripping twice is stripping once. */
  lemma StripIdempotent(s: string)
    ensures Strip(Strip(s)) == Strip(s)
  {
    StripNoOuterSpace(Strip(s));
  }
}
