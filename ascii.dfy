/**
 * The C library character functions the place index relies on, in their
 * "C" locale (ASCII) meaning: tolower, isspace and strcasecmp.  Strings are
 * taken to be free of NUL characters, so a C string ends where the Dafny
 * string ends.
 */
module Ascii {

  /** The character std::string::operator[] yields at index size(). */
  const NUL: char := '\0'

  /** tolower: maps 'A'..'Z' to 'a'..'z' and leaves every other character alone. */
  function ToLower(c: char): (r: char)
    ensures r == NUL <==> c == NUL
    ensures !('A' <= r <= 'Z')
  {
    if 'A' <= c <= 'Z' then (c as int + 32) as char else c
  }

  /** isspace: blank, tab, newline, vertical tab, form feed, carriage return. */
  predicate IsSpace(c: char) {
    c == ' ' || '\t' <= c <= '\r'
  }

  /** The whitespace characters of the "C" locale, listed. */
  lemma IsSpaceChars(c: char)
    ensures IsSpace(c) <==> c in [' ', '\t', '\n', '\U{0B}', '\U{0C}', '\r']
  {
  }

  /** The string lowercased character by character. */
  function Lower(s: string): (r: string)
    ensures |r| == |s|
    ensures forall i | 0 <= i < |s| :: r[i] == ToLower(s[i])
  {
    seq(|s|, i requires 0 <= i < |s| => ToLower(s[i]))
  }

  lemma LowerCons(s: string)
    requires s != []
    ensures Lower(s) == [ToLower(s[0])] + Lower(s[1..])
  {
    assert Lower(s)[1..] == Lower(s[1..]);
  }

  /**
   * The lowercased character of s at position d, or NUL at and past the end:
   * what tolower(s[d]) reads for d <= |s|.
   */
  function CharAt(s: string, d: nat): (r: char)
    ensures d < |s| ==> r == Lower(s)[d]
    ensures NUL !in s ==> (r == NUL <==> |s| <= d)
  {
    if d < |s| then ToLower(s[d]) else NUL
  }

  /**
   * strcasecmp, reduced to the sign of its result: -1, 0 or 1.  Characters are
   * compared lowercased; a string that ends first is the smaller one.
   */
  function CaseCompare(a: string, b: string): (cmp: int)
    ensures -1 <= cmp <= 1
    ensures cmp == 0 <==> Lower(a) == Lower(b)
    decreases |a|
  {
    if a == [] then
      (if b == [] then 0 else -1)
    else if b == [] then
      1
    else if ToLower(a[0]) < ToLower(b[0]) then
      -1
    else if ToLower(b[0]) < ToLower(a[0]) then
      1
    else
      LowerCons(a);
      LowerCons(b);
      CaseCompare(a[1..], b[1..])
  }

  /** Swapping the operands of strcasecmp flips the sign of its result. */
  lemma {:induction false} CaseCompareAntisymmetric(a: string, b: string)
    ensures CaseCompare(a, b) == -CaseCompare(b, a)
    decreases |a|
  {
    if a != [] && b != [] && ToLower(a[0]) == ToLower(b[0]) {
      CaseCompareAntisymmetric(a[1..], b[1..]);
    }
  }

  /**
   * When a does not compare above b and both begin (lowercased) with p, the
   * character right after p in a is at most the one in b.  This is why a
   * record array sorted with strcasecmp lists equal characters at any depth
   * next to each other, in ascending order, with the ends of names first.
   */
  lemma {:induction false} CaseCompareAtCommonPrefix(a: string, b: string, p: string)
    requires CaseCompare(a, b) <= 0
    requires p <= Lower(a) && p <= Lower(b)
    ensures CharAt(a, |p|) <= CharAt(b, |p|)
    decreases |p|
  {
    if p != [] {
      LowerCons(a);
      LowerCons(b);
      assert ToLower(a[0]) == p[0] == ToLower(b[0]);
      assert p[1..] <= Lower(a[1..]) && p[1..] <= Lower(b[1..]);
      CaseCompareAtCommonPrefix(a[1..], b[1..], p[1..]);
    }
  }
}
