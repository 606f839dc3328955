/** The two string primitives the exam command relies on: PHP 8's
    locale-independent `strtolower` (only the ASCII letters 'A'..'Z' change)
    and `str_contains` (plain substring search; the empty needle is always
    contained). Strings are sequences of characters. */
module AsciiText {

  predicate IsUpper(c: char) {
    'A' <= c <= 'Z'
  }

  predicate IsLower(c: char) {
    'a' <= c <= 'z'
  }

  /** ASCII lower-casing of one character; every other character is kept. */
  function LowerChar(c: char): (r: char)
    ensures !IsUpper(r)
    ensures !IsUpper(c) ==> r == c
    ensures IsUpper(c) ==> IsLower(r) && r as int - c as int == 'a' as int - 'A' as int
  {
    if IsUpper(c) then (c as int - 'A' as int + 'a' as int) as char else c
  }

  /** `strtolower`: lower-cases every character independently. */
  function Lower(s: string): (r: string)
    ensures |r| == |s|
    ensures forall i :: 0 <= i < |s| ==> r[i] == LowerChar(s[i])
  {
    if |s| == 0 then [] else [LowerChar(s[0])] + Lower(s[1..])
  }

  /** No character of a lower-cased string is an upper-case ASCII letter. */
  predicate IsLowered(s: string) {
    forall i :: 0 <= i < |s| ==> !IsUpper(s[i])
  }

  /** Two strings that differ only in the case of ASCII letters. */
  predicate SameIgnoringCase(s: string, t: string) {
    |s| == |t| && forall i :: 0 <= i < |s| ==> LowerChar(s[i]) == LowerChar(t[i])
  }

  /** Lower-casing yields a lowered string, lowering a lowered string
      changes nothing, and so lowering twice is lowering once. */
  lemma LowerIdempotent(s: string)
    ensures IsLowered(Lower(s))
    ensures Lower(Lower(s)) == Lower(s)
    ensures IsLowered(s) ==> Lower(s) == s
  {
  }

  /** Two names are equal up to ASCII case exactly when they lower-case to
      the same string. */
  lemma SameIgnoringCaseIffSameLower(s: string, t: string)
    ensures SameIgnoringCase(s, t) <==> Lower(s) == Lower(t)
  {
  }

  /** The occurrence relation `str_contains` decides: `needle` sits at some
      offset of `haystack`. */
  ghost predicate IsSubstring(needle: string, haystack: string) {
    exists i :: OccursAt(needle, haystack, i)
  }

  /** `needle` occupies `haystack[i..i + |needle|]`. */
  predicate OccursAt(needle: string, haystack: string, i: int) {
    0 <= i <= |haystack| - |needle| && haystack[i..i + |needle|] == needle
  }

  /** `str_contains(haystack, needle)`: tries every offset left to right. */
  function Contains(haystack: string, needle: string): bool
    decreases |haystack|
  {
    if |needle| > |haystack| then false
    else if haystack[..|needle|] == needle then true
    else Contains(haystack[1..], needle)
  }

  /** The left-to-right search is exactly the occurrence relation. */
  lemma {:induction false} ContainsIsSubstring(haystack: string, needle: string)
    ensures Contains(haystack, needle) <==> IsSubstring(needle, haystack)
    decreases |haystack|
  {
    var n := |needle|;
    if n > |haystack| {
    } else if haystack[..n] == needle {
      assert OccursAt(needle, haystack, 0);
    } else {
      var tail := haystack[1..];
      ContainsIsSubstring(tail, needle);
      if IsSubstring(needle, haystack) {
        var i :| OccursAt(needle, haystack, i);
        assert i != 0 by { assert haystack[0..0 + n] == haystack[..n]; }
        assert tail[i - 1..i - 1 + n] == haystack[i..i + n];
        assert OccursAt(needle, tail, i - 1);
      }
      if IsSubstring(needle, tail) {
        var i :| OccursAt(needle, tail, i);
        assert haystack[i + 1..i + 1 + n] == tail[i..i + n];
        assert OccursAt(needle, haystack, i + 1);
      }
    }
  }

  /** An occurrence of a longer keyword is an occurrence of each of its
      substrings ("nodejs" always contains "node"). */
  lemma {:induction false} ContainsTransitive(haystack: string, needle: string, inner: string)
    requires Contains(haystack, needle)
    requires Contains(needle, inner)
    ensures Contains(haystack, inner)
  {
    ContainsIsSubstring(haystack, needle);
    ContainsIsSubstring(needle, inner);
    ContainsIsSubstring(haystack, inner);
    var i :| OccursAt(needle, haystack, i);
    var j :| OccursAt(inner, needle, j);
    forall k | 0 <= k < |inner|
      ensures haystack[i + j..i + j + |inner|][k] == inner[k]
    {
      assert needle[j + k] == haystack[i..i + |needle|][j + k];
    }
    assert haystack[i + j..i + j + |inner|] == inner;
    assert OccursAt(inner, haystack, i + j);
  }
}
