/**
 * Ordinal case-insensitive comparison of UTF-16 strings, restricted to the
 * ASCII letters: `StringComparison.OrdinalIgnoreCase` upper-cases both
 * sides character by character and compares the results.
 */
module Ascii {

  predicate IsLower(c: char) {
    'a' <= c <= 'z'
  }

  predicate IsUpper(c: char) {
    'A' <= c <= 'Z'
  }

  function ToUpper(c: char): (u: char)
    ensures !IsLower(u)
  {
    if IsLower(c) then (c as int - 32) as char else c
  }

  function ToLower(c: char): (l: char)
    ensures !IsUpper(l)
  {
    if IsUpper(c) then (c as int + 32) as char else c
  }

  /** `string.Equals(a, b, StringComparison.OrdinalIgnoreCase)` for ASCII case folding. */
  predicate EqualsIgnoreCase(a: string, b: string) {
    |a| == |b| && forall i :: 0 <= i < |a| ==> ToUpper(a[i]) == ToUpper(b[i])
  }

  /** `a` and `b` spell the same text and differ at most in the case of letters. */
  predicate DifferOnlyInCase(a: string, b: string) {
    |a| == |b| && forall i :: 0 <= i < |a| ==> a[i] == b[i] || ToLower(a[i]) == ToLower(b[i])
  }

  /** Folding to upper case and folding to lower case identify exactly the same characters. */
  lemma UpperAndLowerFoldAgree(x: char, y: char)
    ensures ToUpper(x) == ToUpper(y) <==> ToLower(x) == ToLower(y)
  {
  }

  /** The ordinal case-insensitive comparison holds exactly between strings that differ only in letter case. */
  lemma EqualsIgnoreCaseIffDifferOnlyInCase(a: string, b: string)
    ensures EqualsIgnoreCase(a, b) <==> DifferOnlyInCase(a, b)
  {
    if |a| == |b| {
      forall i | 0 <= i < |a|
        ensures ToUpper(a[i]) == ToUpper(b[i]) <==> a[i] == b[i] || ToLower(a[i]) == ToLower(b[i])
      {
        UpperAndLowerFoldAgree(a[i], b[i]);
      }
    }
  }

  lemma EqualsIgnoreCaseIsEquivalence(a: string, b: string, c: string)
    ensures EqualsIgnoreCase(a, a)
    ensures EqualsIgnoreCase(a, b) ==> EqualsIgnoreCase(b, a)
    ensures EqualsIgnoreCase(a, b) && EqualsIgnoreCase(b, c) ==> EqualsIgnoreCase(a, c)
  {
  }
}
