/** ASCII character classes and lower-casing, the part of Unicode case mapping
    that the tokenizer and the stemmer rely on. */
module Ascii {

  predicate IsLower(c: char) { 'a' <= c <= 'z' }

  predicate IsUpper(c: char) { 'A' <= c <= 'Z' }

  predicate IsLetter(c: char) { IsLower(c) || IsUpper(c) }

  /** Lower-cases A-Z and leaves every other character as it is. */
  function ToLower(c: char): (r: char)
    ensures IsLetter(c) ==> IsLower(r)
    ensures !IsUpper(c) ==> r == c
    ensures IsLower(r) <==> IsLetter(c)
  {
    if IsUpper(c) then (c as int - 'A' as int + 'a' as int) as char else c
  }

  /** `toLowerCase()` restricted to ASCII. */
  function Lower(s: string): (r: string)
    ensures |r| == |s|
    ensures forall i :: 0 <= i < |s| ==> r[i] == ToLower(s[i])
  {
    if s == [] then [] else [ToLower(s[0])] + Lower(s[1..])
  }

  /** Every character is one of a-z. */
  predicate AllLower(s: string) { forall i :: 0 <= i < |s| ==> IsLower(s[i]) }

  /** Every character is an ASCII letter of either case. */
  predicate AllLetters(s: string) { forall i :: 0 <= i < |s| ==> IsLetter(s[i]) }

  lemma LowerOfLetters(s: string)
    requires AllLetters(s)
    ensures AllLower(Lower(s))
  {
  }

  lemma {:induction false} LowerIdempotent(s: string)
    requires AllLower(s)
    ensures Lower(s) == s
  {
    if s != [] {
      LowerIdempotent(s[1..]);
    }
  }
}
