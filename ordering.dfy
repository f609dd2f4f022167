/** Three-way comparison as Rust's `Ordering`, with the code-point
    lexicographic order on strings that `String::cmp` implements (and that
    `localeCompare` agrees with on the lower-case ASCII terms of the index). */
module Ordering {

  datatype Ordering = Less | Equal | Greater

  function Flip(o: Ordering): Ordering
  {
    match o
    case Less => Greater
    case Equal => Equal
    case Greater => Less
  }

  /** `u32::cmp`. */
  function NatCmp(a: nat, b: nat): (r: Ordering)
    ensures r == Less <==> a < b
    ensures r == Equal <==> a == b
    ensures r == Greater <==> a > b
  {
    if a < b then Less else if a == b then Equal else Greater
  }

  /** `String::cmp`: compare character by character; a proper prefix comes
      first. */
  function StrCmp(a: string, b: string): Ordering
  {
    if a == [] && b == [] then Equal
    else if a == [] then Less
    else if b == [] then Greater
    else if a[0] < b[0] then Less
    else if a[0] > b[0] then Greater
    else StrCmp(a[1..], b[1..])
  }

  /** `match first { Equal => tie, other => other }`: lexicographic
      combination of two comparisons. */
  function Then(first: Ordering, tie: Ordering): Ordering
  {
    match first
    case Equal => tie
    case _ => first
  }

  predicate StrLess(a: string, b: string) { StrCmp(a, b) == Less }

  lemma {:induction false} StrCmpEqual(a: string, b: string)
    ensures StrCmp(a, b) == Equal <==> a == b
  {
    if a != [] && b != [] && a[0] == b[0] {
      StrCmpEqual(a[1..], b[1..]);
      assert a == [a[0]] + a[1..] && b == [b[0]] + b[1..];
    }
  }

  lemma {:induction false} StrCmpFlip(a: string, b: string)
    ensures StrCmp(b, a) == Flip(StrCmp(a, b))
  {
    if a != [] && b != [] && a[0] == b[0] {
      StrCmpFlip(a[1..], b[1..]);
    }
  }

  lemma {:induction false} StrCmpTransitive(a: string, b: string, c: string)
    requires StrCmp(a, b) == Less && StrCmp(b, c) == Less
    ensures StrCmp(a, c) == Less
  {
    if a != [] && b != [] && c != [] && a[0] == b[0] && b[0] == c[0] {
      StrCmpTransitive(a[1..], b[1..], c[1..]);
    }
  }

  /** The string order is a strict total order: irreflexive, asymmetric,
      transitive and connected. */
  lemma StrLessTotal(a: string, b: string)
    ensures !StrLess(a, a)
    ensures StrLess(a, b) ==> !StrLess(b, a)
    ensures a != b ==> StrLess(a, b) || StrLess(b, a)
  {
    StrCmpEqual(a, a);
    StrCmpEqual(a, b);
    StrCmpFlip(a, b);
  }
}
