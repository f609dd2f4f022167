/** Concatenating what each element of a sequence contributes, in order,
    and strictly increasing lists of numbers. */
module Sequences {
  /** Strictly increasing, hence free of duplicates. */
  predicate Ascending(s: seq<nat>)
  {
    forall i, j :: 0 <= i < j < |s| ==> s[i] < s[j]
  }

  /** `f(s[0]) + f(s[1]) + ... + f(s[|s| - 1])`, built from the back as a
      loop over `s` pushes onto a list. */
  function Concat<T, U>(s: seq<T>, f: T -> seq<U>): seq<U>
  {
    if s == [] then []
    else Concat(s[..|s| - 1], f) + f(s[|s| - 1])
  }

  /** Concatenation distributes over appending two sequences. */
  lemma {:induction false} ConcatAppend<T, U>(a: seq<T>, b: seq<T>, f: T -> seq<U>)
    ensures Concat(a + b, f) == Concat(a, f) + Concat(b, f)
    decreases |b|
  {
    if b == [] {
      assert a + b == a;
    } else {
      var n := |b| - 1;
      assert (a + b)[..|a + b| - 1] == a + b[..n];
      ConcatAppend(a, b[..n], f);
    }
  }

  /** Every element of the concatenation comes from some element's part. */
  lemma {:induction false} ConcatMember<T, U>(s: seq<T>, f: T -> seq<U>, y: U)
    requires y in Concat(s, f)
    ensures exists i :: 0 <= i < |s| && y in f(s[i])
  {
    var n := |s| - 1;
    if y in Concat(s[..n], f) {
      ConcatMember(s[..n], f, y);
      var i :| 0 <= i < n && y in f(s[..n][i]);
      assert s[i] == s[..n][i];
    }
  }
}
