/** Stable sorting of a sequence by a (term, document id) key: the order
    both the TypeScript `sortPairs` comparator and the Rust
    `IntermediatePair::cmp` define. */
module Sorting {
  import opened Ordering

  type Key = (string, nat)

  /** Compare terms first, then document ids. */
  function KeyCmp(a: Key, b: Key): Ordering
  {
    Then(StrCmp(a.0, b.0), NatCmp(a.1, b.1))
  }

  predicate KeyLe(a: Key, b: Key) { KeyCmp(a, b) != Greater }

  /** The key order is total, antisymmetric and transitive. */
  lemma KeyLeOrder(a: Key, b: Key, c: Key)
    ensures KeyLe(a, b) || KeyLe(b, a)
    ensures KeyLe(a, b) && KeyLe(b, a) ==> a == b
    ensures KeyLe(a, b) && KeyLe(b, c) ==> KeyLe(a, c)
  {
    StrCmpFlip(a.0, b.0);
    StrCmpEqual(a.0, b.0);
    StrCmpEqual(b.0, c.0);
    StrCmpEqual(a.0, c.0);
    if StrCmp(a.0, b.0) == Less && StrCmp(b.0, c.0) == Less {
      StrCmpTransitive(a.0, b.0, c.0);
    }
  }

  predicate SortedBy<T>(s: seq<T>, key: T -> Key)
  {
    forall i, j :: 0 <= i < j < |s| ==> KeyLe(key(s[i]), key(s[j]))
  }

  /** Places `x` before the first element whose key is not smaller. */
  function Insert<T>(x: T, s: seq<T>, key: T -> Key): (r: seq<T>)
    ensures |r| == |s| + 1
  {
    if s == [] then [x]
    else if KeyLe(key(x), key(s[0])) then [x] + s
    else [s[0]] + Insert(x, s[1..], key)
  }

  /** Insert brings in no element but `x`. */
  lemma {:induction false} InsertMembers<T>(x: T, s: seq<T>, key: T -> Key)
    ensures forall y :: y in Insert(x, s, key) ==> y == x || y in s
  {
    if s != [] && !KeyLe(key(x), key(s[0])) {
      InsertMembers(x, s[1..], key);
      forall y | y in s[1..]
        ensures y in s
      {
        var k :| 0 <= k < |s[1..]| && s[1..][k] == y;
        assert s[k + 1] == y;
      }
    }
  }

  /** Insert adds `x` and loses nothing. */
  lemma {:induction false} InsertPermutes<T>(x: T, s: seq<T>, key: T -> Key)
    ensures multiset(Insert(x, s, key)) == multiset(s) + multiset{x}
  {
    if s != [] && !KeyLe(key(x), key(s[0])) {
      InsertPermutes(x, s[1..], key);
      assert s == [s[0]] + s[1..];
    }
  }

  lemma {:induction false} InsertSorted<T>(x: T, s: seq<T>, key: T -> Key)
    requires SortedBy(s, key)
    ensures SortedBy(Insert(x, s, key), key)
  {
    if s != [] {
      if KeyLe(key(x), key(s[0])) {
        var r := [x] + s;
        forall i, j | 0 <= i < j < |r|
          ensures KeyLe(key(r[i]), key(r[j]))
        {
          if i == 0 {
            KeyLeOrder(key(x), key(s[0]), key(s[j - 1]));
          }
        }
      } else {
        KeyLeOrder(key(x), key(s[0]), key(s[0]));
        InsertSorted(x, s[1..], key);
        InsertMembers(x, s[1..], key);
        var r := Insert(x, s[1..], key);
        forall y | y in r
          ensures KeyLe(key(s[0]), key(y))
        {
          if y != x {
            var k :| 0 <= k < |s[1..]| && s[1..][k] == y;
            assert s[k + 1] == y;
          }
        }
      }
    }
  }

  /** Insertion sort: insert the head into the sorted tail. */
  function SortBy<T>(s: seq<T>, key: T -> Key): (r: seq<T>)
    ensures |r| == |s|
  {
    if s == [] then []
    else Insert(s[0], SortBy(s[1..], key), key)
  }

  /** SortBy is a permutation of its input. */
  lemma {:induction false} SortByPermutes<T>(s: seq<T>, key: T -> Key)
    ensures multiset(SortBy(s, key)) == multiset(s)
  {
    if s != [] {
      SortByPermutes(s[1..], key);
      InsertPermutes(s[0], SortBy(s[1..], key), key);
      assert s == [s[0]] + s[1..];
    }
  }

  /** The result of SortBy is ordered by the key. */
  lemma {:induction false} SortBySorted<T>(s: seq<T>, key: T -> Key)
    ensures SortedBy(SortBy(s, key), key)
  {
    if s != [] {
      SortBySorted(s[1..], key);
      InsertSorted(s[0], SortBy(s[1..], key), key);
    }
  }

  /** No two elements share a key. */
  predicate DistinctKeys<T>(s: seq<T>, key: T -> Key)
  {
    forall i, j :: 0 <= i < j < |s| ==> key(s[i]) != key(s[j])
  }

  lemma {:induction false} InsertDistinct<T>(x: T, s: seq<T>, key: T -> Key)
    requires DistinctKeys(s, key)
    requires forall y :: y in s ==> key(y) != key(x)
    ensures DistinctKeys(Insert(x, s, key), key)
  {
    if s != [] && !KeyLe(key(x), key(s[0])) {
      InsertDistinct(x, s[1..], key);
      var r := Insert(x, s[1..], key);
      InsertMembers(x, s[1..], key);
      forall j | 0 <= j < |r|
        ensures key(s[0]) != key(r[j])
      {
        assert r[j] in r;
        if r[j] != x {
          var k :| 0 <= k < |s[1..]| && s[1..][k] == r[j];
          assert s[k + 1] == r[j];
        }
      }
    }
  }

  /** Sorting keeps keys distinct, so a sorted result with distinct keys is
      strictly increasing. */
  lemma {:induction false} SortByDistinct<T>(s: seq<T>, key: T -> Key)
    requires DistinctKeys(s, key)
    ensures DistinctKeys(SortBy(s, key), key)
  {
    if s != [] {
      SortByDistinct(s[1..], key);
      var r := SortBy(s[1..], key);
      SortByPermutes(s[1..], key);
      forall y | y in r
        ensures key(y) != key(s[0])
      {
        assert y in multiset(s[1..]);
        var k :| 0 <= k < |s[1..]| && s[1..][k] == y;
        assert s[k + 1] == y;
      }
      InsertDistinct(s[0], r, key);
    }
  }

  /** The elements of `s` whose key is `k`, in their order in `s`. */
  function WithKey<T>(s: seq<T>, key: T -> Key, k: Key): seq<T>
  {
    if s == [] then []
    else (if key(s[0]) == k then [s[0]] else []) + WithKey(s[1..], key, k)
  }

  lemma WithKeyCons<T>(y: T, r: seq<T>, key: T -> Key, k: Key)
    ensures WithKey([y] + r, key, k) == (if key(y) == k then [y] else []) + WithKey(r, key, k)
  {
    assert ([y] + r)[1..] == r;
  }

  /** Inserting `x` places it before every element sharing its key (those
      are not smaller), so among them it comes first. */
  lemma {:induction false} InsertWithKey<T>(x: T, s: seq<T>, key: T -> Key, k: Key)
    ensures WithKey(Insert(x, s, key), key, k)
         == (if key(x) == k then [x] else []) + WithKey(s, key, k)
  {
    if s == [] {
    } else if KeyLe(key(x), key(s[0])) {
      WithKeyCons(x, s, key, k);
    } else {
      InsertWithKey(x, s[1..], key, k);
      InsertWithKeyPast(x, s, key, k);
    }
  }

  /** The step of InsertWithKey where `x` goes past the head `s[0]`. */
  lemma InsertWithKeyPast<T>(x: T, s: seq<T>, key: T -> Key, k: Key)
    requires s != [] && !KeyLe(key(x), key(s[0]))
    requires WithKey(Insert(x, s[1..], key), key, k)
          == (if key(x) == k then [x] else []) + WithKey(s[1..], key, k)
    ensures WithKey(Insert(x, s, key), key, k)
         == (if key(x) == k then [x] else []) + WithKey(s, key, k)
  {
    var r := Insert(x, s[1..], key);
    assert Insert(x, s, key) == [s[0]] + r;
    WithKeyCons(s[0], r, key, k);
    assert s == [s[0]] + s[1..];
    WithKeyCons(s[0], s[1..], key, k);
    var head := if key(s[0]) == k then [s[0]] else [];
    var rest := WithKey(s[1..], key, k);
    if key(x) == k {
      // s[0] lies strictly below x, so it does not share x's key
      KeyLeOrder(key(x), key(x), key(x));
      assert [] + ([x] + rest) == [x] + ([] + rest);
    } else {
      assert head + ([] + rest) == [] + (head + rest);
    }
  }

  /** SortBy is stable: the elements sharing a key keep their relative order. */
  lemma {:induction false} SortByStable<T>(s: seq<T>, key: T -> Key, k: Key)
    ensures WithKey(SortBy(s, key), key, k) == WithKey(s, key, k)
  {
    if s != [] {
      SortByStable(s[1..], key, k);
      InsertWithKey(s[0], SortBy(s[1..], key), key, k);
    }
  }

}
