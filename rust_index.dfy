/** The Rust index builder: the (term, doc_id) pair with its ordering, the
    collect loop of `main`, the sort, and `InvertedIndex` with its in-place
    `build_from_sorted_pairs`. The English Snowball stemmer it calls is a
    parameter `stem`. */
module RustIndex {
  import opened Wrappers
  import opened Ordering
  import opened Sorting
  import opened Tokenizer
  import opened Sequences

  datatype IntermediatePair = IntermediatePair(term: string, docId: nat)

  /** `Ord::cmp`: by term, ties broken by doc_id. */
  function Cmp(a: IntermediatePair, b: IntermediatePair): Ordering
  {
    match StrCmp(a.term, b.term)
    case Equal => NatCmp(a.docId, b.docId)
    case other => other
  }

  /** `PartialOrd::partial_cmp`: never undefined. */
  function PartialCmp(a: IntermediatePair, b: IntermediatePair): (r: Option<Ordering>)
    ensures r.Some? && r.value == Cmp(a, b)
  {
    Some(Cmp(a, b))
  }

  /** `PartialEq::eq`: both fields equal. */
  function Eq(a: IntermediatePair, b: IntermediatePair): bool
  {
    a.term == b.term && a.docId == b.docId
  }

  function Key(p: IntermediatePair): Sorting.Key { (p.term, p.docId) }

  /** `eq` agrees with `cmp`, and both agree with value equality. */
  lemma EqIffCmpEqual(a: IntermediatePair, b: IntermediatePair)
    ensures Eq(a, b) <==> Cmp(a, b) == Equal
    ensures Eq(a, b) <==> a == b
  {
    StrCmpEqual(a.term, b.term);
  }

  /** `cmp` is the lexicographic order on (term, doc_id), the same order the
      sort uses, and it is a total order: flipping the arguments flips the
      answer, and it is transitive. */
  lemma CmpIsLexicographic(a: IntermediatePair, b: IntermediatePair, c: IntermediatePair)
    ensures Cmp(a, b) == KeyCmp(Key(a), Key(b))
    ensures Cmp(b, a) == Flip(Cmp(a, b))
    ensures Cmp(a, b) == Less && Cmp(b, c) == Less ==> Cmp(a, c) == Less
  {
    StrCmpFlip(a.term, b.term);
    StrCmpEqual(a.term, b.term);
    StrCmpEqual(b.term, c.term);
    if StrCmp(a.term, b.term) == Less && StrCmp(b.term, c.term) == Less {
      StrCmpTransitive(a.term, b.term, c.term);
    }
  }

  // ------------------------------------------------------- collect and sort

  /** The pairs one document contributes: one per `[a-zA-Z]+` match of its
      lower-cased text, in match order. */
  function DocPairs(docId: nat, tokens: seq<string>, stem: string -> string): seq<IntermediatePair>
  {
    if tokens == [] then []
    else DocPairs(docId, tokens[..|tokens| - 1], stem) + [IntermediatePair(stem(tokens[|tokens| - 1]), docId)]
  }

  /** All pairs, in document order. */
  function Collected(documents: seq<(nat, string)>, stem: string -> string): seq<IntermediatePair>
  {
    Concat(documents, DocumentPairs(stem))
  }

  /** The pairs of one `(id, text)` document. */
  function DocumentPairs(stem: string -> string): ((nat, string)) -> seq<IntermediatePair>
  {
    (document: (nat, string)) => DocPairs(document.0, Tokens(document.1), stem)
  }

  /** The collect loop of `main`. */
  method CollectPairs(documents: seq<(nat, string)>, stem: string -> string)
    returns (intermediateList: seq<IntermediatePair>)
    ensures intermediateList == Collected(documents, stem)
  {
    intermediateList := [];
    for d := 0 to |documents|
      invariant intermediateList == Collected(documents[..d], stem)
    {
      var (docId, text) := documents[d];
      var tokens := Tokens(text);
      for k := 0 to |tokens|
        invariant intermediateList == Collected(documents[..d], stem) + DocPairs(docId, tokens[..k], stem)
      {
        assert tokens[..k + 1][..k] == tokens[..k];
        intermediateList := intermediateList + [IntermediatePair(stem(tokens[k]), docId)];
      }
      assert tokens[..|tokens|] == tokens;
      assert documents[..d + 1][..d] == documents[..d];
    }
    assert documents[..|documents|] == documents;
  }

  /** One pair per token, in token order, carrying the document's id and the
      token's stem. */
  lemma {:induction false} DocPairsShape(docId: nat, tokens: seq<string>, stem: string -> string)
    ensures |DocPairs(docId, tokens, stem)| == |tokens|
    ensures forall k :: 0 <= k < |tokens| ==>
      DocPairs(docId, tokens, stem)[k] == IntermediatePair(stem(tokens[k]), docId)
  {
    if tokens != [] {
      DocPairsShape(docId, tokens[..|tokens| - 1], stem);
    }
  }

  /** Documents contribute their pairs one after the other. */
  lemma CollectedAppend(documents: seq<(nat, string)>, more: seq<(nat, string)>, stem: string -> string)
    ensures Collected(documents + more, stem) == Collected(documents, stem) + Collected(more, stem)
  {
    ConcatAppend(documents, more, DocumentPairs(stem));
  }

  /** `intermediate_list.sort()`: ordered by `cmp`, a permutation of the
      list before sorting. */
  function SortPairs(list: seq<IntermediatePair>): (r: seq<IntermediatePair>)
    ensures multiset(r) == multiset(list)
    ensures forall i, j :: 0 <= i < j < |r| ==> Cmp(r[i], r[j]) != Greater
  {
    SortBySorted(list, Key);
    SortByPermutes(list, Key);
    var r := SortBy(list, Key);
    forall i, j | 0 <= i < j < |r|
      ensures Cmp(r[i], r[j]) != Greater
    {
      CmpIsLexicographic(r[i], r[j], r[j]);
    }
    r
  }

  // ------------------------------------------------------------ the index

  /** One step of `build_from_sorted_pairs`: `entry(term).or_insert(vec![])`,
      then push the id unless it is already the last one. */
  function Add(m: map<string, seq<nat>>, p: IntermediatePair): map<string, seq<nat>>
  {
    var postings := if p.term in m then m[p.term] else [];
    if |postings| > 0 && postings[|postings| - 1] == p.docId then m[p.term := postings]
    else m[p.term := postings + [p.docId]]
  }

  /** The map after adding every pair in order. */
  function AddAll(m: map<string, seq<nat>>, pairs: seq<IntermediatePair>): map<string, seq<nat>>
  {
    if pairs == [] then m else Add(AddAll(m, pairs[..|pairs| - 1]), pairs[|pairs| - 1])
  }

  class InvertedIndex {
    var indexMap: map<string, seq<nat>>

    /** `InvertedIndex::new`. */
    constructor ()
      ensures indexMap == map[]
    {
      indexMap := map[];
    }

    /** `build_from_sorted_pairs`: one pass over the pairs, updating the map
      in place. */
    method BuildFromSortedPairs(sortedPairs: seq<IntermediatePair>)
      modifies this
      ensures indexMap == AddAll(old(indexMap), sortedPairs)
    {
      for i := 0 to |sortedPairs|
        invariant indexMap == AddAll(old(indexMap), sortedPairs[..i])
      {
        var pair := sortedPairs[i];
        ghost var before := indexMap;
        var postings := if pair.term in indexMap then indexMap[pair.term] else [];
        if |postings| == 0 || postings[|postings| - 1] != pair.docId {
          postings := postings + [pair.docId];
        }
        indexMap := indexMap[pair.term := postings];
        assert indexMap == Add(before, pair);
        assert sortedPairs[..i + 1][..i] == sortedPairs[..i];
      }
      assert sortedPairs[..|sortedPairs|] == sortedPairs;
    }
  }

  // ------------------------------------------------ properties of the index

  function Terms(pairs: seq<IntermediatePair>): set<string>
  {
    set p | p in pairs :: p.term
  }

  lemma TermsSnoc(pairs: seq<IntermediatePair>, p: IntermediatePair)
    ensures Terms(pairs + [p]) == Terms(pairs) + {p.term}
  {
    assert forall q :: q in pairs + [p] <==> q in pairs || q == p;
  }

  /** The keys are the old keys plus the input's terms; a key the input does
      not mention keeps its list. */
  lemma {:induction false} AddAllKeys(m: map<string, seq<nat>>, pairs: seq<IntermediatePair>)
    ensures AddAll(m, pairs).Keys == m.Keys + Terms(pairs)
    ensures forall t :: t in m && t !in Terms(pairs) ==> AddAll(m, pairs)[t] == m[t]
  {
    if pairs != [] {
      var n := |pairs| - 1;
      AddAllKeys(m, pairs[..n]);
      assert pairs == pairs[..n] + [pairs[n]];
      TermsSnoc(pairs[..n], pairs[n]);
    }
  }

  /** From an empty map, the dictionary has one row per distinct term. */
  lemma RowCount(pairs: seq<IntermediatePair>)
    ensures |AddAll(map[], pairs).Keys| == |Terms(pairs)|
  {
    AddAllKeys(map[], pairs);
  }

  /** From an empty map, `d` is listed under `t` exactly when the input holds
      the pair (t, d). */
  lemma {:induction false} AddAllMembership(pairs: seq<IntermediatePair>, t: string, d: nat)
    requires t in AddAll(map[], pairs)
    ensures d in AddAll(map[], pairs)[t] <==> IntermediatePair(t, d) in pairs
  {
    var n := |pairs| - 1;
    var prev := AddAll(map[], pairs[..n]);
    var p := pairs[n];
    assert pairs == pairs[..n] + [p];
    if t in prev {
      AddAllMembership(pairs[..n], t, d);
    } else {
      AddAllKeys(map[], pairs[..n]);
      assert forall q :: q in pairs[..n] ==> q.term != t;
    }
  }

  /** Every list is nonempty and strictly increasing. */
  predicate StrictRows(m: map<string, seq<nat>>)
  {
    forall t :: t in m ==> |m[t]| > 0 && Ascending(m[t])
  }

  /** Adding an id no smaller than the last one of its list keeps every list
      strictly increasing. */
  lemma AddKeepsStrict(m: map<string, seq<nat>>, p: IntermediatePair)
    requires StrictRows(m)
    requires p.term in m ==> m[p.term][|m[p.term]| - 1] <= p.docId
    ensures StrictRows(Add(m, p))
  {
  }

  /** From an empty map and with input sorted by `cmp`, every list is
      strictly increasing, hence free of duplicates. */
  lemma {:induction false} AddAllSorted(pairs: seq<IntermediatePair>)
    requires forall i, j :: 0 <= i < j < |pairs| ==> Cmp(pairs[i], pairs[j]) != Greater
    ensures StrictRows(AddAll(map[], pairs))
  {
    if pairs != [] {
      var n := |pairs| - 1;
      var prev := AddAll(map[], pairs[..n]);
      var p := pairs[n];
      AddAllSorted(pairs[..n]);
      if p.term in prev {
        var l := prev[p.term];
        AddAllMembership(pairs[..n], p.term, l[|l| - 1]);
        var k :| 0 <= k < n && pairs[..n][k] == IntermediatePair(p.term, l[|l| - 1]);
        StrCmpEqual(p.term, p.term);
        assert Cmp(pairs[k], p) != Greater;
      }
      AddKeepsStrict(prev, p);
    }
  }

  /** On unsorted input a repeated id survives when it is not adjacent. */
  lemma UnsortedKeepsDuplicates()
    ensures AddAll(map[], [IntermediatePair("a", 1), IntermediatePair("a", 2), IntermediatePair("a", 1)])
         == map["a" := [1, 2, 1]]
  {
    var p1, p2 := IntermediatePair("a", 1), IntermediatePair("a", 2);
    var ps := [p1, p2, p1];
    assert [p1][..|[p1]| - 1] == [];
    assert AddAll(map[], []) == map[];
    var m1 := AddAll(map[], [p1]);
    assert m1 == Add(map[], p1);
    var empty: map<string, seq<nat>> := map[];
    var none: seq<nat> := [];
    assert "a" !in empty && none + [1] == [1];
    assert m1 == map["a" := [1]];
    assert [p1, p2][..1] == [p1];
    var m2 := AddAll(map[], [p1, p2]);
    assert m2 == Add(m1, p2);
    assert m1["a"] == [1] && [1] + [2] == [1, 2];
    assert m2 == map["a" := [1, 2]];
    assert ps[..2] == [p1, p2];
    assert AddAll(map[], ps) == Add(m2, p1);
    assert m2["a"] == [1, 2] && [1, 2] + [1] == [1, 2, 1];
  }

  /** `main` up to the statistics: collect, sort, and build from an empty
      index. Every row is a strictly increasing list, and a document is
      listed under a term exactly when one of its tokens stems to it. */
  method BuildIndex(documents: seq<(nat, string)>, stem: string -> string) returns (index: InvertedIndex)
    ensures fresh(index)
    ensures index.indexMap.Keys == Terms(Collected(documents, stem))
    ensures StrictRows(index.indexMap)
    ensures forall t, d :: t in index.indexMap ==>
      (d in index.indexMap[t] <==> IntermediatePair(t, d) in Collected(documents, stem))
  {
    var intermediateList := CollectPairs(documents, stem);
    var sorted := SortPairs(intermediateList);
    index := new InvertedIndex();
    index.BuildFromSortedPairs(sorted);
    AddAllKeys(map[], sorted);
    AddAllSorted(sorted);
    assert forall q :: q in sorted <==> q in intermediateList by {
      forall q
        ensures q in sorted <==> q in intermediateList
      {
        assert q in sorted <==> q in multiset(sorted);
      }
    }
    assert Terms(sorted) == Terms(intermediateList);
    forall t, d | t in index.indexMap
      ensures d in index.indexMap[t] <==> IntermediatePair(t, d) in intermediateList
    {
      AddAllMembership(sorted, t, d);
    }
  }
}
