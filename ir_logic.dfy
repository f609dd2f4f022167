/** The web pipeline: stem with an override table, tokenize and stem every
    document, sort the pairs, group them into a dictionary with postings, and
    look a query up in it. */
module IrLogic {
  import opened Wrappers
  import opened Ascii
  import opened Ordering
  import opened Sorting
  import opened Tokenizer
  import opened Stemmer
  import opened Sequences

  datatype DocumentInput = DocumentInput(id: nat, text: string)

  datatype IntermediatePair = IntermediatePair(term: string, docId: nat, originalToken: string)

  datatype DictionaryEntry = DictionaryEntry(term: string, postings: seq<nat>)

  // ---------------------------------------------------------------- getStem

  /** Irregular forms the stemmer would mangle, each mapped to itself. */
  const Overrides: map<string, string> := map["men" := "men", "feet" := "feet"]

  /** `getStem`: an override when the lower-cased word has one, the Porter
      stem otherwise. */
  function GetStem(word: string): (r: string)
    ensures |word| >= 3 && AllLetters(word) ==> AllLower(r) && |r| <= |word|
  {
    var key := Lower(word);
    if key in Overrides then Overrides[key] else Stem(word)
  }

  /** The override table only ever hands back the lower-cased word itself;
      every other word, "constructor" included, goes to the stemmer. */
  lemma GetStemOverrides(word: string)
    ensures Lower(word) in {"men", "feet"} ==> GetStem(word) == Lower(word)
    ensures Lower(word) !in {"men", "feet"} ==> GetStem(word) == Stem(word)
  {
  }

  /** The names an object literal inherits from `Object.prototype`; looking
      any of them up in `overrides` finds a truthy value that is no string. */
  const ObjectPrototypeKeys: set<string> :=
    {"constructor", "__proto__", "hasOwnProperty", "isPrototypeOf",
     "propertyIsEnumerable", "toString", "toLocaleString", "valueOf",
     "__defineGetter__", "__defineSetter__", "__lookupGetter__", "__lookupSetter__"}

  /** What a lookup in a JavaScript object can produce. */
  datatype JsValue = JsString(s: string) | JsInherited(name: string)

  /** `overrides[key]` on an object literal: own properties first, then the
      prototype chain; None is `undefined`. */
  function LookupAsWritten(table: map<string, string>, key: string): (r: Option<JsValue>)
    ensures key in table ==> r == Some(JsString(table[key]))
    ensures key !in table && key !in ObjectPrototypeKeys ==> r == None
  {
    if key in table then Some(JsString(table[key]))
    else if key in ObjectPrototypeKeys then Some(JsInherited(key))
    else None
  }

  /** `getStem` as written: a truthy lookup result is returned as is, and
      every other word goes to `porterStemmer` as the program writes it. */
  function GetStemAsWritten(word: string): (r: JsValue)
    ensures Lower(word) in {"men", "feet"} ==> r == JsString(Lower(word))
    ensures Lower(word) !in {"men", "feet"} && Lower(word) !in ObjectPrototypeKeys ==> r == JsString(StemAsWritten(word))
    ensures Lower(word) in ObjectPrototypeKeys ==> r == JsInherited(Lower(word))
  {
    match LookupAsWritten(Overrides, Lower(word))
    case Some(v) => v
    case None => JsString(StemAsWritten(word))
  }

  /** The corrected `getStem` differs from the written one only on the
      inherited names and where the two stemmers differ. */
  lemma GetStemCorrections(word: string)
    requires Lower(word) !in ObjectPrototypeKeys
    requires StemAsWritten(word) == Stem(word)
    ensures GetStemAsWritten(word) == JsString(GetStem(word))
  {
  }

  /** For a word that lower-cases to a name `Object.prototype` provides,
      `getStem` as written hands back the inherited member, where a lookup
      of own keys only falls through to the stemmer. */
  lemma PrototypeKeysAreNotStrings(word: string)
    requires Lower(word) in ObjectPrototypeKeys
    ensures GetStemAsWritten(word) == JsInherited(Lower(word))
    ensures GetStem(word) == Stem(word)
  {
  }

  /** "constructor" is an ordinary token and one of those names. */
  lemma ConstructorIsNotAString()
    ensures Tokens("constructor") == ["constructor"]
    ensures Lower("constructor") in ObjectPrototypeKeys
  {
    var w := "constructor";
    assert AllLower(w);
    LowerIdempotent(w);
    MatchesWord(w);
  }

  // ------------------------------------------------------- tokenizeAndStem

  /** The pairs one document contributes, one per token, in token order. */
  function TokenPairs(tokens: seq<string>, id: nat): seq<IntermediatePair>
  {
    if tokens == [] then []
    else
      var t := tokens[|tokens| - 1];
      TokenPairs(tokens[..|tokens| - 1], id) + [IntermediatePair(GetStem(t), id, t)]
  }

  /** The pairs one document contributes. */
  function DocumentPairs(d: DocumentInput): seq<IntermediatePair>
  {
    TokenPairs(Tokens(d.text), d.id)
  }

  /** The pairs of a list of documents, in document order. */
  function AllPairs(docs: seq<DocumentInput>): seq<IntermediatePair>
  {
    Concat(docs, DocumentPairs)
  }

  /** `tokenizeAndStem`: for each document, for each token, push a pair. */
  method TokenizeAndStem(docs: seq<DocumentInput>) returns (pairs: seq<IntermediatePair>)
    ensures pairs == AllPairs(docs)
  {
    pairs := [];
    for d := 0 to |docs|
      invariant pairs == AllPairs(docs[..d])
    {
      var doc := docs[d];
      var tokens := Tokens(doc.text);
      for k := 0 to |tokens|
        invariant pairs == AllPairs(docs[..d]) + TokenPairs(tokens[..k], doc.id)
      {
        assert tokens[..k + 1][..k] == tokens[..k];
        pairs := pairs + [IntermediatePair(GetStem(tokens[k]), doc.id, tokens[k])];
      }
      assert tokens[..|tokens|] == tokens;
      assert docs[..d + 1][..d] == docs[..d];
    }
    assert docs[..|docs|] == docs;
  }

  /** One pair per token, in token order, each carrying the document id, the
      token and the token's stem; nothing is merged or dropped. */
  lemma {:induction false} TokenPairsShape(tokens: seq<string>, id: nat)
    ensures |TokenPairs(tokens, id)| == |tokens|
    ensures forall k :: 0 <= k < |tokens| ==>
      TokenPairs(tokens, id)[k] == IntermediatePair(GetStem(tokens[k]), id, tokens[k])
  {
    if tokens != [] {
      TokenPairsShape(tokens[..|tokens| - 1], id);
    }
  }

  /** Documents contribute their pairs one after the other. */
  lemma AllPairsAppend(docs: seq<DocumentInput>, more: seq<DocumentInput>)
    ensures AllPairs(docs + more) == AllPairs(docs) + AllPairs(more)
  {
    ConcatAppend(docs, more, DocumentPairs);
  }

  /** A single document yields exactly its token pairs. */
  lemma AllPairsOne(d: DocumentInput)
    ensures AllPairs([d]) == TokenPairs(Tokens(d.text), d.id)
  {
    assert [d][..0] == [];
    assert Concat([d], DocumentPairs) == Concat([], DocumentPairs) + DocumentPairs(d);
  }

  /** Documents without any letter yield no pairs. */
  lemma {:induction false} AllPairsNoLetters(docs: seq<DocumentInput>)
    requires forall i :: 0 <= i < |docs| ==> Tokens(docs[i].text) == []
    ensures AllPairs(docs) == []
  {
    if docs != [] {
      AllPairsNoLetters(docs[..|docs| - 1]);
    }
  }

  /** Every pair comes from a token of a document with its id, and its term
      is that token's stem. */
  lemma {:induction false} AllPairsProvenance(docs: seq<DocumentInput>, p: IntermediatePair)
    requires p in AllPairs(docs)
    ensures p.term == GetStem(p.originalToken)
    ensures exists i :: 0 <= i < |docs| && docs[i].id == p.docId && p.originalToken in Tokens(docs[i].text)
  {
    var n := |docs| - 1;
    var d := docs[n];
    var toks := Tokens(d.text);
    TokenPairsShape(toks, d.id);
    if p in AllPairs(docs[..n]) {
      AllPairsProvenance(docs[..n], p);
      var i :| 0 <= i < n && docs[..n][i].id == p.docId && p.originalToken in Tokens(docs[..n][i].text);
      assert docs[i] == docs[..n][i];
    } else {
      var k :| 0 <= k < |toks| && TokenPairs(toks, d.id)[k] == p;
      assert toks[k] in toks;
    }
  }

  // ------------------------------------------------------------- sortPairs

  function PairKey(p: IntermediatePair): Key { (p.term, p.docId) }

  /** `sortPairs`: a sorted copy, by term and then document id, that keeps
      pairs with equal keys in their input order. */
  function SortPairs(pairs: seq<IntermediatePair>): (r: seq<IntermediatePair>)
    ensures multiset(r) == multiset(pairs)
    ensures SortedBy(r, PairKey)
    ensures forall k :: WithKey(r, PairKey, k) == WithKey(pairs, PairKey, k)
  {
    SortBySorted(pairs, PairKey);
    SortByPermutes(pairs, PairKey);
    forall k
      ensures WithKey(SortBy(pairs, PairKey), PairKey, k) == WithKey(pairs, PairKey, k)
    {
      SortByStable(pairs, PairKey, k);
    }
    SortBy(pairs, PairKey)
  }

  // ------------------------------------------------------------ buildIndex

  function ToSet(s: seq<nat>): set<nat> { set x | x in s }

  /** The terms the pairs mention. */
  function Terms(pairs: seq<IntermediatePair>): set<string>
  {
    set p | p in pairs :: p.term
  }

  /** The documents the pairs list for `term`. */
  function DocsOf(pairs: seq<IntermediatePair>, term: string): set<nat>
  {
    set p | p in pairs && p.term == term :: p.docId
  }

  lemma TermsSnoc(pairs: seq<IntermediatePair>, p: IntermediatePair)
    ensures Terms(pairs + [p]) == Terms(pairs) + {p.term}
    ensures forall t :: DocsOf(pairs + [p], t) == DocsOf(pairs, t) + (if p.term == t then {p.docId} else {})
  {
    assert forall q :: q in pairs + [p] <==> q in pairs || q == p;
  }

  /** Counting up from a lower bound `k` of `s` reaches its least member. */
  lemma {:induction false} LeastFrom(s: set<nat>, k: nat, y: nat)
    requires y in s && k <= y
    requires forall x :: x in s ==> k <= x
    ensures exists m :: m in s && forall x :: x in s ==> m <= x
    decreases y - k
  {
    if k !in s {
      LeastFrom(s, k + 1, y);
    }
  }

  lemma MinExists(s: set<nat>)
    requires s != {}
    ensures exists m :: m in s && forall x :: x in s ==> m <= x
  {
    var y :| y in s;
    LeastFrom(s, 0, y);
  }

  /** The least member of a nonempty set. */
  function MinOf(s: set<nat>): (m: nat)
    requires s != {}
    ensures m in s && forall x :: x in s ==> m <= x
  {
    MinExists(s);
    var m :| m in s && forall x :: x in s ==> m <= x;
    m
  }

  lemma ConsToSet(m: nat, rest: seq<nat>)
    ensures ToSet([m] + rest) == {m} + ToSet(rest)
  {
    assert forall x :: x in [m] + rest <==> x == m || x in rest;
  }

  /** `Array.from(docSet).sort((a, b) => a - b)`: the members of a set in
      increasing order. */
  function SortedSet(s: set<nat>): (r: seq<nat>)
    ensures Ascending(r)
    ensures ToSet(r) == s
    decreases s
  {
    if s == {} then []
    else
      var m := MinOf(s);
      var rest := SortedSet(s - {m});
      ConsToSet(m, rest);
      assert Ascending([m] + rest) by {
        forall k | 0 <= k < |rest|
          ensures m < rest[k]
        {
          assert rest[k] in ToSet(rest);
        }
      }
      [m] + rest
  }

  function EntryKey(e: DictionaryEntry): Key { (e.term, 0) }

  /** What `buildIndex` promises about its result: terms strictly increasing
      (hence unique), postings strictly increasing, every term of the pairs
      present, and `d` listed under `t` exactly when some pair is (t, d). */
  predicate IsIndexOf(dict: seq<DictionaryEntry>, pairs: seq<IntermediatePair>)
  {
    (forall i, j :: 0 <= i < j < |dict| ==> StrLess(dict[i].term, dict[j].term))
    && (forall i :: 0 <= i < |dict| ==> Ascending(dict[i].postings))
    && (set i | 0 <= i < |dict| :: dict[i].term) == Terms(pairs)
    && (forall i :: 0 <= i < |dict| ==> ToSet(dict[i].postings) == DocsOf(pairs, dict[i].term))
  }

  /** The grouping loop of `buildIndex`: a map from each term to the set of
      its document ids, with the terms in first-seen order beside it (the
      order a JavaScript `Map` iterates in). */
  method GroupByTerm(pairs: seq<IntermediatePair>)
    returns (indexMap: map<string, set<nat>>, order: seq<string>)
    ensures indexMap.Keys == Terms(pairs)
    ensures forall t :: t in indexMap ==> indexMap[t] == DocsOf(pairs, t)
    ensures forall t :: t in indexMap <==> t in order
    ensures forall k, l :: 0 <= k < l < |order| ==> order[k] != order[l]
  {
    indexMap := map[];
    order := [];
    for i := 0 to |pairs|
      invariant indexMap.Keys == Terms(pairs[..i])
      invariant forall t :: t in indexMap ==> indexMap[t] == DocsOf(pairs[..i], t)
      invariant forall t :: t in indexMap <==> t in order
      invariant forall k, l :: 0 <= k < l < |order| ==> order[k] != order[l]
    {
      var pair := pairs[i];
      assert pairs[..i + 1] == pairs[..i] + [pair];
      TermsSnoc(pairs[..i], pair);
      if pair.term !in indexMap {
        indexMap := indexMap[pair.term := {}];
        order := order + [pair.term];
      }
      indexMap := indexMap[pair.term := indexMap[pair.term] + {pair.docId}];
    }
    assert pairs[..|pairs|] == pairs;
  }

  /** `Array.from(indexMap.entries()).map(...)`: one entry per term, in map
      order, with its documents listed in increasing order. */
  method ListEntries(indexMap: map<string, set<nat>>, order: seq<string>)
    returns (entries: seq<DictionaryEntry>)
    requires forall t :: t in order ==> t in indexMap
    ensures |entries| == |order|
    ensures forall m :: 0 <= m < |order| ==> entries[m] == DictionaryEntry(order[m], SortedSet(indexMap[order[m]]))
  {
    entries := [];
    for k := 0 to |order|
      invariant |entries| == k
      invariant forall m :: 0 <= m < k ==> entries[m] == DictionaryEntry(order[m], SortedSet(indexMap[order[m]]))
    {
      entries := entries + [DictionaryEntry(order[k], SortedSet(indexMap[order[k]]))];
    }
  }

  /** `buildIndex`: group document ids by term in a map from term to set,
      list each set in increasing order, and sort the entries by term. The
      input does not need to be sorted. */
  method BuildIndex(sortedPairs: seq<IntermediatePair>) returns (dict: seq<DictionaryEntry>)
    ensures IsIndexOf(dict, sortedPairs)
  {
    var indexMap, order := GroupByTerm(sortedPairs);
    var entries := ListEntries(indexMap, order);
    assert DistinctKeys(entries, EntryKey);
    dict := SortBy(entries, EntryKey);
    SortBySorted(entries, EntryKey);
    SortByPermutes(entries, EntryKey);
    SortByDistinct(entries, EntryKey);
    IndexFromEntries(dict, entries, indexMap, order, sortedPairs);
  }

  /** The sorted entries meet IsIndexOf. */
  lemma IndexFromEntries(dict: seq<DictionaryEntry>, entries: seq<DictionaryEntry>,
                         indexMap: map<string, set<nat>>, order: seq<string>,
                         pairs: seq<IntermediatePair>)
    requires multiset(dict) == multiset(entries)
    requires SortedBy(dict, EntryKey) && DistinctKeys(dict, EntryKey)
    requires |entries| == |order|
    requires forall t :: t in indexMap <==> t in order
    requires forall m :: 0 <= m < |order| ==> entries[m] == DictionaryEntry(order[m], SortedSet(indexMap[order[m]]))
    requires indexMap.Keys == Terms(pairs)
    requires forall t :: t in indexMap ==> indexMap[t] == DocsOf(pairs, t)
    ensures IsIndexOf(dict, pairs)
  {
    forall e | e in dict
      ensures e.term in indexMap && e.postings == SortedSet(indexMap[e.term])
    {
      assert e in multiset(entries);
    }
    forall i, j | 0 <= i < j < |dict|
      ensures StrLess(dict[i].term, dict[j].term)
    {
      assert KeyLe(EntryKey(dict[i]), EntryKey(dict[j]));
      StrCmpEqual(dict[i].term, dict[j].term);
      assert dict[i] in dict && dict[j] in dict;
    }
    var dictTerms := set i | 0 <= i < |dict| :: dict[i].term;
    forall t | t in Terms(pairs)
      ensures t in dictTerms
    {
      var m :| 0 <= m < |order| && order[m] == t;
      assert entries[m] in multiset(dict);
      var i :| 0 <= i < |dict| && dict[i] == entries[m];
    }
    forall i | 0 <= i < |dict|
      ensures Ascending(dict[i].postings) && ToSet(dict[i].postings) == DocsOf(pairs, dict[i].term)
    {
      assert dict[i] in dict;
    }
  }

  lemma FirstIsMember<T>(s: seq<T>)
    ensures |s| > 0 ==> s[0] in s
  {
  }

  /** Two sequences strictly increasing under the same strict order and with
      the same members are equal. */
  lemma {:induction false} StrictlyIncreasingUnique<T>(a: seq<T>, b: seq<T>, less: (T, T) -> bool)
    requires forall x, y, z :: less(x, y) && less(y, z) ==> less(x, z)
    requires forall x :: !less(x, x)
    requires forall i, j :: 0 <= i < j < |a| ==> less(a[i], a[j])
    requires forall i, j :: 0 <= i < j < |b| ==> less(b[i], b[j])
    requires forall x :: x in a <==> x in b
    ensures a == b
  {
    FirstIsMember(b);
    if a == [] {
    } else {
      assert a[0] in b && b != [];
      assert b[0] in a;
      var i :| 0 <= i < |a| && a[i] == b[0];
      var j :| 0 <= j < |b| && b[j] == a[0];
      forall x
        ensures x in a[1..] <==> x in b[1..]
      {
        if x in a[1..] {
          var k :| 0 <= k < |a[1..]| && a[1..][k] == x;
          assert less(a[0], a[k + 1]);
          assert x in b;
        }
        if x in b[1..] {
          var k :| 0 <= k < |b[1..]| && b[1..][k] == x;
          assert less(b[0], b[k + 1]);
          assert x in a;
        }
      }
      StrictlyIncreasingUnique(a[1..], b[1..], less);
      assert a == [a[0]] + a[1..] && b == [b[0]] + b[1..];
    }
  }

  /** Pairs with the same members mention the same terms and documents. */
  lemma SamePairsSameGroups(p1: seq<IntermediatePair>, p2: seq<IntermediatePair>)
    requires multiset(p1) == multiset(p2)
    ensures Terms(p1) == Terms(p2)
    ensures forall t :: DocsOf(p1, t) == DocsOf(p2, t)
  {
    forall p
      ensures p in p1 <==> p in p2
    {
      assert p in p1 <==> p in multiset(p1);
      assert p in p2 <==> p in multiset(p2);
    }
  }

  /** StrLess is a strict order. */
  lemma StrLessStrict()
    ensures forall x, y, z :: StrLess(x, y) && StrLess(y, z) ==> StrLess(x, z)
    ensures forall x :: !StrLess(x, x)
  {
    forall x: string, y: string, z: string | StrLess(x, y) && StrLess(y, z)
      ensures StrLess(x, z)
    {
      StrCmpTransitive(x, y, z);
    }
    forall x: string
      ensures !StrLess(x, x)
    {
      StrLessTotal(x, x);
    }
  }

  /** The terms of a dictionary, in its order. */
  function TermList(d: seq<DictionaryEntry>): (r: seq<string>)
    ensures |r| == |d| && forall i :: 0 <= i < |d| ==> r[i] == d[i].term
    ensures forall x :: x in r <==> x in (set i | 0 <= i < |d| :: d[i].term)
  {
    var r := seq(|d|, i requires 0 <= i < |d| => d[i].term);
    assert forall x :: x in (set i | 0 <= i < |d| :: d[i].term) ==> x in r by {
      forall x | x in (set i | 0 <= i < |d| :: d[i].term)
        ensures x in r
      {
        var i :| 0 <= i < |d| && d[i].term == x;
        assert r[i] == x;
      }
    }
    r
  }

  /** The terms of an index are the terms of its pairs. */
  lemma IndexTerms(d: seq<DictionaryEntry>, p: seq<IntermediatePair>)
    requires IsIndexOf(d, p)
    ensures forall x :: x in TermList(d) <==> x in Terms(p)
  {
    var s := set i | 0 <= i < |d| :: d[i].term;
    assert s == Terms(p);
    forall x
      ensures x in TermList(d) <==> x in s
    {
    }
  }

  /** The index does not depend on the order of its input: pairs that are a
      permutation of each other have one and the same index. */
  lemma IndexUnique(d1: seq<DictionaryEntry>, p1: seq<IntermediatePair>,
                    d2: seq<DictionaryEntry>, p2: seq<IntermediatePair>)
    requires IsIndexOf(d1, p1) && IsIndexOf(d2, p2)
    requires multiset(p1) == multiset(p2)
    ensures d1 == d2
  {
    SamePairsSameGroups(p1, p2);
    StrLessStrict();
    var t1, t2 := TermList(d1), TermList(d2);
    assert forall i, j :: 0 <= i < j < |t1| ==> StrLess(t1[i], t1[j]);
    assert forall i, j :: 0 <= i < j < |t2| ==> StrLess(t2[i], t2[j]);
    IndexTerms(d1, p1);
    IndexTerms(d2, p2);
    StrictlyIncreasingUnique(t1, t2, StrLess);
    forall i | 0 <= i < |d1|
      ensures d1[i] == d2[i]
    {
      assert t1[i] == t2[i];
      var a, b := d1[i].postings, d2[i].postings;
      assert forall x :: x in a <==> x in ToSet(a);
      assert forall x :: x in b <==> x in ToSet(b);
      StrictlyIncreasingUnique(a, b, (x: nat, y: nat) => x < y);
    }
  }

  // ----------------------------------------------------------- searchIndex

  /** Entry `i` is the first one with `term`. */
  predicate FirstWith(index: seq<DictionaryEntry>, term: string, i: int)
  {
    0 <= i < |index| && index[i].term == term && forall j :: 0 <= j < i ==> index[j].term != term
  }

  /** `index.find(e => e.term === term)`: the first entry with that term. */
  function Find(index: seq<DictionaryEntry>, term: string): (r: Option<DictionaryEntry>)
    ensures r.None? <==> forall i :: 0 <= i < |index| ==> index[i].term != term
    ensures r.Some? ==> r.value in index && r.value.term == term
    ensures forall i :: FirstWith(index, term, i) ==> r == Some(index[i])
  {
    if index == [] then None
    else if index[0].term == term then Some(index[0])
    else Find(index[1..], term)
  }

  /** `searchIndex`: look the stem of the query's first token up. */
  function SearchIndex(query: string, index: seq<DictionaryEntry>): (r: seq<nat>)
    ensures Tokens(query) == [] ==> r == []
    ensures Tokens(query) != [] && (forall i :: 0 <= i < |index| ==> index[i].term != GetStem(Tokens(query)[0]))
      ==> r == []
    ensures Tokens(query) != [] ==>
      forall i :: FirstWith(index, GetStem(Tokens(query)[0]), i) ==> r == index[i].postings
    ensures r != [] ==> exists e :: e in index && e.postings == r
  {
    var tokens := Tokens(query);
    if |tokens| == 0 then []
    else
      match Find(index, GetStem(tokens[0]))
      case None => []
      case Some(e) => e.postings
  }

  /** On an index built from some pairs, a query returns, in increasing
      order, exactly the documents that contain a word with the same stem as
      its first token; a query without letters returns nothing. */
  lemma SearchIndexFinds(query: string, dict: seq<DictionaryEntry>, pairs: seq<IntermediatePair>)
    requires IsIndexOf(dict, pairs)
    requires Tokens(query) != []
    ensures Ascending(SearchIndex(query, dict))
    ensures ToSet(SearchIndex(query, dict)) == DocsOf(pairs, GetStem(Tokens(query)[0]))
  {
    var stem := GetStem(Tokens(query)[0]);
    match Find(dict, stem)
    case None =>
      assert stem !in (set i | 0 <= i < |dict| :: dict[i].term);
      assert forall p :: p in pairs ==> p.term in Terms(pairs);
    case Some(e) =>
      var i :| 0 <= i < |dict| && dict[i] == e;
  }
}
