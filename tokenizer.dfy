/** Tokenization: `text.toLowerCase().match(/[a-z]+/g) || []` in the web
    pipeline and `[a-zA-Z]+` over `text.to_lowercase()` in the Rust one, both
    read as a left-to-right scan for maximal runs of a-z. */
module Tokenizer {
  import opened Ascii

  /** Position just past the run of a-z characters starting at `i`. */
  function RunEnd(s: string, i: nat): (j: nat)
    requires i <= |s|
    ensures i <= j <= |s|
    ensures forall k :: i <= k < j ==> IsLower(s[k])
    ensures j < |s| ==> !IsLower(s[j])
    decreases |s| - i
  {
    if i == |s| || !IsLower(s[i]) then i else RunEnd(s, i + 1)
  }

  /** The global match of `[a-z]+`: a character that is not a-z is skipped;
      at an a-z character the longest run starting there is one match. */
  function Matches(s: string): seq<string>
    decreases |s|
  {
    if s == [] then []
    else if !IsLower(s[0]) then Matches(s[1..])
    else
      var j := RunEnd(s, 0);
      [s[..j]] + Matches(s[j..])
  }

  /** Lower-case the text, then match. */
  function Tokens(text: string): seq<string>
  {
    Matches(Lower(text))
  }

  /** RunEnd is pinned down by its contract. */
  lemma RunEndIs(s: string, i: nat, j: nat)
    requires i <= j <= |s|
    requires forall k :: i <= k < j ==> IsLower(s[k])
    requires j < |s| ==> !IsLower(s[j])
    ensures RunEnd(s, i) == j
  {
  }

  /** Characters that are not a-z in front of a text do not change its
      matches. */
  lemma {:induction false} MatchesSkip(p: string, s: string)
    requires forall k :: 0 <= k < |p| ==> !IsLower(p[k])
    ensures Matches(p + s) == Matches(s)
  {
    if p == [] {
      assert p + s == s;
    } else {
      assert (p + s)[0] == p[0];
      assert (p + s)[1..] == p[1..] + s;
      MatchesSkip(p[1..], s);
    }
  }

  /** A text with no a-z character has no match, and only such a text. */
  lemma {:induction false} MatchesEmpty(s: string)
    ensures Matches(s) == [] <==> forall k :: 0 <= k < |s| ==> !IsLower(s[k])
  {
    if s != [] && !IsLower(s[0]) {
      MatchesEmpty(s[1..]);
      if forall k :: 0 <= k < |s[1..]| ==> !IsLower(s[1..][k]) {
        forall k | 0 <= k < |s|
          ensures !IsLower(s[k])
        {
          if k > 0 {
            assert s[k] == s[1..][k - 1];
          }
        }
      }
    }
  }

  /** A lower-case word is its own single match. */
  lemma MatchesWord(w: string)
    requires |w| > 0 && AllLower(w)
    ensures Matches(w) == [w]
  {
    RunEndIs(w, 0, |w|);
    assert w[|w|..] == [];
    assert w[..|w|] == w;
  }

  /** Every match is a nonempty run of a-z. */
  lemma {:induction false} MatchesWellFormed(s: string)
    ensures forall t :: t in Matches(s) ==> |t| > 0 && AllLower(t)
    decreases |s|
  {
    if s != [] {
      if !IsLower(s[0]) {
        MatchesWellFormed(s[1..]);
      } else {
        MatchesWellFormed(s[RunEnd(s, 0)..]);
      }
    }
  }

  /** A separator splits a text into two independently matched halves:
      no match spans it and none is lost. */
  lemma {:induction false} MatchesSplit(a: string, c: char, b: string)
    requires !IsLower(c)
    ensures Matches(a + [c] + b) == Matches(a) + Matches(b)
    decreases |a|
  {
    var t := a + [c] + b;
    if a == [] {
      assert t == [c] + b;
      assert t[1..] == b;
    } else if !IsLower(a[0]) {
      assert t[0] == a[0];
      assert t[1..] == a[1..] + [c] + b;
      MatchesSplit(a[1..], c, b);
    } else {
      var j := RunEnd(a, 0);
      forall k | 0 <= k < j
        ensures IsLower(t[k])
      {
        assert t[k] == a[k];
      }
      assert t[j] == if j < |a| then a[j] else c;
      RunEndIs(t, 0, j);
      assert t[..j] == a[..j];
      assert t[j..] == a[j..] + [c] + b;
      MatchesSplit(a[j..], c, b);
    }
  }

  /** After ASCII lower-casing no A-Z is left, so the Rust pattern
      `[a-zA-Z]+` and the web pattern `[a-z]+` match the same runs. */
  lemma LowerLeavesNoUpper(text: string)
    ensures forall k :: 0 <= k < |Lower(text)| ==> !IsUpper(Lower(text)[k])
  {
  }
}
