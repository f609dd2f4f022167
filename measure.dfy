/** The consonant/vowel helpers of the Porter stemmer: the recursive
    classification of a letter, the measure m of a word written [C](VC)^m[V],
    and the length-gated predicates on a word's ending. */
module PorterMeasure {

  predicate IsVowelLetter(c: char) { c in "aeiou" }

  /** `isConsonant`: a, e, i, o, u are vowels; a `y` is a consonant at the
      start of the word and otherwise exactly when the letter before it is
      not; every other character is a consonant. */
  function IsConsonant(s: string, i: nat): (r: bool)
    requires i < |s|
    ensures IsVowelLetter(s[i]) ==> !r
    ensures !IsVowelLetter(s[i]) && s[i] != 'y' ==> r
    ensures s[i] == 'y' && i == 0 ==> r
    decreases i
  {
    if IsVowelLetter(s[i]) then false
    else if s[i] == 'y' then (if i == 0 then true else !IsConsonant(s, i - 1))
    else true
  }

  /** Index of the first `y` of the run of `y`s that ends at `i`. */
  function YRunStart(s: string, i: nat): (j: nat)
    requires i < |s| && s[i] == 'y'
    ensures j <= i
    ensures forall k :: j <= k <= i ==> s[k] == 'y'
    ensures j == 0 || s[j - 1] != 'y'
    decreases i
  {
    if i > 0 && s[i - 1] == 'y' then YRunStart(s, i - 1) else i
  }

  /** Closed form of the recursive rule: along a run of `y`s the
      classification alternates, starting with consonant when the run opens
      the word or follows a vowel letter, and with vowel when it follows a
      consonant letter. */
  lemma {:induction false} YAlternates(s: string, i: nat)
    requires i < |s| && s[i] == 'y'
    ensures var j := YRunStart(s, i);
      IsConsonant(s, i) <==>
        (if j == 0 || IsVowelLetter(s[j - 1]) then (i - j) % 2 == 0 else (i - j) % 2 == 1)
    decreases i
  {
    if i > 0 && s[i - 1] == 'y' {
      YAlternates(s, i - 1);
    }
  }

  /** A VC boundary at `i`: a consonant right after a vowel. */
  predicate VCAt(s: string, i: nat)
    requires 0 < i < |s|
  {
    IsConsonant(s, i) && !IsConsonant(s, i - 1)
  }

  /** Number of VC boundaries among the first `n` letters. */
  function CountVC(s: string, n: nat): nat
    requires n <= |s|
  {
    if n <= 1 then 0 else CountVC(s, n - 1) + (if VCAt(s, n - 1) then 1 else 0)
  }

  /** The measure m of [C](VC)^m[V]: the number of vowel-to-consonant
      boundaries, that is, the number of consonant runs after the first vowel. */
  function Measure(s: string): nat
  {
    CountVC(s, |s|)
  }

  /** Some index below `n` is not a consonant. */
  predicate VowelBefore(s: string, n: nat)
    requires n <= |s|
  {
    n > 0 && (!IsConsonant(s, n - 1) || VowelBefore(s, n - 1))
  }

  /** The vowel test the steps use, written so that it unfolds on a known
      word; VowelIff states what it means. */
  predicate HasVowel(s: string)
  {
    VowelBefore(s, |s|)
  }

  lemma {:induction false} VowelBeforeIff(s: string, n: nat)
    requires n <= |s|
    ensures VowelBefore(s, n) <==> exists i :: 0 <= i < n && !IsConsonant(s, i)
  {
    if n > 0 {
      VowelBeforeIff(s, n - 1);
      if !IsConsonant(s, n - 1) {
        assert exists i :: 0 <= i < n && !IsConsonant(s, i) by {
          assert 0 <= n - 1 < n && !IsConsonant(s, n - 1);
        }
      } else if exists i :: 0 <= i < n && !IsConsonant(s, i) {
        var i :| 0 <= i < n && !IsConsonant(s, i);
        assert i < n - 1;
      }
    }
  }

  /** `HasVowel` holds exactly when some index is not a consonant. */
  lemma VowelIff(s: string)
    ensures HasVowel(s) <==> exists i :: 0 <= i < |s| && !IsConsonant(s, i)
  {
    VowelBeforeIff(s, |s|);
  }

  lemma {:induction false} CountVCBound(s: string, n: nat)
    requires n <= |s|
    ensures 2 * CountVC(s, n) <= n
    ensures n > 0 && !IsConsonant(s, n - 1) ==> 2 * CountVC(s, n) <= n - 1
  {
    if n > 1 {
      CountVCBound(s, n - 1);
      if VCAt(s, n - 1) && n > 2 {
        CountVCBound(s, n - 2);
      }
    }
  }

  /** m never exceeds half the length of the word. */
  lemma MeasureBound(s: string)
    ensures Measure(s) <= |s| / 2
  {
    CountVCBound(s, |s|);
  }

  lemma {:induction false} CountVCNoVowel(s: string, n: nat)
    requires n <= |s|
    requires forall i :: 0 <= i < n ==> IsConsonant(s, i)
    ensures CountVC(s, n) == 0
  {
    if n > 1 {
      CountVCNoVowel(s, n - 1);
    }
  }

  /** m is 0 for a word with no vowel, the empty word included. */
  lemma MeasureNoVowel(s: string)
    requires !HasVowel(s)
    ensures Measure(s) == 0
  {
    VowelIff(s);
    CountVCNoVowel(s, |s|);
  }

  /** `getMeasure`: skip the leading consonants, then count one for every
      consonant run met after a vowel. */
  method GetMeasure(s: string) returns (m: nat)
    ensures m == Measure(s)
  {
    m := 0;
    var i := 0;
    var len := |s|;
    while i < len
      invariant 0 <= i <= len
      invariant forall k :: 0 <= k < i ==> IsConsonant(s, k)
    {
      if !IsConsonant(s, i) {
        break;
      }
      i := i + 1;
    }
    CountVCNoVowel(s, i);
    // from here on s[i - 1], when it exists, is a vowel or i == len
    while i < len
      invariant 0 <= i <= len
      invariant m == CountVC(s, i)
      invariant i < len ==> !IsConsonant(s, i) || i == 0 || !IsConsonant(s, i - 1)
    {
      if IsConsonant(s, i) {
        m := m + 1;
        i := i + 1;
        while i < len
          invariant 0 < i <= len
          invariant m == CountVC(s, i)
          invariant IsConsonant(s, i - 1)
        {
          if !IsConsonant(s, i) {
            break;
          }
          i := i + 1;
        }
      } else {
        i := i + 1;
      }
    }
  }

  /** `containsVowel`: scan for the first non-consonant. */
  method ContainsVowel(s: string) returns (r: bool)
    ensures r <==> exists i :: 0 <= i < |s| && !IsConsonant(s, i)
    ensures r <==> HasVowel(s)
  {
    VowelIff(s);
    for i := 0 to |s|
      invariant forall k :: 0 <= k < i ==> IsConsonant(s, k)
    {
      if !IsConsonant(s, i) {
        assert exists k :: 0 <= k < |s| && !IsConsonant(s, k) by {
          assert 0 <= i < |s| && !IsConsonant(s, i);
        }
        return true;
      }
    }
    return false;
  }

  /** `endsWithDoubleConsonant`: the last two characters are equal and the
      last is a consonant. */
  predicate EndsWithDoubleConsonant(s: string)
  {
    |s| >= 2 && s[|s| - 1] == s[|s| - 2] && IsConsonant(s, |s| - 1)
  }

  /** `cvc`: the last three characters are consonant, vowel, consonant and the
      last is not w, x or y. */
  predicate Cvc(s: string)
  {
    |s| >= 3 && IsConsonant(s, |s| - 3) && !IsConsonant(s, |s| - 2)
    && IsConsonant(s, |s| - 1) && s[|s| - 1] !in "wxy"
  }

  /** The length gates of the two ending predicates, and the w/x/y exclusion. */
  lemma EndingGates(s: string)
    ensures |s| < 2 ==> !EndsWithDoubleConsonant(s)
    ensures |s| < 3 ==> !Cvc(s)
    ensures |s| > 0 && s[|s| - 1] in "wxy" ==> !Cvc(s)
  {
  }
}
