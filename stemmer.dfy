/** The Porter stemmer of the presentation layer: steps 1a, 1b, 1c, 2, 3, 4
    and 5 of M. F. Porter, "An algorithm for suffix stripping" (1980), with
    the program's own (shorter) rule lists for steps 2 and 4. Each step is an
    if/else-if chain over the current word; here a chain is a rule table and
    only the first rule whose suffix ends the word is ever tried. */
module Stemmer {
  import opened Wrappers
  import opened Ascii
  import opened PorterMeasure

  predicate EndsWith(s: string, suffix: string)
  {
    |suffix| <= |s| && s[|s| - |suffix|..] == suffix
  }

  /** `slice(0, -n)` on a word at least `n` long. */
  function DropLast(s: string, n: nat): (r: string)
    requires n <= |s|
    ensures |r| == |s| - n
    ensures forall i :: 0 <= i < |r| ==> r[i] == s[i]
  {
    s[..|s| - n]
  }

  predicate OccursAt(s: string, pat: string, i: nat)
  {
    i + |pat| <= |s| && s[i..i + |pat|] == pat
  }

  /** The first index at or after `from` where `pat` occurs. */
  function IndexOfFrom(s: string, pat: string, from: nat): (r: Option<nat>)
    ensures r.Some? ==> from <= r.value && OccursAt(s, pat, r.value)
    ensures r.Some? ==> forall j :: from <= j < r.value ==> !OccursAt(s, pat, j)
    ensures r.None? ==> forall j :: from <= j ==> !OccursAt(s, pat, j)
    decreases |s| - from
  {
    if from + |pat| > |s| then None
    else if OccursAt(s, pat, from) then Some(from)
    else IndexOfFrom(s, pat, from + 1)
  }

  /** `String.prototype.replace` with a string pattern and a replacement
      without `$`: only the first occurrence of `pat` is replaced. */
  function ReplaceFirst(s: string, pat: string, repl: string): string
  {
    match IndexOfFrom(s, pat, 0)
    case None => s
    case Some(i) => s[..i] + repl + s[i + |pat|..]
  }

  /** Replacing the first occurrence of a pattern that ends the word changes
      the length as replacing the ending would, and keeps the word lower-case. */
  lemma ReplaceFirstShape(s: string, pat: string, repl: string)
    requires EndsWith(s, pat)
    ensures |ReplaceFirst(s, pat, repl)| == |s| - |pat| + |repl|
    ensures AllLower(s) && AllLower(repl) ==> AllLower(ReplaceFirst(s, pat, repl))
  {
    assert OccursAt(s, pat, |s| - |pat|);
  }

  /** When the pattern occurs nowhere before the end of the word, replacing
      its first occurrence is replacing the ending. */
  lemma ReplaceFirstAtSuffix(s: string, pat: string, repl: string)
    requires EndsWith(s, pat)
    requires forall j: nat :: j + |pat| < |s| ==> !OccursAt(s, pat, j)
    ensures ReplaceFirst(s, pat, repl) == DropLast(s, |pat|) + repl
  {
    assert OccursAt(s, pat, |s| - |pat|);
  }

  /** When the pattern also occurs earlier, an occurrence at or before that
      earlier one is replaced instead of the ending. */
  lemma ReplaceFirstEarlier(s: string, pat: string, repl: string, j: nat)
    requires EndsWith(s, pat)
    requires j + |pat| < |s| && OccursAt(s, pat, j)
    ensures exists i: nat :: i <= j && ReplaceFirst(s, pat, repl) == s[..i] + repl + s[i + |pat|..]
  {
    var i := IndexOfFrom(s, pat, 0).value;
    assert i <= j;
    assert ReplaceFirst(s, pat, repl) == s[..i] + repl + s[i + |pat|..];
  }

  /** How steps 2 and 3 rewrite the matched suffix: the program calls
      `word.replace(suffix, repl)`, which rewrites the first occurrence
      (FirstOccurrence); the algorithm means the ending (SuffixOnly). */
  datatype Rewrite = FirstOccurrence | SuffixOnly

  function Rewritten(w: string, suffix: string, repl: string, mode: Rewrite): (r: string)
    requires EndsWith(w, suffix)
    ensures |r| == |w| - |suffix| + |repl|
    ensures AllLower(w) && AllLower(repl) ==> AllLower(r)
  {
    ReplaceFirstShape(w, suffix, repl);
    match mode
    case FirstOccurrence => ReplaceFirst(w, suffix, repl)
    case SuffixOnly => DropLast(w, |suffix|) + repl
  }

  /** One link of the chains of steps 2, 3 and 4, taken once its suffix has
      matched: rewrite when the measure of what precedes the suffix exceeds
      `minMeasure`, otherwise leave the word as it is (the chain does not go
      on to the next suffix). */
  function Guarded(w: string, suffix: string, repl: string, minMeasure: nat, mode: Rewrite): (r: string)
    requires EndsWith(w, suffix)
  {
    if Measure(DropLast(w, |suffix|)) > minMeasure then Rewritten(w, suffix, repl, mode) else w
  }

  /** Step 1a: plurals. */
  function Step1a(w: string): (r: string)
    ensures |r| <= |w|
    ensures AllLower(w) ==> AllLower(r)
  {
    if EndsWith(w, "sses") then DropLast(w, 2)
    else if EndsWith(w, "ies") then DropLast(w, 2)
    else if EndsWith(w, "ss") then w
    else if EndsWith(w, "s") then DropLast(w, 1)
    else w
  }

  /** The clean-up after a successful `ed` or `ing` removal. */
  function Step1bCleanup(w: string): (r: string)
    ensures |r| <= |w| + 1
    ensures AllLower(w) ==> AllLower(r)
  {
    if EndsWith(w, "at") then w + "e"
    else if EndsWith(w, "bl") then w + "e"
    else if EndsWith(w, "iz") then w + "e"
    else if EndsWithDoubleConsonant(w) && w[|w| - 1] !in "lsz" then DropLast(w, 1)
    else if Measure(w) == 1 && Cvc(w) then w + "e"
    else w
  }

  /** Step 1b: `eed`, `ed` and `ing`; the clean-up runs only after `ed` or
      `ing` was removed. */
  function Step1b(w: string): (r: string)
    ensures |r| <= |w|
    ensures AllLower(w) ==> AllLower(r)
  {
    if EndsWith(w, "eed") then
      (if Measure(DropLast(w, 3)) > 0 then DropLast(w, 3) + "ee" else w)
    else if EndsWith(w, "ed") then
      (if HasVowel(DropLast(w, 2)) then Step1bCleanup(DropLast(w, 2)) else w)
    else if EndsWith(w, "ing") then
      (if HasVowel(DropLast(w, 3)) then Step1bCleanup(DropLast(w, 3)) else w)
    else w
  }

  /** Step 1c: a final `y` after a stem with a vowel becomes `i`. */
  function Step1c(w: string): (r: string)
    ensures |r| == |w|
    ensures AllLower(w) ==> AllLower(r)
  {
    if EndsWith(w, "y") && HasVowel(DropLast(w, 1)) then DropLast(w, 1) + "i" else w
  }

  /** The replacement strings of steps 2 and 3 are lower-case. */
  lemma ReplacementsLower()
    ensures AllLower("ate") && AllLower("tion") && AllLower("ence") && AllLower("ance")
    ensures AllLower("ize") && AllLower("able") && AllLower("al") && AllLower("ent")
    ensures AllLower("e") && AllLower("ous") && AllLower("ic") && AllLower("")
  {
  }

  /** Step 2: double suffixes; `ational` is tested before `tional`. */
  function Step2(w: string, mode: Rewrite): (r: string)
    ensures |r| <= |w|
    ensures AllLower(w) ==> AllLower(r)
  {
    ReplacementsLower();
    if EndsWith(w, "ational") then Guarded(w, "ational", "ate", 0, mode)
    else if EndsWith(w, "tional") then Guarded(w, "tional", "tion", 0, mode)
    else if EndsWith(w, "enci") then Guarded(w, "enci", "ence", 0, mode)
    else if EndsWith(w, "anci") then Guarded(w, "anci", "ance", 0, mode)
    else if EndsWith(w, "izer") then Guarded(w, "izer", "ize", 0, mode)
    else if EndsWith(w, "abli") then Guarded(w, "abli", "able", 0, mode)
    else if EndsWith(w, "alli") then Guarded(w, "alli", "al", 0, mode)
    else if EndsWith(w, "entli") then Guarded(w, "entli", "ent", 0, mode)
    else if EndsWith(w, "eli") then Guarded(w, "eli", "e", 0, mode)
    else if EndsWith(w, "ousli") then Guarded(w, "ousli", "ous", 0, mode)
    else w
  }

  /** Step 3: `-ic-`, `-full`, `-ness` and the like. */
  function Step3(w: string, mode: Rewrite): (r: string)
    ensures |r| <= |w|
    ensures AllLower(w) ==> AllLower(r)
  {
    if EndsWith(w, "icate") then Guarded(w, "icate", "ic", 0, mode)
    else if EndsWith(w, "ative") then Guarded(w, "ative", "", 0, mode)
    else if EndsWith(w, "alize") then Guarded(w, "alize", "al", 0, mode)
    else if EndsWith(w, "iciti") then Guarded(w, "iciti", "ic", 0, mode)
    else if EndsWith(w, "ical") then Guarded(w, "ical", "ic", 0, mode)
    else if EndsWith(w, "ful") then Guarded(w, "ful", "", 0, mode)
    else if EndsWith(w, "ness") then Guarded(w, "ness", "", 0, mode)
    else w
  }

  /** Step 4 removes the suffix (`slice`) when m > 1 before it; `ement` is
      tested before `ment` and `ent`. It never has the first-occurrence
      behaviour of steps 2 and 3. */
  function Step4(w: string): (r: string)
    ensures |r| <= |w|
    ensures AllLower(w) ==> AllLower(r)
  {
    if EndsWith(w, "al") then Guarded(w, "al", "", 1, SuffixOnly)
    else if EndsWith(w, "ance") then Guarded(w, "ance", "", 1, SuffixOnly)
    else if EndsWith(w, "ence") then Guarded(w, "ence", "", 1, SuffixOnly)
    else if EndsWith(w, "er") then Guarded(w, "er", "", 1, SuffixOnly)
    else if EndsWith(w, "ic") then Guarded(w, "ic", "", 1, SuffixOnly)
    else if EndsWith(w, "able") then Guarded(w, "able", "", 1, SuffixOnly)
    else if EndsWith(w, "ible") then Guarded(w, "ible", "", 1, SuffixOnly)
    else if EndsWith(w, "ant") then Guarded(w, "ant", "", 1, SuffixOnly)
    else if EndsWith(w, "ement") then Guarded(w, "ement", "", 1, SuffixOnly)
    else if EndsWith(w, "ment") then Guarded(w, "ment", "", 1, SuffixOnly)
    else if EndsWith(w, "ent") then Guarded(w, "ent", "", 1, SuffixOnly)
    else if EndsWith(w, "ou") then Guarded(w, "ou", "", 1, SuffixOnly)
    else if EndsWith(w, "ism") then Guarded(w, "ism", "", 1, SuffixOnly)
    else if EndsWith(w, "ate") then Guarded(w, "ate", "", 1, SuffixOnly)
    else if EndsWith(w, "iti") then Guarded(w, "iti", "", 1, SuffixOnly)
    else if EndsWith(w, "ous") then Guarded(w, "ous", "", 1, SuffixOnly)
    else if EndsWith(w, "ive") then Guarded(w, "ive", "", 1, SuffixOnly)
    else if EndsWith(w, "ize") then Guarded(w, "ize", "", 1, SuffixOnly)
    else w
  }

  /** Step 5, first half: a final `e`. */
  function Step5a(w: string): (r: string)
    ensures |r| <= |w|
    ensures AllLower(w) ==> AllLower(r)
  {
    if EndsWith(w, "e") then
      (var stem := DropLast(w, 1);
       if Measure(stem) > 1 then stem
       else if Measure(stem) == 1 && !Cvc(stem) then stem
       else w)
    else w
  }

  /** Step 5, second half: a final double `l`. */
  function Step5b(w: string): (r: string)
    ensures |r| <= |w|
    ensures AllLower(w) ==> AllLower(r)
  {
    if Measure(w) > 1 && EndsWithDoubleConsonant(w) && EndsWith(w, "l") then DropLast(w, 1) else w
  }

  /** `porterStemmer` with steps 2 and 3 rewriting as `mode` says. Words
      shorter than three characters come back unchanged, not lower-cased. */
  function StemWith(w: string, mode: Rewrite): (r: string)
    ensures |w| < 3 ==> r == w
    ensures |r| <= |w|
    ensures |w| >= 3 && AllLetters(w) ==> AllLower(r)
  {
    if |w| < 3 then w
    else
      var word := Lower(w);
      var w1 := Step1b(Step1a(word));
      var w2 := Step2(Step1c(w1), mode);
      Step5b(Step5a(Step4(Step3(w2, mode))))
  }

  /** `porterStemmer` as the program writes it: steps 2 and 3 replace the
      first occurrence of the matched suffix. */
  function StemAsWritten(w: string): (r: string)
    ensures |w| < 3 ==> r == w
    ensures |r| <= |w|
    ensures |w| >= 3 && AllLetters(w) ==> AllLower(r)
  {
    StemWith(w, FirstOccurrence)
  }

  /** `porterStemmer` with steps 2 and 3 rewriting the ending, as the
      algorithm intends; the rest of the model uses this one. */
  function Stem(w: string): (r: string)
    ensures |w| < 3 ==> r == w
    ensures |r| <= |w|
    ensures |w| >= 3 && AllLetters(w) ==> AllLower(r)
  {
    StemWith(w, SuffixOnly)
  }
}
