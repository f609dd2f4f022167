/** Facts about the stemmer's rule chains: which rule a step picks, how the
    first-occurrence rewrite differs from a suffix rewrite, and the stems of
    known words. */
module StemmerFacts {
  import opened Wrappers
  import opened Ascii
  import opened PorterMeasure
  import opened Stemmer

  // ------------------------------------------------ reading a word's ending

  /** One differing character rules a suffix out. */
  lemma Mismatch(s: string, suffix: string, k: nat)
    requires k < |suffix|
    requires |suffix| <= |s| ==> s[|s| - |suffix| + k] != suffix[k]
    ensures !EndsWith(s, suffix)
  {
    if |suffix| <= |s| {
      assert s[|s| - |suffix|..][k] == s[|s| - |suffix| + k];
    }
  }

  lemma LastMismatch(s: string, suffix: string)
    requires 0 < |suffix| && 0 < |s|
    requires s[|s| - 1] != suffix[|suffix| - 1]
    ensures !EndsWith(s, suffix)
  {
    if |suffix| <= |s| {
      Mismatch(s, suffix, |suffix| - 1);
    }
  }

  lemma Step1aSkip(w: string)
    requires 0 < |w| && w[|w| - 1] != 's'
    ensures Step1a(w) == w
  {
    LastMismatch(w, "sses");
    LastMismatch(w, "ies");
    LastMismatch(w, "ss");
    LastMismatch(w, "s");
  }

  lemma Step1bSkip(w: string)
    requires 0 < |w| && w[|w| - 1] != 'd' && w[|w| - 1] != 'g'
    ensures Step1b(w) == w
  {
    LastMismatch(w, "eed");
    LastMismatch(w, "ed");
    LastMismatch(w, "ing");
  }

  lemma Step1cSkip(w: string)
    requires 0 < |w| && w[|w| - 1] != 'y'
    ensures Step1c(w) == w
  {
    LastMismatch(w, "y");
  }

  lemma Step2Skip(w: string, mode: Rewrite)
    requires 0 < |w| && w[|w| - 1] != 'l' && w[|w| - 1] != 'i' && w[|w| - 1] != 'r'
    ensures Step2(w, mode) == w
  {
    LastMismatch(w, "ational");
    LastMismatch(w, "tional");
    LastMismatch(w, "enci");
    LastMismatch(w, "anci");
    LastMismatch(w, "izer");
    LastMismatch(w, "abli");
    LastMismatch(w, "alli");
    LastMismatch(w, "entli");
    LastMismatch(w, "eli");
    LastMismatch(w, "ousli");
  }

  lemma Step3Skip(w: string, mode: Rewrite)
    requires 0 < |w| && w[|w| - 1] != 'e' && w[|w| - 1] != 'i'
    requires w[|w| - 1] != 'l' && w[|w| - 1] != 's'
    ensures Step3(w, mode) == w
  {
    LastMismatch(w, "icate");
    LastMismatch(w, "ative");
    LastMismatch(w, "alize");
    LastMismatch(w, "iciti");
    LastMismatch(w, "ical");
    LastMismatch(w, "ful");
    LastMismatch(w, "ness");
  }

  lemma Step4Skip(w: string)
    requires 0 < |w|
    requires var c := w[|w| - 1];
      c != 'l' && c != 'e' && c != 'r' && c != 'c' && c != 't'
      && c != 'u' && c != 'm' && c != 'i' && c != 's'
    ensures Step4(w) == w
  {
    LastMismatch(w, "al");
    LastMismatch(w, "ance");
    LastMismatch(w, "ence");
    LastMismatch(w, "er");
    LastMismatch(w, "ic");
    LastMismatch(w, "able");
    LastMismatch(w, "ible");
    LastMismatch(w, "ant");
    LastMismatch(w, "ement");
    LastMismatch(w, "ment");
    LastMismatch(w, "ent");
    LastMismatch(w, "ou");
    LastMismatch(w, "ism");
    LastMismatch(w, "ate");
    LastMismatch(w, "iti");
    LastMismatch(w, "ous");
    LastMismatch(w, "ive");
    LastMismatch(w, "ize");
  }

  lemma Step5Skip(w: string)
    requires 0 < |w| && w[|w| - 1] != 'e' && w[|w| - 1] != 'l'
    ensures Step5b(Step5a(w)) == w
  {
    LastMismatch(w, "e");
    LastMismatch(w, "l");
  }

  /** Steps 2 to 5 leave a word alone when its last letter ends none of
      their suffixes. */
  lemma LaterStepsSkip(w: string, mode: Rewrite)
    requires 0 < |w|
    requires var c := w[|w| - 1];
      c != 'l' && c != 'e' && c != 'r' && c != 'c' && c != 't'
      && c != 'u' && c != 'm' && c != 'i' && c != 's'
    ensures Step2(w, mode) == w
    ensures Step5b(Step5a(Step4(Step3(w, mode)))) == w
  {
    Step2Skip(w, mode);
    Step3Skip(w, mode);
    Step4Skip(w);
    Step5Skip(w);
  }

  /** Step 3 on a word ending in `e` can only take `icate`, `ative` or
      `alize`. */
  lemma Step3EndingE(w: string, mode: Rewrite)
    requires 0 < |w| && w[|w| - 1] == 'e'
    ensures Step3(w, mode) ==
      if EndsWith(w, "icate") then Guarded(w, "icate", "ic", 0, mode)
      else if EndsWith(w, "ative") then Guarded(w, "ative", "", 0, mode)
      else if EndsWith(w, "alize") then Guarded(w, "alize", "al", 0, mode)
      else w
  {
    LastMismatch(w, "iciti");
    LastMismatch(w, "ical");
    LastMismatch(w, "ful");
    LastMismatch(w, "ness");
  }

  /** Step 3 on a word ending in `i` can only take `iciti`. */
  lemma Step3EndingI(w: string, mode: Rewrite)
    requires 0 < |w| && w[|w| - 1] == 'i'
    ensures Step3(w, mode) ==
      if EndsWith(w, "iciti") then Guarded(w, "iciti", "ic", 0, mode) else w
  {
    LastMismatch(w, "icate");
    LastMismatch(w, "ative");
    LastMismatch(w, "alize");
    LastMismatch(w, "ical");
    LastMismatch(w, "ful");
    LastMismatch(w, "ness");
  }

  /** Step 4 on a word ending in `e` can only take one of the suffixes
      ending in `e`. */
  lemma Step4EndingE(w: string)
    requires 0 < |w| && w[|w| - 1] == 'e'
    ensures Step4(w) ==
      if EndsWith(w, "ance") then Guarded(w, "ance", "", 1, SuffixOnly)
      else if EndsWith(w, "ence") then Guarded(w, "ence", "", 1, SuffixOnly)
      else if EndsWith(w, "able") then Guarded(w, "able", "", 1, SuffixOnly)
      else if EndsWith(w, "ible") then Guarded(w, "ible", "", 1, SuffixOnly)
      else if EndsWith(w, "ate") then Guarded(w, "ate", "", 1, SuffixOnly)
      else if EndsWith(w, "ive") then Guarded(w, "ive", "", 1, SuffixOnly)
      else if EndsWith(w, "ize") then Guarded(w, "ize", "", 1, SuffixOnly)
      else w
  {
    LastMismatch(w, "al");
    LastMismatch(w, "er");
    LastMismatch(w, "ic");
    LastMismatch(w, "ant");
    LastMismatch(w, "ement");
    LastMismatch(w, "ment");
    LastMismatch(w, "ent");
    LastMismatch(w, "ou");
    LastMismatch(w, "ism");
    LastMismatch(w, "iti");
    LastMismatch(w, "ous");
  }

  /** A word ending in `ate` reaches the `ate` rule of step 4. */
  lemma Step4Ate(w: string)
    requires EndsWith(w, "ate")
    ensures Step4(w) == Guarded(w, "ate", "", 1, SuffixOnly)
  {
    var n := |w|;
    assert w[n - 3..] == "ate";
    assert w[n - 1] == 'e' && w[n - 2] == 't';
    LastMismatch(w, "al");
    LastMismatch(w, "er");
    LastMismatch(w, "ic");
    LastMismatch(w, "ant");
    LastMismatch(w, "ement");
    LastMismatch(w, "ment");
    LastMismatch(w, "ent");
    LastMismatch(w, "ou");
    LastMismatch(w, "ism");
    Mismatch(w, "ance", 2);
    Mismatch(w, "ence", 2);
    Mismatch(w, "able", 2);
    Mismatch(w, "ible", 2);
  }

  /** Step 3 leaves a word ending in `ate` but not `icate` alone. */
  lemma Step3Ate(w: string, mode: Rewrite)
    requires EndsWith(w, "ate") && !EndsWith(w, "icate")
    ensures Step3(w, mode) == w
  {
    var n := |w|;
    assert w[n - 3..] == "ate";
    assert w[n - 1] == 'e' && w[n - 2] == 't';
    LastMismatch(w, "iciti");
    LastMismatch(w, "ical");
    LastMismatch(w, "ful");
    LastMismatch(w, "ness");
    Mismatch(w, "ative", 3);
    Mismatch(w, "alize", 3);
  }

  /** Step 4 on a word ending in `i` can only take `iti`. */
  lemma Step4EndingI(w: string)
    requires 0 < |w| && w[|w| - 1] == 'i'
    ensures Step4(w) == if EndsWith(w, "iti") then Guarded(w, "iti", "", 1, SuffixOnly) else w
  {
    LastMismatch(w, "al");
    LastMismatch(w, "ance");
    LastMismatch(w, "ence");
    LastMismatch(w, "er");
    LastMismatch(w, "ic");
    LastMismatch(w, "able");
    LastMismatch(w, "ible");
    LastMismatch(w, "ant");
    LastMismatch(w, "ement");
    LastMismatch(w, "ment");
    LastMismatch(w, "ent");
    LastMismatch(w, "ou");
    LastMismatch(w, "ism");
    LastMismatch(w, "ate");
    LastMismatch(w, "ous");
    LastMismatch(w, "ive");
    LastMismatch(w, "ize");
  }

  /** Step 4 on a word ending in `s` can only take `ous`. */
  lemma Step4EndingS(w: string)
    requires 0 < |w| && w[|w| - 1] == 's'
    ensures Step4(w) == if EndsWith(w, "ous") then Guarded(w, "ous", "", 1, SuffixOnly) else w
  {
    LastMismatch(w, "al");
    LastMismatch(w, "ance");
    LastMismatch(w, "ence");
    LastMismatch(w, "er");
    LastMismatch(w, "ic");
    LastMismatch(w, "able");
    LastMismatch(w, "ible");
    LastMismatch(w, "ant");
    LastMismatch(w, "ement");
    LastMismatch(w, "ment");
    LastMismatch(w, "ent");
    LastMismatch(w, "ou");
    LastMismatch(w, "ism");
    LastMismatch(w, "ate");
    LastMismatch(w, "iti");
    LastMismatch(w, "ive");
    LastMismatch(w, "ize");
  }

  /** Step 4 on a word ending in `r` can only take `er`. */
  lemma Step4EndingR(w: string)
    requires 0 < |w| && w[|w| - 1] == 'r'
    ensures Step4(w) == if EndsWith(w, "er") then Guarded(w, "er", "", 1, SuffixOnly) else w
  {
    LastMismatch(w, "al");
    LastMismatch(w, "ance");
    LastMismatch(w, "ence");
    LastMismatch(w, "ic");
    LastMismatch(w, "able");
    LastMismatch(w, "ible");
    LastMismatch(w, "ant");
    LastMismatch(w, "ement");
    LastMismatch(w, "ment");
    LastMismatch(w, "ent");
    LastMismatch(w, "ou");
    LastMismatch(w, "ism");
    LastMismatch(w, "ate");
    LastMismatch(w, "iti");
    LastMismatch(w, "ous");
    LastMismatch(w, "ive");
    LastMismatch(w, "ize");
  }

  /** The stem of a lower-case word of three or more letters, from what the
      step-1 group, step 2 and steps 3 to 5 make of it. */
  lemma StemFrom(w: string, mode: Rewrite, first: string, second: string, r: string)
    requires |w| >= 3 && AllLower(w)
    requires Step1c(Step1b(Step1a(w))) == first
    requires Step2(first, mode) == second
    requires Step5b(Step5a(Step4(Step3(second, mode)))) == r
    ensures StemWith(w, mode) == r
  {
    LowerIdempotent(w);
  }

  // ----------------------------------------------------------- known stems

  lemma RunningStep1b()
    ensures Step1b("running") == "run"
  {
    var w := "running";
    LastMismatch(w, "eed");
    LastMismatch(w, "ed");
    assert EndsWith(w, "ing");
    assert DropLast(w, 3) == "runn";
    assert !IsConsonant("runn", 1);
    VowelIff("runn");
    var s := "runn";
    LastMismatch(s, "at");
    LastMismatch(s, "bl");
    LastMismatch(s, "iz");
    assert EndsWithDoubleConsonant(s);
    assert DropLast(s, 1) == "run";
  }

  lemma RunningFirst()
    ensures Step1c(Step1b(Step1a("running"))) == "run"
  {
    Step1aSkip("running");
    RunningStep1b();
    Step1cSkip("run");
  }

  lemma StemRunningWith(mode: Rewrite)
    ensures StemWith("running", mode) == "run"
  {
    assert AllLower("running");
    LowerIdempotent("running");
    RunningFirst();
    LaterStepsSkip("run", mode);
    StemFrom("running", mode, "run", "run", "run");
  }

  /** "running" loses `ing` and then one of its double consonants, in the
      program's stemmer and in the corrected one. */
  lemma StemRunning()
    ensures StemAsWritten("running") == "run"
    ensures Stem("running") == "run"
  {
    StemRunningWith(FirstOccurrence);
    StemRunningWith(SuffixOnly);
  }

  lemma CaressesFirst()
    ensures Step1c(Step1b(Step1a("caresses"))) == "caress"
  {
    var w := "caresses";
    assert EndsWith(w, "sses");
    assert DropLast(w, 2) == "caress";
    Step1bSkip("caress");
    Step1cSkip("caress");
  }

  lemma CaressStep3(mode: Rewrite)
    ensures Step3("caress", mode) == "caress"
  {
    var s := "caress";
    LastMismatch(s, "icate");
    LastMismatch(s, "ative");
    LastMismatch(s, "alize");
    LastMismatch(s, "iciti");
    LastMismatch(s, "ical");
    LastMismatch(s, "ful");
    Mismatch(s, "ness", 0);
  }

  lemma CaressLaterSteps(mode: Rewrite)
    ensures Step5b(Step5a(Step4(Step3("caress", mode)))) == "caress"
  {
    var s := "caress";
    CaressStep3(mode);
    Step4EndingS(s);
    Mismatch(s, "ous", 0);
    Step5Skip(s);
  }

  lemma StemCaressesWith(mode: Rewrite)
    ensures StemWith("caresses", mode) == "caress"
  {
    assert AllLower("caresses");
    LowerIdempotent("caresses");
    CaressesFirst();
    Step2Skip("caress", mode);
    CaressLaterSteps(mode);
    StemFrom("caresses", mode, "caress", "caress", "caress");
  }

  /** "caresses" loses `es` of its `sses` ending and keeps the rest. */
  lemma StemCaresses()
    ensures StemAsWritten("caresses") == "caress"
    ensures Stem("caresses") == "caress"
  {
    StemCaressesWith(FirstOccurrence);
    StemCaressesWith(SuffixOnly);
  }

  lemma PoniesFirst()
    ensures Step1c(Step1b(Step1a("ponies"))) == "poni"
  {
    var w := "ponies";
    Mismatch(w, "sses", 0);
    assert EndsWith(w, "ies");
    assert DropLast(w, 2) == "poni";
    Step1bSkip("poni");
    Step1cSkip("poni");
  }

  lemma PoniStep2(mode: Rewrite)
    ensures Step2("poni", mode) == "poni"
  {
    var s := "poni";
    LastMismatch(s, "ational");
    LastMismatch(s, "tional");
    Mismatch(s, "enci", 2);
    Mismatch(s, "anci", 2);
    LastMismatch(s, "izer");
    Mismatch(s, "abli", 2);
    Mismatch(s, "alli", 2);
    Mismatch(s, "eli", 1);
  }

  lemma PoniLaterSteps(mode: Rewrite)
    ensures Step5b(Step5a(Step4(Step3("poni", mode)))) == "poni"
  {
    var s := "poni";
    Step3EndingI(s, mode);
    Step4EndingI(s);
    Mismatch(s, "iti", 0);
    Step5Skip(s);
  }

  lemma StemPoniesWith(mode: Rewrite)
    ensures StemWith("ponies", mode) == "poni"
  {
    assert AllLower("ponies");
    LowerIdempotent("ponies");
    PoniesFirst();
    PoniStep2(mode);
    PoniLaterSteps(mode);
    StemFrom("ponies", mode, "poni", "poni", "poni");
  }

  /** "ponies" turns its `ies` into `i`. */
  lemma StemPonies()
    ensures StemAsWritten("ponies") == "poni"
    ensures Stem("ponies") == "poni"
  {
    StemPoniesWith(FirstOccurrence);
    StemPoniesWith(SuffixOnly);
  }

  lemma RelationalFirst()
    ensures Step1c(Step1b(Step1a("relational"))) == "relational"
  {
    var w := "relational";
    Step1aSkip(w);
    Step1bSkip(w);
    Step1cSkip(w);
  }

  /** Step 2 turns "relational" into "relate". */
  lemma RelationalStep2()
    ensures Step2("relational", SuffixOnly) == "relate"
  {
    var w := "relational";
    assert EndsWith(w, "ational");
    assert DropLast(w, 7) == "rel";
    assert CountVC("rel", 3) == 1;
    assert "rel" + "ate" == "relate";
  }

  /** `ational` occurs in "relational" only at its end, so `replace`
      rewrites the ending there. */
  lemma RelationalOnlyAtEnd()
    ensures Rewritten("relational", "ational", "ate", FirstOccurrence)
         == Rewritten("relational", "ational", "ate", SuffixOnly)
  {
    var w := "relational";
    assert EndsWith(w, "ational");
    forall j: nat | j + |"ational"| < |w|
      ensures !OccursAt(w, "ational", j)
    {
      assert w[j] != 'a';
    }
    RewriteModesAgree(w, "ational", "ate");
  }

  lemma RelationalStep2AsWritten()
    ensures Step2("relational", FirstOccurrence) == "relate"
  {
    var w := "relational";
    AtionalShadowsTional(w, FirstOccurrence);
    AtionalShadowsTional(w, SuffixOnly);
    RelationalOnlyAtEnd();
    RelationalStep2();
  }

  lemma RelateStep3(mode: Rewrite)
    ensures Step3("relate", mode) == "relate"
  {
    var s := "relate";
    assert EndsWith(s, "ate");
    Mismatch(s, "icate", 0);
    Step3Ate(s, mode);
  }

  lemma RelateStep4()
    ensures Step4("relate") == "relate"
  {
    var s := "relate";
    assert EndsWith(s, "ate");
    Step4Ate(s);
    assert DropLast(s, 3) == "rel";
    assert CountVC("rel", 3) == 1;
  }

  lemma RelateStep5()
    ensures Step5b(Step5a("relate")) == "relat"
  {
    var s := "relate";
    assert EndsWith(s, "e");
    assert DropLast(s, 1) == "relat";
    assert CountVC("relat", 5) == 2;
    LastMismatch("relat", "l");
  }

  lemma StemRelationalWith(mode: Rewrite)
    requires Step2("relational", mode) == "relate"
    ensures StemWith("relational", mode) == "relat"
  {
    assert AllLower("relational");
    LowerIdempotent("relational");
    RelationalFirst();
    RelateStep3(mode);
    RelateStep4();
    RelateStep5();
    StemFrom("relational", mode, "relational", "relate", "relat");
  }

  /** "relational" becomes "relate" in step 2, and step 5 then drops the
      final `e`: the result is "relat". */
  lemma StemRelational()
    ensures StemAsWritten("relational") == "relat"
    ensures Stem("relational") == "relat"
  {
    RelationalStep2AsWritten();
    StemRelationalWith(FirstOccurrence);
    RelationalStep2();
    StemRelationalWith(SuffixOnly);
  }

  lemma NobleFirst(mode: Rewrite)
    ensures Step1c(Step1b(Step1a("noble"))) == "noble"
    ensures Step2("noble", mode) == "noble"
  {
    var w := "noble";
    Step1aSkip(w);
    Step1bSkip(w);
    Step1cSkip(w);
    Step2Skip(w, mode);
  }

  lemma NobleStep3(mode: Rewrite)
    ensures Step3("noble", mode) == "noble"
  {
    var s := "noble";
    Step3EndingE(s, mode);
    Mismatch(s, "icate", 0);
    Mismatch(s, "ative", 0);
    Mismatch(s, "alize", 0);
  }

  lemma NobleStep4()
    ensures Step4("noble") == "noble"
  {
    var s := "noble";
    Step4EndingE(s);
    Mismatch(s, "ance", 0);
    Mismatch(s, "ence", 0);
    Mismatch(s, "able", 0);
    Mismatch(s, "ible", 0);
    Mismatch(s, "ate", 0);
    Mismatch(s, "ive", 0);
    Mismatch(s, "ize", 0);
  }

  lemma NobleStep5()
    ensures Step5b(Step5a("noble")) == "nobl"
  {
    var s := "noble";
    assert EndsWith(s, "e");
    assert DropLast(s, 1) == "nobl";
    assert CountVC("nobl", 4) == 1;
    assert !IsConsonant("nobl", 1);
  }

  /** "noble" keeps its `ble` through step 4 and loses the `e` in step 5,
      since m("nobl") = 1 and "nobl" does not end consonant-vowel-consonant. */
  lemma StemNoble()
    ensures StemAsWritten("noble") == "nobl"
    ensures Stem("noble") == "nobl"
  {
    StemNobleWith(FirstOccurrence);
    StemNobleWith(SuffixOnly);
  }

  lemma StemNobleWith(mode: Rewrite)
    ensures StemWith("noble", mode) == "nobl"
  {
    assert AllLower("noble");
    LowerIdempotent("noble");
    NobleFirst(mode);
    NobleStep3(mode);
    NobleStep4();
    NobleStep5();
    StemFrom("noble", mode, "noble", "noble", "nobl");
  }

  lemma InterredStep1b()
    ensures Step1b("interred") == "inter"
  {
    var w := "interred";
    Mismatch(w, "eed", 0);
    assert EndsWith(w, "ed");
    assert DropLast(w, 2) == "interr";
    var s := "interr";
    assert !IsConsonant(s, 0);
    VowelIff(s);
    assert HasVowel(s);
    LastMismatch(s, "at");
    LastMismatch(s, "bl");
    LastMismatch(s, "iz");
    assert EndsWithDoubleConsonant(s);
    assert s[|s| - 1] !in "lsz";
    assert DropLast(s, 1) == "inter";
    assert Step1bCleanup(s) == "inter";
    assert Step1b(w) == Step1bCleanup(s);
  }

  lemma InterredFirst()
    ensures Step1c(Step1b(Step1a("interred"))) == "inter"
  {
    Step1aSkip("interred");
    InterredStep1b();
    Step1cSkip("inter");
  }

  lemma InterStep2(mode: Rewrite)
    ensures Step2("inter", mode) == "inter"
  {
    var s := "inter";
    LastMismatch(s, "ational");
    LastMismatch(s, "tional");
    LastMismatch(s, "enci");
    LastMismatch(s, "anci");
    Mismatch(s, "izer", 0);
    LastMismatch(s, "abli");
    LastMismatch(s, "alli");
    LastMismatch(s, "entli");
    LastMismatch(s, "eli");
    LastMismatch(s, "ousli");
  }

  lemma InterLaterSteps(mode: Rewrite)
    ensures Step5b(Step5a(Step4(Step3("inter", mode)))) == "inter"
  {
    var s := "inter";
    Step3Skip(s, mode);
    Step4EndingR(s);
    assert EndsWith(s, "er");
    assert DropLast(s, 2) == "int";
    assert CountVC("int", 3) == 1;
    Step5Skip(s);
  }

  /** "interred" loses `ed` and one `r`; step 4 matches `er` but m("int") = 1
      is too small to remove it. */
  lemma StemInterred()
    ensures StemAsWritten("interred") == "inter"
    ensures Stem("interred") == "inter"
  {
    StemInterredWith(FirstOccurrence);
    StemInterredWith(SuffixOnly);
  }

  lemma StemInterredWith(mode: Rewrite)
    ensures StemWith("interred", mode) == "inter"
  {
    assert AllLower("interred");
    LowerIdempotent("interred");
    InterredFirst();
    InterStep2(mode);
    InterLaterSteps(mode);
    StemFrom("interred", mode, "inter", "inter", "inter");
  }

  // ------------------------------------------ one rule per step, no fallback

  /** `ational` is tested first: a word ending in it is rewritten by that
      rule or left alone, never by `tional`. */
  lemma AtionalShadowsTional(w: string, mode: Rewrite)
    requires EndsWith(w, "ational")
    ensures Step2(w, mode) == (if Measure(DropLast(w, 7)) > 0 then Rewritten(w, "ational", "ate", mode) else w)
  {
  }

  /** `ement` comes before `ment` and `ent`: a word ending in `ement` loses
      those five letters when m > 1 before them and is otherwise left alone. */
  lemma EmentShadowsMentAndEnt(w: string)
    requires EndsWith(w, "ement")
    ensures Step4(w) == (if Measure(DropLast(w, 5)) > 1 then DropLast(w, 5) else w)
  {
    var n := |w|;
    assert w[n - 5..] == "ement";
    assert w[n - 1] == 't' && w[n - 3] == 'e';
    LastMismatch(w, "al");
    LastMismatch(w, "ance");
    LastMismatch(w, "ence");
    LastMismatch(w, "er");
    LastMismatch(w, "ic");
    LastMismatch(w, "able");
    LastMismatch(w, "ible");
    Mismatch(w, "ant", 0);
  }

  /** "element": m("el") = 1 keeps the word whole, where `ent` alone would
      have cut it to "elem". */
  lemma ElementKept()
    ensures Step4("element") == "element"
    ensures EndsWith("element", "ent") && Measure(DropLast("element", 3)) > 1
  {
    var w := "element";
    assert EndsWith(w, "ement");
    EmentShadowsMentAndEnt(w);
    assert DropLast(w, 5) == "el";
    assert CountVC("el", 2) == 1;
    assert EndsWith(w, "ent");
    assert DropLast(w, 3) == "elem";
    assert CountVC("elem", 4) == 2;
  }

  /** "feed" matches `eed` with m("f") = 0 and stays as it is; the `ed` rule
      is not tried. */
  lemma FeedKept()
    ensures Step1b("feed") == "feed"
    ensures EndsWith("feed", "ed") && HasVowel(DropLast("feed", 2))
  {
    var w := "feed";
    assert EndsWith(w, "eed");
    assert DropLast(w, 3) == "f";
    assert CountVC("f", 1) == 0;
    assert EndsWith(w, "ed");
    assert DropLast(w, 2) == "fe";
    assert !IsConsonant("fe", 1);
    VowelIff("fe");
  }

  // --------------------------------------- first occurrence versus ending

  /** When the matched suffix occurs nowhere earlier in the word, the
      program's first-occurrence rewrite and the suffix rewrite agree. */
  lemma RewriteModesAgree(w: string, suffix: string, repl: string)
    requires EndsWith(w, suffix)
    requires forall j: nat :: j + |suffix| < |w| ==> !OccursAt(w, suffix, j)
    ensures Rewritten(w, suffix, repl, FirstOccurrence) == Rewritten(w, suffix, repl, SuffixOnly)
  {
    ReplaceFirstAtSuffix(w, suffix, repl);
  }

  /** The suffix rewrite touches only the ending: the part of the word
      before the suffix is kept, and the result ends with the replacement. */
  lemma SuffixRewriteKeepsPrefix(w: string, suffix: string, repl: string)
    requires EndsWith(w, suffix)
    ensures var r := Rewritten(w, suffix, repl, SuffixOnly);
      r[..|w| - |suffix|] == w[..|w| - |suffix|] && EndsWith(r, repl)
  {
    var r := Rewritten(w, suffix, repl, SuffixOnly);
    assert r[|r| - |repl|..] == repl;
  }

  lemma DeliberatelyStep1()
    ensures Step1c(Step1b(Step1a("deliberately"))) == "deliberateli"
  {
    var w := "deliberately";
    Step1aSkip(w);
    Step1bSkip(w);
    assert EndsWith(w, "y");
    assert DropLast(w, 1) == "deliberatel";
    assert !IsConsonant("deliberatel", 1);
    VowelIff("deliberatel");
    assert "deliberatel" + "i" == "deliberateli";
  }

  lemma DeliberateliBeforeEli()
    ensures !EndsWith("deliberateli", "ational") && !EndsWith("deliberateli", "tional")
    ensures !EndsWith("deliberateli", "enci") && !EndsWith("deliberateli", "anci")
    ensures !EndsWith("deliberateli", "izer") && !EndsWith("deliberateli", "abli")
    ensures !EndsWith("deliberateli", "alli") && !EndsWith("deliberateli", "entli")
    ensures EndsWith("deliberateli", "eli")
  {
    var w := "deliberateli";
    LastMismatch(w, "ational");
    LastMismatch(w, "tional");
    Mismatch(w, "enci", 2);
    Mismatch(w, "anci", 2);
    LastMismatch(w, "izer");
    Mismatch(w, "abli", 1);
    Mismatch(w, "alli", 1);
    Mismatch(w, "entli", 0);
  }

  lemma DeliberatMeasure()
    ensures Measure(DropLast("deliberateli", 3)) == 4
  {
    assert DropLast("deliberateli", 3) == "deliberat";
    var s := "deliberat";
    assert CountVC(s, 3) == 1;
    assert CountVC(s, 5) == 2;
    assert CountVC(s, 7) == 3;
    assert CountVC(s, 9) == 4;
  }

  /** Step 2 on "deliberateli" picks `eli` (m("deliberat") = 4). */
  lemma DeliberateliMatchesEli(mode: Rewrite)
    ensures Step2("deliberateli", mode) == Rewritten("deliberateli", "eli", "e", mode)
  {
    DeliberateliBeforeEli();
    DeliberatMeasure();
  }

  /** Replacing the ending `eli` of "deliberateli" gives "deliberate". */
  lemma DeliberateliSuffixRewrite()
    ensures Rewritten("deliberateli", "eli", "e", SuffixOnly) == "deliberate"
  {
    assert DropLast("deliberateli", 3) == "deliberat";
    assert "deliberat" + "e" == "deliberate";
  }

  /** Replacing the first `eli` of "deliberateli" rewrites the one at index 1. */
  lemma DeliberateliFirstOccurrence()
    ensures Rewritten("deliberateli", "eli", "e", FirstOccurrence) == "deberateli"
  {
    var w := "deliberateli";
    assert !OccursAt(w, "eli", 0) by {
      assert w[0..3] == "del";
    }
    assert OccursAt(w, "eli", 1) by {
      assert w[1..4] == "eli";
    }
    assert IndexOfFrom(w, "eli", 0) == Some(1);
    assert w[..1] + "e" + w[4..] == "deberateli";
  }

  lemma DeliberateLaterSteps()
    ensures Step5b(Step5a(Step4(Step3("deliberate", SuffixOnly)))) == "deliber"
  {
    var s := "deliberate";
    assert EndsWith(s, "ate");
    Mismatch(s, "icate", 0);
    Step3Ate(s, SuffixOnly);
    DeliberateStep4();
    Step5Skip("deliber");
  }

  lemma DeliberMeasure()
    ensures Measure("deliber") == 3
  {
    var s := "deliber";
    assert CountVC(s, 3) == 1;
    assert CountVC(s, 5) == 2;
    assert CountVC(s, 7) == 3;
  }

  lemma DeliberateStep4()
    ensures Step4("deliberate") == "deliber"
  {
    var s := "deliberate";
    assert EndsWith(s, "ate");
    Step4Ate(s);
    assert DropLast(s, 3) == "deliber";
    DeliberMeasure();
  }

  lemma DeberateliStep3()
    ensures Step3("deberateli", FirstOccurrence) == "deberateli"
  {
    var s := "deberateli";
    Step3EndingI(s, FirstOccurrence);
    Mismatch(s, "iciti", 0);
  }

  lemma DeberateliStep4()
    ensures Step4("deberateli") == "deberateli"
  {
    var s := "deberateli";
    Step4EndingI(s);
    Mismatch(s, "iti", 0);
  }

  lemma DeberateliLaterSteps()
    ensures Step5b(Step5a(Step4(Step3("deberateli", FirstOccurrence)))) == "deberateli"
  {
    DeberateliStep3();
    DeberateliStep4();
    Step5Skip("deberateli");
  }

  /** The step-1 group and step 2 of each mode on "deliberately". */
  lemma DeliberatelyThroughStep2(mode: Rewrite)
    ensures Step1c(Step1b(Step1a("deliberately"))) == "deliberateli"
    ensures Step2("deliberateli", mode) == Rewritten("deliberateli", "eli", "e", mode)
  {
    DeliberatelyStep1();
    DeliberateliMatchesEli(mode);
  }

  /** As written, step 2 rewrites the first `eli` of "deliberately"'s
      step-1 result, in "d-eli-berateli", instead of the ending:
      "deliberately" stems to "deberateli". */
  lemma StemAsWrittenDeliberately()
    ensures StemAsWritten("deliberately") == "deberateli"
  {
    assert AllLower("deliberately");
    LowerIdempotent("deliberately");
    DeliberatelyThroughStep2(FirstOccurrence);
    DeliberateliFirstOccurrence();
    DeberateliLaterSteps();
    StemFrom("deliberately", FirstOccurrence, "deliberateli", "deberateli", "deberateli");
  }

  /** Rewriting only the ending, "deliberately" becomes "deliberateli",
      "deliberate" and finally "deliber". */
  lemma StemDeliberately()
    ensures Stem("deliberately") == "deliber"
  {
    assert AllLower("deliberately");
    LowerIdempotent("deliberately");
    DeliberatelyThroughStep2(SuffixOnly);
    DeliberateliSuffixRewrite();
    DeliberateLaterSteps();
    StemFrom("deliberately", SuffixOnly, "deliberateli", "deliberate", "deliber");
  }

  /** The program's stemmer and the corrected one disagree on
      "deliberately". */
  lemma AsWrittenDisagrees()
    ensures StemAsWritten("deliberately") != Stem("deliberately")
  {
    StemAsWrittenDeliberately();
    StemDeliberately();
    assert |"deberateli"| == 10 && |"deliber"| == 7;
  }

  /** Unlike the suffix rewrite (SuffixRewriteKeepsPrefix), the
      first-occurrence rewrite of `eli` in "deliberateli" does not keep the
      part of the word before the suffix: it cuts into the stem. */
  lemma FirstOccurrenceCutsStem()
    ensures var w := "deliberateli";
      Rewritten(w, "eli", "e", FirstOccurrence)[..|w| - 3] != w[..|w| - 3]
  {
    DeliberateliFirstOccurrence();
    assert EndsWith("deliberateli", "eli");
    RewriteDiffersBeforeSuffix("deliberateli", "eli", "e", "deberateli", 2);
  }

  /** A rewrite whose result differs from the word at a position before the
      suffix does not keep the part before the suffix. */
  lemma RewriteDiffersBeforeSuffix(w: string, suffix: string, repl: string, r: string, k: nat)
    requires EndsWith(w, suffix) && Rewritten(w, suffix, repl, FirstOccurrence) == r
    requires k < |w| - |suffix| && k < |r| && r[k] != w[k]
    ensures Rewritten(w, suffix, repl, FirstOccurrence)[..|w| - |suffix|] != w[..|w| - |suffix|]
  {
    assert r[..|w| - |suffix|][k] != w[..|w| - |suffix|][k];
  }
}
