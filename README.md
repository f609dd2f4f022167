# Inverted index with Porter stemming: a Dafny model

This project models the two index builders of the repository:

- **The web pipeline** (`Presentation/utils/irLogic.ts`) stems words with its own Porter stemmer and an override table. It tokenizes and stems every document into (term, document, token) pairs, sorts the pairs, groups them into a dictionary of terms with sorted postings, and answers a one-word query.
- **The command-line builder** (`Core/src/main.rs`) collects (term, doc_id) pairs with the English Snowball stemmer and sorts them with the pair's own `Ord`. It then fills an `InvertedIndex` in place. Each `(term, doc)` push is skipped when the doc equals the last id already in that term's list.

## Modules

Each module is one file.

- `Ascii` (`ascii.dfy`): `toLowerCase` on ASCII letters.
- `Ordering` (`ordering.dfy`): three-way comparison. Strings compare lexicographically by character code.
- `Sorting` (`sorting.dfy`): a stable insertion sort by a (string, number) key. It models `Array.prototype.sort` and `Vec::sort`, both of which are stable.
- `Sequences` (`sequences.dfy`): concatenation of a mapped sequence (flat-map), and the strictly increasing lists both indexes keep as postings.
- `Tokenizer` (`tokenizer.dfy`): the global match of `[a-z]+` over the lower-cased text.
- `PorterMeasure` (`measure.dfy`): `isConsonant`, the measure m, `containsVowel`, `endsWithDoubleConsonant` and `cvc`. `getMeasure` and `containsVowel` are imperative methods proved against the recursive definitions.
- `Stemmer` (`stemmer.dfy`): `porterStemmer`, step by step. The rewrite used by steps 2 and 3 is a parameter, with two values:
  - `FirstOccurrence`: the program's `String.replace`.
  - `SuffixOnly`: the algorithm's intent.
- `StemmerFacts` (`stemmer_facts.dfy`): what the stemmer does to known words, rule-order facts, and the rewrite discrepancy.
- `IrLogic` (`ir_logic.dfy`): `getStem`, `tokenizeAndStem`, `sortPairs`, `buildIndex` and `searchIndex`, with the properties of the index they build.
- `RustIndex` (`rust_index.dfy`): `IntermediatePair` and its `cmp`, `partial_cmp` and `eq`; the collect loop and sort of `main`; and the `InvertedIndex` class with its in-place `build_from_sorted_pairs`.

## Behaviour worth noting

- **Step 5a removes the `e` that step 2 puts back.** `porterStemmer("relational")` is `"relat"`: step 2 gives `"relate"` and step 5a then drops the final `e` (`StemmerFacts.StemRelational`). `"noble"` becomes `"nobl"` the same way (`StemmerFacts.StemNoble`).
- **Short words keep their case.** `porterStemmer` returns a word shorter than three characters before lower-casing it (irLogic.ts:71-72), so only longer words are lower-cased (`Stemmer.StemAsWritten`).
- **`buildIndex` accepts pairs in any order.** It groups through a map of sets and sorts the terms and the postings itself (irLogic.ts:222-237), so two inputs that are permutations of each other give the same index (`IrLogic.IndexUnique`).

## Model

| member | source | states |
|---|---|---|
| Ascii.Lower | Presentation/utils/irLogic.ts:72 | `toLowerCase` keeps the length, maps A-Z to a-z and leaves every other character alone |
| Ascii.LowerIdempotent | Presentation/utils/irLogic.ts:186 | lower-casing an already lower-case word changes nothing, so the override lookup and the stemmer see the same word |
| Ascii.LowerOfLetters | Core/src/main.rs:111 | lower-casing a word of letters gives a word of a-z only |
| PorterMeasure.IsConsonant | Presentation/utils/irLogic.ts:9-18 | a, e, i, o, u are vowels; y at index 0 is a consonant; every other non-vowel except y is a consonant |
| PorterMeasure.YAlternates | Presentation/utils/irLogic.ts:13-16 | closed form of the recursive y rule: along a run of y's the class alternates, starting with consonant when the run opens the word or follows a vowel |
| PorterMeasure.GetMeasure | Presentation/utils/irLogic.ts:20-44 | the three nested scan loops compute exactly m, the number of vowel-to-consonant boundaries of [C](VC)^m[V] |
| PorterMeasure.MeasureBound | Presentation/utils/irLogic.ts:20-44 | m is at most half the length of the word |
| PorterMeasure.MeasureNoVowel | Presentation/utils/irLogic.ts:20-44 | a word with no vowel, the empty word included, has m = 0 |
| PorterMeasure.ContainsVowel | Presentation/utils/irLogic.ts:46-51 | the scan returns true exactly when some index is not a consonant |
| PorterMeasure.VowelIff | Presentation/utils/irLogic.ts:46-51 | the recursive vowel test used by the steps holds exactly when some index is not a consonant |
| PorterMeasure.EndingGates | Presentation/utils/irLogic.ts:53-68 | words shorter than 2 never end in a double consonant; words shorter than 3 and words ending in w, x or y are never cvc |
| Stemmer.IndexOfFrom | Presentation/utils/irLogic.ts:117 | finds the first occurrence of a pattern at or after a position, or reports that none exists |
| Stemmer.ReplaceFirstShape | Presentation/utils/irLogic.ts:117-135 | replacing the first occurrence of a suffix that ends the word changes the length as replacing the ending would, and keeps the word lower-case |
| Stemmer.ReplaceFirstAtSuffix | Presentation/utils/irLogic.ts:117-135 | when the suffix occurs nowhere earlier, `replace` rewrites the ending |
| Stemmer.ReplaceFirstEarlier | Presentation/utils/irLogic.ts:117-135 | when the suffix also occurs earlier, `replace` rewrites an earlier occurrence instead of the ending |
| Stemmer.Step1a | Presentation/utils/irLogic.ts:74-78 | step 1a never lengthens the word and keeps it lower-case |
| Stemmer.Step1b | Presentation/utils/irLogic.ts:80-108 | step 1b never lengthens the word and keeps it lower-case |
| Stemmer.Step1c | Presentation/utils/irLogic.ts:110-114 | step 1c keeps the length and keeps the word lower-case |
| Stemmer.Step2 | Presentation/utils/irLogic.ts:116-126 | step 2 never lengthens the word and keeps it lower-case |
| Stemmer.Step3 | Presentation/utils/irLogic.ts:128-135 | step 3 never lengthens the word and keeps it lower-case |
| Stemmer.Step4 | Presentation/utils/irLogic.ts:137-155 | step 4 never lengthens the word and keeps it lower-case |
| Stemmer.Step5a | Presentation/utils/irLogic.ts:157-162 | removing a final e never lengthens the word and keeps it lower-case |
| Stemmer.Step5b | Presentation/utils/irLogic.ts:163-165 | removing one l of a final double l never lengthens the word and keeps it lower-case |
| Stemmer.StemAsWritten | Presentation/utils/irLogic.ts:70-168 | `porterStemmer` as written returns words shorter than 3 unchanged, never returns a longer word, and returns a lower-case word for words of letters |
| Stemmer.Stem | Presentation/utils/irLogic.ts:70-168 | the stemmer with suffix-only rewriting has the same length and case guarantees |
| StemmerFacts.LaterStepsSkip | Presentation/utils/irLogic.ts:116-165 | a word whose last letter ends none of the suffixes of steps 2-5 passes through those steps unchanged |
| StemmerFacts.Step4Ate | Presentation/utils/irLogic.ts:138-151 | for a word ending in `ate`, step 4 tries only the `ate` rule |
| StemmerFacts.Step3Ate | Presentation/utils/irLogic.ts:129-135 | a word ending in `ate` but not `icate` passes step 3 unchanged |
| StemmerFacts.StemRunning | Presentation/utils/irLogic.ts:91-107 | "running" stems to "run", both as written and with suffix rewriting: `ing` is removed and the double n is undoubled |
| StemmerFacts.StemCaresses | Presentation/utils/irLogic.ts:75 | "caresses" stems to "caress", both as written and with suffix rewriting |
| StemmerFacts.StemPonies | Presentation/utils/irLogic.ts:76 | "ponies" stems to "poni", both as written and with suffix rewriting |
| StemmerFacts.RelationalOnlyAtEnd | Presentation/utils/irLogic.ts:117 | in "relational" the suffix `ational` occurs only at the end, so `replace` rewrites the ending |
| StemmerFacts.RelationalStep2AsWritten | Presentation/utils/irLogic.ts:116-126 | as written, step 2 turns "relational" into "relate" |
| StemmerFacts.StemRelational | Presentation/utils/irLogic.ts:116-162 | "relational" stems to "relat", both as written and with suffix rewriting: step 2 gives "relate", then step 5a drops the e |
| StemmerFacts.StemNoble | Presentation/utils/irLogic.ts:158-162 | "noble" stems to "nobl", both as written and with suffix rewriting |
| StemmerFacts.StemInterred | Presentation/utils/irLogic.ts:85-107 | "interred" stems to "inter", both as written and with suffix rewriting: the double r is undoubled |
| StemmerFacts.AtionalShadowsTional | Presentation/utils/irLogic.ts:117-118 | a word ending in `ational` is handled by that rule only, never by `tional` |
| StemmerFacts.EmentShadowsMentAndEnt | Presentation/utils/irLogic.ts:146-148 | a word ending in `ement` is handled by that rule only, never by `ment` or `ent` |
| StemmerFacts.ElementKept | Presentation/utils/irLogic.ts:146-148 | "element" stays unchanged in step 4, although `ent` would have matched with m > 1 |
| StemmerFacts.FeedKept | Presentation/utils/irLogic.ts:82-85 | "feed" stays unchanged in step 1b, although `ed` would have matched with a vowel before it |
| StemmerFacts.RewriteModesAgree | Presentation/utils/irLogic.ts:117-135 | first-occurrence and suffix rewriting agree whenever the suffix occurs only at the end |
| StemmerFacts.SuffixRewriteKeepsPrefix | Presentation/utils/irLogic.ts:117-135 | suffix rewriting keeps everything before the suffix and ends in the replacement |
| StemmerFacts.StemAsWrittenDeliberately | Presentation/utils/irLogic.ts:125 | as written, "deliberately" stems to "deberateli" |
| StemmerFacts.AsWrittenDisagrees | Presentation/utils/irLogic.ts:117-135 | the program's stemmer and the suffix-rewriting stemmer give different stems for "deliberately" |
| StemmerFacts.FirstOccurrenceCutsStem | Presentation/utils/irLogic.ts:125 | the first-occurrence rewrite of `eli` in "deliberateli" changes the part of the word before the suffix, which suffix rewriting keeps |
| StemmerFacts.StemDeliberately | Presentation/utils/irLogic.ts:125 | with suffix rewriting, "deliberately" stems to "deliber" |
| Tokenizer.RunEnd | Presentation/utils/irLogic.ts:196 | the end of a maximal a-z run: every character before it is a-z, and the character at it is not |
| Tokenizer.MatchesEmpty | Presentation/utils/irLogic.ts:196 | the match list is empty exactly when the text has no a-z character (the case where the empty list is substituted) |
| Tokenizer.MatchesWellFormed | Presentation/utils/irLogic.ts:196 | every match is a nonempty run of a-z |
| Tokenizer.MatchesSkip | Presentation/utils/irLogic.ts:196 | characters that are not a-z in front of a text change none of its matches |
| Tokenizer.MatchesSplit | Presentation/utils/irLogic.ts:196 | a separator splits a text into two halves that are matched independently; no match spans it and none is lost |
| Tokenizer.MatchesWord | Presentation/utils/irLogic.ts:196 | a lower-case word is its own single match |
| Tokenizer.LowerLeavesNoUpper | Core/src/main.rs:105-111 | after lower-casing no A-Z remains, so `[a-zA-Z]+` and `[a-z]+` find the same runs |
| IrLogic.GetStem | Presentation/utils/irLogic.ts:178-189 | for a word of at least three letters, `getStem` returns a lower-case word no longer than its input |
| IrLogic.GetStemOverrides | Presentation/utils/irLogic.ts:182-188 | "men" and "feet", in any case, come back as themselves; every other word goes to the stemmer |
| IrLogic.LookupAsWritten | Presentation/utils/irLogic.ts:186 | an object-literal lookup finds own keys first, then the names inherited from `Object.prototype`, and is otherwise undefined |
| IrLogic.GetStemAsWritten | Presentation/utils/irLogic.ts:178-189 | as written, `getStem` returns "men" and "feet" as themselves, the inherited member for a word that lower-cases to an `Object.prototype` name, and the as-written `porterStemmer` result for every other word |
| IrLogic.GetStemCorrections | Presentation/utils/irLogic.ts:178-189 | the written `getStem` and the corrected one agree on every word that is not an inherited name and on which the two stemmers agree |
| IrLogic.PrototypeKeysAreNotStrings | Presentation/utils/irLogic.ts:186 | for those words the written lookup returns a non-string, where an own-keys lookup would stem the word |
| IrLogic.ConstructorIsNotAString | Presentation/utils/irLogic.ts:196-200 | "constructor" is an ordinary token of a document text, and it is one of those names |
| IrLogic.TokenizeAndStem | Presentation/utils/irLogic.ts:191-210 | the nested loops produce exactly the pairs of every document, in document order and token order |
| IrLogic.TokenPairsShape | Presentation/utils/irLogic.ts:198-206 | one pair per token, carrying the token, its stem and the document id; nothing is merged or dropped |
| IrLogic.AllPairsAppend | Presentation/utils/irLogic.ts:194 | documents contribute their pairs one after another |
| IrLogic.AllPairsOne | Presentation/utils/irLogic.ts:194-206 | a single document yields exactly its token pairs |
| IrLogic.AllPairsNoLetters | Presentation/utils/irLogic.ts:196 | documents without a letter contribute no pair |
| IrLogic.AllPairsProvenance | Presentation/utils/irLogic.ts:191-210 | every pair's term is the stem of its token, and that token occurs in a document with the pair's id |
| IrLogic.SortPairs | Presentation/utils/irLogic.ts:213-219 | the result is a permutation of the input, sorted by term then document id; pairs with equal keys keep their input order |
| IrLogic.GroupByTerm | Presentation/utils/irLogic.ts:222-229 | the map's keys are exactly the terms; each term maps to exactly the ids it occurs with; the terms are listed once each |
| IrLogic.ListEntries | Presentation/utils/irLogic.ts:232-236 | one entry per term, in map order, with its ids listed in increasing order |
| IrLogic.SortedSet | Presentation/utils/irLogic.ts:235 | the members of a set, strictly increasing |
| IrLogic.BuildIndex | Presentation/utils/irLogic.ts:221-238 | the dictionary's terms are strictly increasing, one per term of the pairs; each term's postings are strictly increasing and are exactly the documents paired with it |
| IrLogic.IndexUnique | Presentation/utils/irLogic.ts:221-238 | two inputs that are permutations of each other have the same index |
| IrLogic.Find | Presentation/utils/irLogic.ts:247 | `find` returns the first entry whose term matches, and nothing exactly when no entry matches |
| IrLogic.SearchIndex | Presentation/utils/irLogic.ts:240-249 | a query without letters returns nothing; otherwise the answer is the postings of the first entry whose term is the stem of the query's first token, or nothing when no entry has that term |
| IrLogic.SearchIndexFinds | Presentation/utils/irLogic.ts:240-249 | on a built index, a query returns, in increasing order, exactly the documents holding a word with the same stem as the query's first token |
| Ordering.StrCmpEqual | Presentation/utils/irLogic.ts:215 | two strings compare equal exactly when they are the same string |
| Ordering.StrCmpFlip | Presentation/utils/irLogic.ts:215 | swapping the arguments flips the string comparison |
| Ordering.StrCmpTransitive | Presentation/utils/irLogic.ts:215 | the string comparison is transitive |
| Ordering.NatCmp | Presentation/utils/irLogic.ts:217 | `a.docId - b.docId` is negative, zero or positive exactly when a < b, a = b or a > b |
| Sorting.SortByPermutes | Presentation/utils/irLogic.ts:214 | sorting permutes its input |
| Sorting.SortBySorted | Presentation/utils/irLogic.ts:214 | the sorted result is ordered by the key |
| Sorting.SortByStable | Presentation/utils/irLogic.ts:214 | the sort is stable: items with equal keys keep their relative order |
| RustIndex.PartialCmp | Core/src/main.rs:31-35 | `partial_cmp` is always defined and agrees with `cmp` |
| RustIndex.EqIffCmpEqual | Core/src/main.rs:22-41 | `eq` holds exactly when `cmp` says Equal, and exactly when the two pairs are equal |
| RustIndex.CmpIsLexicographic | Core/src/main.rs:22-29 | `cmp` orders by term, then by doc_id; it is antisymmetric and transitive |
| RustIndex.CollectPairs | Core/src/main.rs:106-124 | the collect loop yields the pairs of every document, in document order and match order |
| RustIndex.DocPairsShape | Core/src/main.rs:111-122 | one pair per match, carrying the match's stem and the document id |
| RustIndex.CollectedAppend | Core/src/main.rs:109 | documents contribute their pairs one after another |
| RustIndex.SortPairs | Core/src/main.rs:130 | the sorted list is a permutation of the input, in non-decreasing `cmp` order |
| RustIndex.InvertedIndex.constructor | Core/src/main.rs:52-56 | a new index has an empty map |
| RustIndex.InvertedIndex.BuildFromSortedPairs | Core/src/main.rs:59-69 | the map after the loop is the old map with every pair added in order; each pair appends its id unless the id is already last in its list |
| RustIndex.AddAllKeys | Core/src/main.rs:59-69 | the keys become the old keys plus the input's terms; a key the input does not mention keeps its list |
| RustIndex.RowCount | Core/src/main.rs:139 | from an empty map, the number of rows is the number of distinct terms |
| RustIndex.AddAllMembership | Core/src/main.rs:59-69 | from an empty map, a document is listed under a term exactly when the input holds that pair |
| RustIndex.AddKeepsStrict | Core/src/main.rs:65-67 | appending an id no smaller than the last one keeps every list strictly increasing |
| RustIndex.AddAllSorted | Core/src/main.rs:59-69 | on input sorted by `cmp`, every list is strictly increasing, hence free of duplicates |
| RustIndex.UnsortedKeepsDuplicates | Core/src/main.rs:64-67 | on unsorted input, a repeated id that is not adjacent is listed twice |
| RustIndex.BuildIndex | Core/src/main.rs:104-134 | collect, sort, build: one row per term; every row strictly increasing; a document is listed under a term exactly when one of its tokens stems to it |

Helper definitions that carry no property of their own have no row: `RustIndex.Cmp` and `RustIndex.Eq` (stated through `RustIndex.CmpIsLexicographic`, `RustIndex.PartialCmp` and `RustIndex.EqIffCmpEqual`), `Tokenizer.Matches` (through the `Tokenizer.Matches*` lemmas), `Stemmer.ReplaceFirst` (through `Stemmer.ReplaceFirstShape`, `Stemmer.ReplaceFirstAtSuffix` and `Stemmer.ReplaceFirstEarlier`), `Stemmer.Step1bCleanup` (part of `Stemmer.Step1b`), `Ordering.StrCmp` (through the `Ordering.StrCmp*` lemmas), and `PorterMeasure.EndsWithDoubleConsonant` and `PorterMeasure.Cvc` (through `PorterMeasure.EndingGates`).

## Left out

- **Console output.** `println!`, the statistics banner and `InvertedIndex::search` (Core/src/main.rs:71-87) only print to the console, so they are not modelled. The row count that `main` prints is `RustIndex.RowCount`.
- **Hard-coded corpus.** The five-document corpora (`rawDocuments`, and the vector in `main`) are data. No lemma evaluates the index of that particular corpus.
- **The Snowball stemmer.** The English stemmer of the `rust_stemmers` crate is not part of this model. The Rust side takes any stemming function `stem` as a parameter.
- **`localeCompare` and `String::cmp`.** Both are modelled as lexicographic order by character code (`Ordering.StrCmp`). This matches Rust for ASCII and matches `localeCompare` on the lower-case a-z terms the pipeline produces. Locale collation of other characters is not modelled.
- **Case and character handling.**
  - `toLowerCase` and `to_lowercase` are modelled for ASCII only.
  - Characters are Dafny `char`s. UTF-16 surrogates, Unicode case mapping and regex Unicode classes are not modelled.
- **`u32` and JavaScript numbers.** Document ids are `nat`. `u32` bounds are not modelled, and JavaScript number semantics beyond the non-negative integers are not modelled.
- **JavaScript object-literal lookups.**
  - `IrLogic.LookupAsWritten` models the prototype chain for the member names `Object.prototype` provides. Other inherited properties (from user code that extends the prototype) are not modelled.
  - The value of an inherited member is abstracted to its name (`JsInherited`).
- **Dead `getMeasure` code.** The `if (i >= len) return m;` lines inside `getMeasure`'s loops (irLogic.ts:25, 30, 35) are left out, because the loop guards make them unreachable.
- **Type-level guarantees.**
  - The `originalToken` field is kept.
  - The JavaScript `DocumentInput` and `DictionaryEntry` types are modelled as Dafny datatypes.
  - Optional chaining on `indexMap.get(...)` (irLogic.ts:228) always succeeds, because the key was set just before. `IrLogic.GroupByTerm` updates the map directly.
- **Web pipeline stemmer.** `IrLogic.GetStem` and the rest of the web pipeline (`IrLogic.TokenizeAndStem`, `IrLogic.BuildIndex`, `IrLogic.SearchIndex`) model the corrected program (see Findings). `Stemmer.StemAsWritten` and `IrLogic.GetStemAsWritten` are the program's own behaviour.
- Stemmer.Step1a: its `ensures` states only that the word does not grow and stays lower-case. The rule table itself is stated per word by the `StemmerFacts` lemmas.
- Stemmer.Step1b: states only length and case, for the same reason.
- Stemmer.Step1c: states only length and case, for the same reason.
- Stemmer.Step2: states only length and case. Which rule fires is stated by `StemmerFacts.AtionalShadowsTional` and the per-word lemmas.
- Stemmer.Step3: states only length and case, for the same reason.
- Stemmer.Step4: states only length and case. Which rule fires is stated by `StemmerFacts.EmentShadowsMentAndEnt`, `StemmerFacts.Step4Ate` and the per-word lemmas.
- Stemmer.Step5a: states only length and case, for the same reason.
- Stemmer.Step5b: states only length and case, for the same reason.
- Stemmer.StemAsWritten: states only length and case. Its value on known words is stated by the `StemmerFacts` lemmas (`StemRunning`, `StemCaresses`, `StemPonies`, `StemRelational`, `StemNoble`, `StemInterred`, `StemAsWrittenDeliberately`).
- Stemmer.Stem: states only length and case, for the same reason.
- IrLogic.GetStem: states only length and case, and models `getStem` with both corrections of the Findings applied: steps 2 and 3 rewrite only the suffix (`Stemmer.Stem` instead of `Stemmer.StemAsWritten`), and the override table is looked up by own keys only. Which words the override table catches is stated by `IrLogic.GetStemOverrides`; `IrLogic.GetStemCorrections` states where the written `getStem` agrees with it.
- IrLogic.SortedSet: states increasing order and membership only. The length follows but is not stated.

## Findings

| source | as written | input that shows it | evidently intended | confidence | as-written member | corrected member |
|---|---|---|---|---|---|---|
| Presentation/utils/irLogic.ts:117-135 | steps 2 and 3 test that the word ends in a suffix, then call `word.replace(suffix, repl)`, which rewrites the first occurrence of the suffix anywhere in the word | "deliberately": step 1c gives "deliberateli"; the `eli` rule then rewrites the `eli` at index 1, giving "deberateli", which no later step changes | rewrite the ending that was tested, giving "deliberate" and finally "deliber" | not executed | StemmerFacts.AsWrittenDisagrees | StemmerFacts.StemDeliberately |
| Presentation/utils/irLogic.ts:182-186 | `overrides` is an object literal, so `overrides[word.toLowerCase()]` also finds members inherited from `Object.prototype`; these are truthy and are returned as the "stem" | the token "constructor", which every lower-cased text can contain, returns the `Object` constructor function instead of a string, and that function becomes the pair's term | look up own keys only and stem every other word | not executed | IrLogic.PrototypeKeysAreNotStrings | IrLogic.GetStemOverrides |
