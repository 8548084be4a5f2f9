# Syllable splitter of a page that teaches Russian syllables

The page teaches children to split Russian words into syllables. Its one piece of logic is
`splitWord` in `src/pages/Index.tsx`. It lower-cases the word and scans it once from the left,
adding every letter to an open syllable. A syllable is closed right after a vowel in two cases:

- the vowel is followed by exactly one consonant and then a vowel;
- the vowel is the last letter, or another vowel follows it.

The letters left open at the end are glued onto the last closed syllable. If nothing was
closed, they become the only syllable. `isVowel` tests the lower-cased letter against ten fixed
vowels. The Split game shows one word of `SPLIT_WORDS` at a time. It builds its expected answer
as `splitWord(word).join("-").toUpperCase()` and compares it with the trimmed, upper-cased input.
It keeps a score and cycles through the words.

The model has five modules:

- `JsString` (`js_string.dfy`): the JavaScript string built-ins the code relies on. These are
  `toLowerCase`, `toUpperCase`, `trim` and `join`, plus hyphen deletion, which is used only to
  state a property.
- `Splitter` (`splitter.dfy`): `isVowel`, the loop of `splitWord` as the method
  `SplitWord`, and the function `SyllablesOf` that the loop is proved to compute.
  - `SyllablesOf` names the places where the scan closes a syllable (`CutEnds`).
  - It cuts the lower-cased word there.
  - It then moves the last cut to the end of the word, so the leftover letters join the last
    syllable (`GlueEnds`).
- `SyllableProperties` (`syllable_properties.dfy`): what the result satisfies for every word.
  This covers the round trip, shape, count, vowels, open syllables and case.
- `SplitTraces` (`split_traces.dfy`): the result for the six game words and six other words,
  worked out per vowel pattern.
- `SplitGame` (`split_game.dfy`): the answer logic of the Split game as the class `Game`, and
  the answers it expects.

### What the code computes, as opposed to what the page says

The page's own text does not match what `splitWord` computes. This model follows the code.

- A vowel followed by two or more consonants never closes a syllable. Those consonants and
  everything up to the next closing vowel stay in one syllable. So:
  - `splitWord("репка")` is `["репка"]`, and "мандарин", "апельсин" and "ночник" are one
    syllable each;
  - "капуста" is `["ка","пуста"]` and "облако" is `["обла","ко"]`.
- The hand-written displays such as "РЕП-КА" and "А-ПЕЛ-ЬСИН" are literals on the page, not
  outputs of `splitWord`. The rule "as many syllables as vowels" is shown on the page but holds
  only as an upper bound (`SplitCountWithinVowels`).
- The Split game therefore expects "КА-ПУСТА" and "ОБЛА-КО" (`AnswerKapusta`, `AnswerOblako`).

## Model

| member | source | states |
|---|---|---|
| Splitter.IsVowel | src/pages/Index.tsx:5-7 | definition: the lower-cased letter is one of the ten letters of VOWELS; its meaning is stated by IsVowelExactly and IsVowelIgnoresCase |
| Splitter.ClosesAfter | src/pages/Index.tsx:16-22 | definition: letter i is a vowel, and either one consonant and then a vowel follow it (:19), or it is the last letter or a vowel follows it (:22); CutEndsMembers and ScanStep connect it to the loop |
| Splitter.Syllabify | src/pages/Index.tsx:14-35 | definition of what the scan returns for a lower-cased word: the pieces between consecutive syllable ends, the last running to the end of the word; SplitWord is proved to return it |
| Splitter.SyllablesOf | src/pages/Index.tsx:9-36 | definition of what `splitWord(word)` returns: Syllabify of the lower-cased word; its properties are the SyllableProperties lemmas |
| Splitter.IsVowelExactly | src/pages/Index.tsx:3-7 | a letter is a vowel exactly when it is one of а е ё и о у ы э ю я, in either case |
| Splitter.IsVowelIgnoresCase | src/pages/Index.tsx:5-7 | lower-casing a letter does not change whether it is a vowel |
| Splitter.SplitWord | src/pages/Index.tsx:9-36 | the loop returns exactly `SyllablesOf(word)`, the cut-and-glue specification, for every word |
| Splitter.ScanStep | src/pages/Index.tsx:14-27 | one loop step keeps the invariant: the closed syllables are the pieces up to the last cut, and `current` holds the letters since then; a step closes a syllable exactly when rule :19 or rule :22 applies |
| Splitter.GlueLeftover | src/pages/Index.tsx:28-30 | leftover letters are appended to the last syllable, as `syllables[length - 1] += current` does, and nothing else changes |
| Splitter.GlueWhole | src/pages/Index.tsx:31-33 | when no syllable was closed, the whole non-empty word is the only syllable |
| Splitter.GlueNothing | src/pages/Index.tsx:28 | when nothing is left over, the closed syllables are the result |
| Splitter.AppendToLast | src/pages/Index.tsx:30 | updating the last element in place equals replacing it by the extended string |
| Splitter.PiecesSnoc | src/pages/Index.tsx:20-24 | closing one more syllable appends exactly the letters since the previous cut |
| Splitter.PieceCount | src/pages/Index.tsx:20-24 | there is one piece per cut |
| SyllableProperties.CutEndsMembers | src/pages/Index.tsx:16-25 | a position is a cut exactly when the letter before it is a vowel that rule :19 or rule :22 closes, in both directions |
| SyllableProperties.SplitRoundTrip | src/pages/Index.tsx:10-35 | joining the syllables with "" gives the lower-cased word: no letter is dropped, repeated or moved |
| SyllableProperties.SplitShape | src/pages/Index.tsx:14-33 | the result is empty exactly for the empty word, and no syllable is empty |
| SyllableProperties.SplitWithoutVowels | src/pages/Index.tsx:28-33 | a non-empty word without vowels is one syllable, the whole lower-cased word |
| SyllableProperties.SplitCountWithinVowels | src/pages/Index.tsx:16-33 | a word with a vowel has between 1 and its number of vowels syllables |
| SyllableProperties.SplitSyllablesHoldVowels | src/pages/Index.tsx:16-33 | in a word with a vowel, every syllable contains a vowel |
| SyllableProperties.SplitInnerSyllablesOpen | src/pages/Index.tsx:19-24 | every syllable except the last ends in a vowel |
| SyllableProperties.SplitLastSyllable | src/pages/Index.tsx:19-33 | the last syllable ends in a vowel exactly when the word does |
| SyllableProperties.SplitIgnoresCase | src/pages/Index.tsx:5-10 | the result does not depend on the case of the input, and every syllable is in lower case |
| SyllableProperties.VowelCountLower | src/pages/Index.tsx:5-7 | lower-casing keeps the number of vowels |
| SyllableProperties.SyllableAt | src/pages/Index.tsx:14-35 | syllable k is the slice of the lower-cased word between two consecutive syllable ends |
| SplitTraces.EndsCVCVCV | src/pages/Index.tsx:14-33 | every 6-letter word with vowel pattern CVCVCV has syllable ends 2, 4, 6 (the other `Ends…` lemmas do the same for their patterns) |
| SplitTraces.SplitKorova | src/pages/Index.tsx:9-36 | "корова" splits into ["ко", "ро", "ва"] |
| SplitTraces.SplitRepka | src/pages/Index.tsx:9-36 | "репка" is one syllable, ["репка"], because "п" and "к" follow the first vowel |
| SplitTraces.SplitLyod | src/pages/Index.tsx:31-33 | "лёд" is ["лёд"]: "ё" is followed by "д" and then the end of the word, so nothing is closed and the whole word is pushed as the only syllable |
| SplitTraces.SplitMandarin | src/pages/Index.tsx:9-36 | "мандарин" is ["мандарин"]: rule :19 closes "манда", and the leftover "рин" is glued onto it at :30 |
| SplitTraces.SplitApelsin | src/pages/Index.tsx:9-36 | "апельсин" is ["апельсин"]: "а" is closed, then "пельсин" is glued onto it |
| SplitTraces.SplitNochnik | src/pages/Index.tsx:9-36 | "ночник" is ["ночник"] |
| SplitTraces.SplitZima | src/pages/Index.tsx:9-36 | "ЗИМА" splits into ["зи", "ма"] |
| SplitTraces.SplitRebyata | src/pages/Index.tsx:9-36 | "РЕБЯТА" splits into ["ре", "бя", "та"] |
| SplitTraces.SplitShkola | src/pages/Index.tsx:9-36 | "ШКОЛА" splits into ["шко", "ла"] |
| SplitTraces.SplitOblako | src/pages/Index.tsx:9-36 | "ОБЛАКО" splits into ["обла", "ко"] |
| SplitTraces.SplitPchela | src/pages/Index.tsx:9-36 | "ПЧЕЛА" splits into ["пче", "ла"] |
| SplitTraces.SplitKapusta | src/pages/Index.tsx:9-36 | "КАПУСТА" splits into ["ка", "пуста"] |
| SplitGame.Answer | src/pages/Index.tsx:259 | definition of `correct`: the syllables of the word joined by "-" and upper-cased; AnswerSpellsWord and the six Answer… lemmas state what it is |
| SplitGame.Normalize | src/pages/Index.tsx:262 | definition of `input.trim().toUpperCase()`; AnswerAccepted states which inputs it maps to the answer |
| SplitGame.Game.Word | src/pages/Index.tsx:258 | definition of `word`: entry idx of SPLIT_WORDS, which Valid keeps in range |
| SplitGame.Game.constructor | src/pages/Index.tsx:253-256 | the game starts at word 0 with empty input, no verdict and score 0 |
| SplitGame.Game.Expected | src/pages/Index.tsx:258-259 | running the splitter on the current word and joining with "-" in upper case gives `Answer(Word())` |
| SplitGame.Game.Check | src/pages/Index.tsx:261-269 | the verdict is Correct, and the score goes up by one, exactly when the trimmed upper-cased input equals the expected answer; otherwise the verdict is Wrong and the score is unchanged; word and input are unchanged |
| SplitGame.Game.Next | src/pages/Index.tsx:271-275 | the index moves to the next word modulo the number of words, input and verdict are cleared, the score is kept |
| SplitGame.Game.Type | src/pages/Index.tsx:289 | the input becomes the typed text in upper case and the verdict is cleared |
| SplitGame.Game.KeyDown | src/pages/Index.tsx:290 | Enter checks the answer (as `Check`) only while there is no verdict; any other key, or Enter after a verdict, changes nothing |
| SplitGame.AnswerSpellsWord | src/pages/Index.tsx:259 | for an upper-case word without hyphens, deleting the hyphens from the expected answer gives back the word |
| SplitGame.AnswerAccepted | src/pages/Index.tsx:262-263 | any casing of the expected answer, with any white space around it, is accepted |
| SplitGame.AnswerZima | src/pages/Index.tsx:115 | the expected answer for "ЗИМА" is "ЗИ-МА" |
| SplitGame.AnswerRebyata | src/pages/Index.tsx:115 | the expected answer for "РЕБЯТА" is "РЕ-БЯ-ТА" |
| SplitGame.AnswerShkola | src/pages/Index.tsx:115 | the expected answer for "ШКОЛА" is "ШКО-ЛА" |
| SplitGame.AnswerOblako | src/pages/Index.tsx:115 | the expected answer for "ОБЛАКО" is "ОБЛА-КО" |
| SplitGame.AnswerPchela | src/pages/Index.tsx:115 | the expected answer for "ПЧЕЛА" is "ПЧЕ-ЛА" |
| SplitGame.AnswerKapusta | src/pages/Index.tsx:115 | the expected answer for "КАПУСТА" is "КА-ПУСТА" |
| JsString.Lower | src/pages/Index.tsx:10 | `toLowerCase` keeps the length of the string |
| JsString.LowerIdempotent | src/pages/Index.tsx:6 | lower-casing twice is lower-casing once, and upper-casing ignores a prior lower-casing |
| JsString.UpperIdempotent | src/pages/Index.tsx:259 | upper-casing twice is upper-casing once |
| JsString.UpperOfLowerOfUpper | src/pages/Index.tsx:259 | an upper-case string comes back from lower-casing and then upper-casing |
| JsString.Upper | src/pages/Index.tsx:259 | `toUpperCase` keeps the length of the string and maps each character by itself (used at :259, :262 and :289); UpperIdempotent and UpperOfLowerOfUpper state its properties |
| JsString.Join | src/pages/Index.tsx:259 | definition of `parts.join(sep)`: "" for no parts, the part itself for one, and the separator between consecutive parts; JoinThenRemoveSeparator and SplitRoundTrip state its properties |
| JsString.Trim | src/pages/Index.tsx:262 | `trim` returns a substring with only white space removed before and after it, and no white space at either end |
| JsString.TrimPadded | src/pages/Index.tsx:262 | white space around a string with no white space at its ends is trimmed away again |
| JsString.JoinThenRemoveSeparator | src/pages/Index.tsx:259 | joining with a one-character separator and deleting that character gives the plain concatenation, when no part contains it |
| JsString.WithoutHyphenUpper | src/pages/Index.tsx:259 | deleting hyphens and upper-casing can be done in either order |

## Left out

- Rendering: the JSX, the styling, `CloudBg`, and the syllable colouring of `SyllableWord`. These
  are presentation only.
- `QuizGame`: its option order comes from `Math.random` and its progress from `setTimeout`.
- `ClapGame` and the section and tab navigation of `Index`. These are UI counters with nothing
  to prove.
- The content tables `THEORY_CARDS`, `METHODS`, `QUIZ_WORDS` and `CLAP_WORDS`. `SPLIT_WORDS` is
  modelled.
- React state: every `setState` is a plain field assignment, applied at once. Re-rendering and
  batching are not modelled.
- JsString.Lower and JsString.Upper do not model JavaScript's full Unicode case mapping. They
  map A–Z and the basic Cyrillic block (U+0400–U+045F) one character to one character and leave
  every other character as it is. Mappings that change the length of a string, such as "İ"
  lower-casing to two code units, are not modelled.
- JsString.Trim removes the ECMAScript WhiteSpace and LineTerminator characters listed in
  `JsString.IsWhiteSpace`. It does not follow later Unicode changes to the space-separator
  category.
- `split("")` splits a string into UTF-16 code units. The model takes a string as a sequence of
  Unicode characters, so letters outside the Basic Multilingual Plane are not split in two.
