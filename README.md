# Qazaq Cyrillic-to-Latin converter (aynac), modelled in Dafny

The core of aynac is `src/converter.rs`, which turns Qazaq text written in Cyrillic into the
Latin orthography.

- `convert` finds every maximal run of Qazaq letters with a regular expression. It copies the
  text between runs unchanged and replaces each run with `cyrillic_to_latin(run)`.
- `cyrillic_to_latin` decides once per run whether the run is written all in capitals. It then
  scans the run from left to right, emitting one replacement string per character from a
  `match` table. It keeps two flags:
  - whether the previous character was a listed vowel;
  - whether the most recent listed vowel was a front ("jinicke") vowel.
- Only И, и, У and у read these flags or the all-caps flag.

## Layout

- `char_classes.dfy` (module `CharClasses`) holds the two regular-expression classes as
  membership predicates (lines 8 and 152), the back and front vowel lists (lines 135 and 140),
  and the Latin letters the table emits.
  - The predicates take an `Alphabet`:
    - `AsWritten` is both classes as the source's characters spell them. Ё/ё are written
      decomposed, as Е/е followed by U+0308 COMBINING DIAERESIS.
    - `Corrected` is both classes with precomposed Ё/ё, which the table's Ё and ё arms expect
      (see Findings).
    - `LetterClassCorrected` corrects only the letter class of line 152 and keeps the capitals
      class of line 8 as written. It is the setting in which the spelling of line 8 can be seen
      through `convert`.
- `replacement_table.dfy` (module `ReplacementTable`) holds the `match` of lines 16-132 as
  `Replacement(c, isAllCaps, lastWasVowel, lastVowelWasJinicke)`, with lemmas about the
  table as a whole.
  - The arms are grouped to keep each proof over the table small. Group 0 comes first and
    holds the four arms that read the flags (И, и, У, у). Groups 1 to 8, of up to ten arms
    each, hold the fixed arms in the table's order.
  - No arm order matters for the result, because every arm matches a single character and
    no two arms match the same one. So putting the glide arms first as group 0 changes no result.
- `cyrillic_to_latin.dfy` (module `RunTransliteration`) specifies and implements
  `cyrillic_to_latin`.
  - `Transliteration` is the specification: position `i` yields
    `Replacement(run[i], IsAllCaps(run), LastWasVowel(run, i), LastVowelWasJinicke(run, i))`,
    and the fragments are concatenated in order.
  - The method `CyrillicToLatin` is the source's loop with its two mutable flags. It is proved
    to return `Transliteration`, and its loop invariants tie each flag to its look-behind
    definition.
- `runs.dfy` (module `Runs`) holds the regex search as `FindRun`, and the segmentation of a
  text into maximal runs and gaps.
- `converter.dfy` (module `Converter`) holds `Conversion`, the specification of `convert`, and
  the method `Convert`. `Convert` is the source's loop over matches with its mutable `start`
  index, proved to return `Conversion`.
- `scenarios.dfy` (module `Scenarios`) holds the source's six tests (lines 169-197), a few
  inputs on which a look-ahead and exception-list variant of the glide rules would differ from
  the code, and the counterexamples of the Findings.
  - Each word is proved fragment by fragment over a string described character by character.
    This keeps the solver from evaluating the replacement table on literal strings.

## Model

| member | source | states |
|---|---|---|
| CharClasses.IsQazaqLetter | src/converter.rs:152 | definition: the letter class `[А-яІіЁёҒғҚқҢңҮүҰұҺһӘәӨө]`: the range А to я, the listed Qazaq letters, and Ё/ё spelled as the alphabet says |
| CharClasses.IsQazaqCapital | src/converter.rs:8 | definition: the capitals class `[А-ЯІЁҒҚҢҮҰҺӘӨ]`: the range А to Я, the listed Qazaq capitals, and Ё spelled as the alphabet says |
| CharClasses.IsJuanVowel | src/converter.rs:135 | definition: the back ("juan") vowel list, А а Ё ё О о У у Ұ ұ Ы ы Ю ю Я я |
| CharClasses.IsJinickeVowel | src/converter.rs:140 | definition: the front ("jinicke") vowel list, Ә ә Е е И и Ө ө Ү ү І і Э э |
| ReplacementTable.Replacement | src/converter.rs:16-132 | definition: the `match` on a character and the three flags, as `ArmsFrom(0, …)` |
| ReplacementTable.ArmsFrom | src/converter.rs:16-132 | definition: the arms from one group on; group 0 is the four glide arms (lines 39-52, 79-98), groups 1 to 8 the fixed arms in the table's order, and past the last group the `_ => nochange` arm |
| RunTransliteration.IsAllCaps | src/converter.rs:8-10 | definition: `QazaqCapitals.is_match(input)`, a non-empty run made only of the capitals class |
| RunTransliteration.LastWasVowel | src/converter.rs:134-144 | definition: before position i, the previous character is on one of the two vowel lists (false at the start of the run) |
| RunTransliteration.LastVowelWasJinicke | src/converter.rs:134-144 | definition: before position i, the last character on either vowel list is a front vowel (false if there is none) |
| RunTransliteration.Transliteration | src/converter.rs:6-147 | definition: the specification of `cyrillic_to_latin`, the concatenation of each position's replacement under the all-caps flag and the two flags before it |
| Runs.SplitFrom | src/converter.rs:152-161 | definition: the segmentation of the text from position i into alternating maximal runs of letters and gaps |
| Converter.Conversion | src/converter.rs:150-163 | definition: the specification of `convert`, the segmentation with each gap copied and each run replaced by its transliteration |
| CharClasses.LatinIsNotCyrillic | src/converter.rs:152 | no Latin letter that the table emits is in either spelling of the letter class |
| ReplacementTable.CopiedExactlyWhenUnlisted | src/converter.rs:16-132 | a character is returned unchanged exactly when it is not a Cyrillic letter of the class (the `_ => nochange` arm); every letter has its own arm |
| ReplacementTable.ReplacementShape | src/converter.rs:16-132 | every replacement is the character itself or a Latin string of at most two letters |
| ReplacementTable.ReplacementIsLatin | src/converter.rs:16-130 | for every letter of the class and every flag state, the replacement is at most two Latin letters, none of them a Cyrillic letter |
| ReplacementTable.EmptyOnlyForSigns | src/converter.rs:117-124 | the replacement is empty exactly for Ъ, ъ, Ь and ь |
| ReplacementTable.OnlyGlidesReadContext | src/converter.rs:16-132 | apart from И, и, У and у, a replacement does not depend on the harmony flags or on the all-caps flag |
| ReplacementTable.FixedArmsCoverAlphabet | src/converter.rs:16-132 | the letters with a fixed arm are exactly the letters of the class apart from И, и, У and у |
| ReplacementTable.FixedArmsIgnoreFlags | src/converter.rs:16-132 | the fixed arms never read the flags |
| ReplacementTable.CapitalsAreUppercaseLetters | src/converter.rs:16-132 | with the corrected spelling, a letter other than the four signs is in the capitals class exactly when its replacement begins with an uppercase Latin letter |
| RunTransliteration.IsAllCapsMeansEveryCharacter | src/converter.rs:8-10 | the all-caps flag holds exactly when the run is non-empty and every character is in the capitals class |
| RunTransliteration.AllCapsMeansCapitalLetters | src/converter.rs:8-10 | with the corrected spelling, a run of letters without signs is all caps exactly when it is non-empty and every character's replacement begins with an uppercase Latin letter |
| RunTransliteration.LastVowelWasJinickeIsNearestVowel | src/converter.rs:134-144 | the front-vowel flag before position i holds exactly when the nearest listed vowel to the left of i is a front vowel |
| RunTransliteration.CyrillicToLatin | src/converter.rs:6-147 | the loop returns the concatenation, in order, of each character's replacement under the flags before it; its invariants say the previous-vowel flag is "the previous character is a listed vowel" and the front flag is the look-behind above |
| RunTransliteration.BackGlide | src/converter.rs:79-98 | у/У directly after any listed vowel (у included) is w/W; otherwise iw/Iw/IW when the nearest vowel to the left is front, else uw/Uw/UW; the capital's second letter is capital exactly in an all-caps run |
| RunTransliteration.FrontGlide | src/converter.rs:39-52 | и is iy when the nearest vowel to the left is front and ıy otherwise; И is IY in an all-caps run and Iy otherwise, whatever vowels precede it |
| RunTransliteration.NoLookAhead | src/converter.rs:11-145 | a character's fragment depends only on the characters up to it and the run's all-caps flag, never on later characters |
| RunTransliteration.FixedFragment | src/converter.rs:16-132 | every character other than И, и, У and у gets its fixed replacement wherever it stands |
| RunTransliteration.TransliterationLength | src/converter.rs:14-145 | a run of n characters becomes at most 2n characters |
| RunTransliteration.TransliterationCharacters | src/converter.rs:14-145 | every output character is a Latin letter or a character of the run that the table does not list |
| RunTransliteration.GlideFreeRunIsContextFree | src/converter.rs:14-145 | a run without И, и, У or у is transliterated letter by letter, independently of harmony and case |
| Runs.ClassEnd | src/converter.rs:152 | returns the end of the stretch of one class (letter or not) starting at i: every character before it is of that class and the one at it is not |
| Runs.FindRun | src/converter.rs:152-156 | no match exactly when no letter remains; otherwise the leftmost non-empty all-letter stretch at or after the resume point, extended as far as it goes |
| Runs.SplitFromCovers | src/converter.rs:155-161 | the segmentation covers the text exactly once and in order, and alternates maximal runs and gaps |
| Runs.SplitFromUnique | src/converter.rs:152-161 | any well-formed segmentation of the text is the computed one |
| Converter.Convert | src/converter.rs:150-163 | the loop over matches returns the gaps unchanged and each run transliterated, in input order, ending with the tail after the last match |
| Converter.RenderAtMatch | src/converter.rs:156-159 | one loop step: the output for the rest of the text is the gap before the next match, the match transliterated, then the output after the match |
| Converter.RenderWithoutMatch | src/converter.rs:161 | with no match left, the rest of the text is copied unchanged |
| Converter.ConversionWithoutLetters | src/converter.rs:152-161 | a text with no character of the letter class is returned unchanged |
| Converter.ConversionOfRun | src/converter.rs:156-158 | a text that is one run of letters is transliterated as a whole |
| Converter.ConversionAtBoundary | src/converter.rs:154-161 | cutting the text where a run begins or ends splits the output in the same place, since no state passes between runs |
| Converter.ConversionLeavesNoListedLetter | src/converter.rs:152-161 | no output character is both in the letter class and listed by the table |
| Converter.AsWrittenLeavesOnlyDiaeresis | src/converter.rs:152 | with the classes as written, the only character of the letter class that can be left in the output is U+0308 |
| Converter.CorrectedLeavesNoLetter | src/converter.rs:152 | with the corrected classes, no letter of the class is left in the output |
| Scenarios.ThreeRuns | src/converter.rs:154-161 | three runs with gaps between and after them convert run by run |
| Scenarios.ScenarioGreeting | src/converter.rs:169-172 | "Айттым сәлем, Қаламқас!" becomes "Ayttım sälem, Qalamqas!" |
| Scenarios.ScenarioMiy | src/converter.rs:174-177 | "ми" becomes "mıy" |
| Scenarios.ScenarioSuw | src/converter.rs:179-182 | "су" becomes "suw" |
| Scenarios.ScenarioJuziwci | src/converter.rs:184-187 | "жүзуші" becomes "jüziwci" |
| Scenarios.ScenarioJasaw | src/converter.rs:189-192 | "жасау" becomes "jasaw" |
| Scenarios.ScenarioAllCaps | src/converter.rs:194-197 | "ЖАЗУ" becomes "JAZUW" |
| Scenarios.LookBehindBiy | src/converter.rs:49-52 | "би" becomes "bıy": there is no exception list |
| Scenarios.LookBehindBiybaris | src/converter.rs:49-52 | "Бибарыс" becomes "Bıybarıs": no vowel precedes и, so it is ıy; only an exception for this name, which the code lacks, would make it iy |
| Scenarios.LookBehindKiyim | src/converter.rs:49-52 | "киім" becomes "kıyim": и is resolved by look-behind only, so the front vowel і after it does not make it iy |
| Scenarios.LookBehindJuww | src/converter.rs:92-98 | "жуу" becomes "juww": у is in the back-vowel list, so the second у follows a vowel |
| Scenarios.LookBehindUwaqit | src/converter.rs:92-98 | "уақыт" becomes "uwaqıt": у at the start of a run is uw |
| Scenarios.PrecomposedYoAsWritten | src/converter.rs:152 | with the class as written, "ёж" becomes "ёj": precomposed ё is not a letter of the class and is copied |
| Scenarios.PrecomposedYoCorrected | src/converter.rs:152 | with the corrected class, "ёж" becomes "yoj" |
| Scenarios.PrecomposedYoBeforeGlide | src/converter.rs:152 | with the corrected class, "ёлу" becomes "yoluw": ё is a back vowel, so у is uw |
| Scenarios.DecomposedYoAsWritten | src/converter.rs:152 | as written, "е" U+0308 "лу" becomes "e" U+0308 "liw": the run's first letter is the front vowel е, U+0308 is copied, and у is iw |
| Scenarios.CapitalYoMissingFromCapitals | src/converter.rs:8 | Ё is a letter of the corrected class with a capital replacement, yet it is not in the capitals class as written |
| Scenarios.CapitalYoAsWritten | src/converter.rs:8 | with the letter class corrected and the capitals class as written, "ЁЛУ" is one run that is not all caps, and it becomes "YoLUw" |
| Scenarios.CapitalYoCorrected | src/converter.rs:8 | with both classes corrected, "ЁЛУ" is all caps and becomes "YoLUW" |

## Left out

- `src/main.rs` is not part of this model. It handles command-line parsing, reading files or
  standard input, writing the result, and error reporting. That is I/O with no conversion
  logic.
- The regular-expression engine, `lazy_static` and `Cow` are not modelled. The two patterns are
  membership predicates, and `find_iter` is `FindRun`: the leftmost maximal stretch of letters
  from where the previous match ended.
- Strings are sequences of Unicode scalar values. Rust slices by byte offsets that always fall
  on the matches' character boundaries, and the model uses character positions instead.
- The code resolves и by look-behind only. It has no right look-ahead, no lexical exception
  list and no "first harmony vowel seen" flag, and the model has none either. The `LookBehind…`
  scenarios show inputs on which a look-ahead and exception-list variant of the glide rules
  would give a different result.
- The identical branches of the capital И arm (lines 40-47) are kept as they are, not merged or
  corrected.
- The model does not reject or report anything: `convert` and `cyrillic_to_latin` are total, and
  so are their models.

## Findings

| source | as written | input that shows it | evidently intended | confidence | as-written member | corrected member |
|---|---|---|---|---|---|---|
| src/converter.rs:152 | the letter class spells Ё/ё decomposed (Е/е then U+0308), so precomposed ё (U+0451) is not a letter: it is copied and the table's ё arm (line 34) is never reached. Decomposed ё reaches the table as the front vowel е followed by a copied U+0308, so the vowel harmony after it is wrong | "ёж" gives "ёj"; "е" U+0308 "лу" gives the fragments "e", U+0308, "l", "iw", so "e" U+0308 "liw" | the class lists precomposed Ё/ё, so "ёж" gives "yoj", "ёлу" gives "yoluw", and no listed letter is left in the output | not executed | Scenarios.PrecomposedYoAsWritten, Scenarios.DecomposedYoAsWritten | Converter.CorrectedLeavesNoLetter, Scenarios.PrecomposedYoBeforeGlide |
| src/converter.rs:8 | the capitals class spells Ё decomposed, so a run with precomposed Ё in it is never all caps. Through `convert` as written this is masked: the letter class of line 152 never puts precomposed Ё into a run, so it shows only once that class is corrected (`LetterClassCorrected`) | with only line 152 corrected, the run "ЁЛУ" gives "YoLUw" | the class lists precomposed Ё, so every run of capitals is all caps and "ЁЛУ" gives "YoLUW" | not executed | Scenarios.CapitalYoAsWritten, Scenarios.CapitalYoMissingFromCapitals | RunTransliteration.AllCapsMeansCapitalLetters, Scenarios.CapitalYoCorrected |
