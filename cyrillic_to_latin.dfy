/// Transliteration of one run of Cyrillic letters, `cyrillic_to_latin`
/// (src/converter.rs:6-147).
///
/// The scan keeps two flags: whether the previous character was a listed
/// vowel, and whether the most recent listed vowel was a front ("jinicke")
/// one.  Both look only to the left.  The specification below states them as
/// properties of the run's characters before the current position; the method
/// `CyrillicToLatin` is the source's loop with its two mutable flags, proved
/// to compute the same string.
module RunTransliteration {
  import opened CharClasses
  import opened ReplacementTable

  /** The all-caps flag, computed once per run: whether the anchored
      expression `^[А-ЯІЁҒҚҢҮҰҺӘӨ]+$` matches the whole run. */
  predicate IsAllCaps(alpha: Alphabet, run: string)
  {
    |run| > 0 && AllCapitals(alpha, run)
  }

  /** Every character is in the all-caps class. */
  predicate AllCapitals(alpha: Alphabet, s: string)
    decreases |s|
  {
    s == [] || (IsQazaqCapital(alpha, s[0]) && AllCapitals(alpha, s[1..]))
  }

  /** The all-caps flag holds exactly when the run is non-empty and every one
      of its characters is in the all-caps class. */
  lemma {:induction false} IsAllCapsMeansEveryCharacter(alpha: Alphabet, run: string)
    ensures IsAllCaps(alpha, run) <==> |run| > 0 && forall k | 0 <= k < |run| :: IsQazaqCapital(alpha, run[k])
  {
    AllCapitalsMeansEveryCharacter(alpha, run);
  }

  lemma {:induction false} AllCapitalsMeansEveryCharacter(alpha: Alphabet, s: string)
    ensures AllCapitals(alpha, s) <==> forall k | 0 <= k < |s| :: IsQazaqCapital(alpha, s[k])
    decreases |s|
  {
    if s != [] {
      AllCapitalsMeansEveryCharacter(alpha, s[1..]);
      assert forall k | 1 <= k < |s| :: s[k] == s[1..][k - 1];
    }
  }

  /** With the corrected all-caps class, a run of letters without hard or
      soft signs is all caps exactly when every letter is a capital: its
      replacement, taken on its own, begins with a capital Latin letter. */
  lemma AllCapsMeansCapitalLetters(run: string)
    requires forall k | 0 <= k < |run| :: IsQazaqLetter(Corrected, run[k]) && !IsSign(run[k])
    ensures IsAllCaps(Corrected, run) <==>
      |run| > 0 && forall k | 0 <= k < |run| :: StartsUpper(Replacement(run[k], false, false, false))
  {
    IsAllCapsMeansEveryCharacter(Corrected, run);
    forall k | 0 <= k < |run| {
      CapitalsAreUppercaseLetters(run[k]);
    }
  }

  /** Whether the character just before position `i` is a listed vowel. */
  predicate LastWasVowel(run: string, i: nat)
    requires i <= |run|
  {
    i > 0 && IsVowel(run[i - 1])
  }

  /** Some front vowel stands before position `i` with no listed vowel
      between it and `i`. */
  ghost predicate NearestVowelIsFront(run: string, i: nat)
    requires i <= |run|
  {
    exists k | 0 <= k < i :: IsJinickeVowel(run[k]) && forall j | k < j < i :: !IsVowel(run[j])
  }

  /** The front-vowel flag as the scan holds it before position `i`: true
      exactly when the nearest listed vowel to the left is a front vowel. */
  function LastVowelWasJinicke(run: string, i: nat): bool
    requires i <= |run|
    decreases i
  {
    if i == 0 then false
    else if IsJuanVowel(run[i - 1]) then false
    else if IsJinickeVowel(run[i - 1]) then true
    else LastVowelWasJinicke(run, i - 1)
  }

  /** The flag is a look-behind: it holds exactly when the nearest listed
      vowel to the left of position `i` is a front vowel. */
  lemma {:induction false} LastVowelWasJinickeIsNearestVowel(run: string, i: nat)
    requires i <= |run|
    ensures LastVowelWasJinicke(run, i) <==> NearestVowelIsFront(run, i)
    decreases i
  {
    if i > 0 {
      LastVowelWasJinickeIsNearestVowel(run, i - 1);
      if !IsVowel(run[i - 1]) && NearestVowelIsFront(run, i) {
        var k :| 0 <= k < i && IsJinickeVowel(run[k]) && forall j | k < j < i :: !IsVowel(run[j]);
        assert k < i - 1;
      }
    }
  }

  /** The Latin fragment emitted for the character at position `i`. */
  function Fragment(alpha: Alphabet, run: string, i: nat): string
    requires i < |run|
  {
    Replacement(run[i], IsAllCaps(alpha, run), LastWasVowel(run, i), LastVowelWasJinicke(run, i))
  }

  /** The fragments of the run's characters, in order. */
  function Fragments(alpha: Alphabet, run: string): (fragments: seq<string>)
    ensures |fragments| == |run|
  {
    seq(|run|, i requires 0 <= i < |run| => Fragment(alpha, run, i))
  }

  /** The strings of `parts` written one after the other. */
  function Concat(parts: seq<string>): string
    decreases |parts|
  {
    if parts == [] then [] else Concat(parts[..|parts| - 1]) + parts[|parts| - 1]
  }

  /** What `cyrillic_to_latin` returns for `run`. */
  function Transliteration(alpha: Alphabet, run: string): string
  {
    Concat(Fragments(alpha, run))
  }

  /** The source's loop: one replacement per character, then the two flags are
      updated from the back- and front-vowel lists.  `alpha` selects the
      spelling of the all-caps class; the source's is `AsWritten`. */
  method CyrillicToLatin(alpha: Alphabet, input: string) returns (output: string)
    ensures output == Transliteration(alpha, input)
  {
    var isAllCaps := IsAllCaps(alpha, input);
    output := "";
    var lastVowelWasJinicke := false;
    var lastWasVowel := false;
    for i := 0 to |input|
      invariant output == Concat(Fragments(alpha, input)[..i])
      invariant lastWasVowel == LastWasVowel(input, i)
      invariant lastVowelWasJinicke == LastVowelWasJinicke(input, i)
    {
      var character := input[i];
      var replacement := Replacement(character, isAllCaps, lastWasVowel, lastVowelWasJinicke);
      assert Fragments(alpha, input)[..i + 1][..i] == Fragments(alpha, input)[..i];
      output := output + replacement;
      lastWasVowel := false;
      if IsJuanVowel(character) {
        lastWasVowel := true;
        lastVowelWasJinicke := false;
      }
      if IsJinickeVowel(character) {
        lastWasVowel := true;
        lastVowelWasJinicke := true;
      }
    }
    assert Fragments(alpha, input)[..|input|] == Fragments(alpha, input);
  }

  /** У/у (src/converter.rs:79-98): the consonant "w"/"W" directly after any
      listed vowel, У/у itself included; otherwise "iw" when the nearest vowel
      to the left is a front vowel and "uw" when it is a back vowel or there
      is none.  For capital У the second letter is capital exactly when the
      run is all caps. */
  lemma BackGlide(alpha: Alphabet, run: string, i: nat)
    requires i < |run| && (run[i] == 'у' || run[i] == 'У')
    ensures var f := Fragment(alpha, run, i);
      var caps := IsAllCaps(alpha, run);
      if i > 0 && IsVowel(run[i - 1]) then
        f == (if run[i] == 'у' then "w" else "W")
      else if NearestVowelIsFront(run, i) then
        f == (if run[i] == 'у' then "iw" else if caps then "IW" else "Iw")
      else
        f == (if run[i] == 'у' then "uw" else if caps then "UW" else "Uw")
  {
    LastVowelWasJinickeIsNearestVowel(run, i);
  }

  /** И/и (src/converter.rs:39-52): и is "iy" when the nearest vowel to the
      left is a front vowel and "ıy" otherwise; И is "IY" in an all-caps run
      and "Iy" otherwise, whatever vowels precede it. */
  lemma FrontGlide(alpha: Alphabet, run: string, i: nat)
    requires i < |run| && (run[i] == 'и' || run[i] == 'И')
    ensures var f := Fragment(alpha, run, i);
      if run[i] == 'и' then
        f == (if NearestVowelIsFront(run, i) then "iy" else "ıy")
      else
        f == (if IsAllCaps(alpha, run) then "IY" else "Iy")
  {
    LastVowelWasJinickeIsNearestVowel(run, i);
  }

  /** The scan never looks ahead: a character's fragment is fixed by the
      characters up to and including it and by the run's all-caps flag. */
  lemma {:induction false} NoLookAhead(alpha: Alphabet, run: string, other: string, i: nat)
    requires i < |run| && i < |other| && run[..i + 1] == other[..i + 1]
    requires IsAllCaps(alpha, run) == IsAllCaps(alpha, other)
    ensures Fragment(alpha, run, i) == Fragment(alpha, other, i)
  {
    assert forall k | 0 <= k <= i :: run[k] == run[..i + 1][k] == other[..i + 1][k] == other[k];
    LastVowelWasJinickeIsNearestVowel(run, i);
    LastVowelWasJinickeIsNearestVowel(other, i);
  }

  /** Apart from И, и, У and у, a character's fragment is its fixed
      replacement, whatever precedes it and whatever the case of the run. */
  lemma FixedFragment(alpha: Alphabet, run: string, i: nat)
    requires i < |run| && !IsGlide(run[i])
    ensures Fragment(alpha, run, i) == Replacement(run[i], false, false, false)
  {
    OnlyGlidesReadContext(run[i], IsAllCaps(alpha, run), LastWasVowel(run, i), LastVowelWasJinicke(run, i), false, false, false);
  }

  /** Each character yields at most two characters. */
  lemma TransliterationLength(alpha: Alphabet, run: string)
    ensures |Transliteration(alpha, run)| <= 2 * |run|
  {
    var fragments := Fragments(alpha, run);
    forall i | 0 <= i < |fragments| ensures |fragments[i]| <= 2 {
      FragmentLength(alpha, run, i);
    }
    ConcatLength(fragments);
  }

  lemma {:induction false} ConcatLength(parts: seq<string>)
    requires forall i | 0 <= i < |parts| :: |parts[i]| <= 2
    ensures |Concat(parts)| <= 2 * |parts|
    decreases |parts|
  {
    if parts != [] {
      ConcatLength(parts[..|parts| - 1]);
    }
  }

  lemma FragmentLength(alpha: Alphabet, run: string, i: nat)
    requires i < |run|
    ensures |Fragment(alpha, run, i)| <= 2
  {
    ReplacementShape(run[i], IsAllCaps(alpha, run), LastWasVowel(run, i), LastVowelWasJinicke(run, i));
  }

  /** A character that may stand in the transliteration of `run`: a Latin
      letter or a character of `run`, and in no case a letter that the table
      lists (the Cyrillic alphabet with Ё/ё precomposed). */
  predicate MayBeLeft(run: string, ch: char)
  {
    !IsQazaqLetter(Corrected, ch) && (IsLatin(ch) || ch in run)
  }

  /** Every character of a transliteration is a Latin letter or a character of
      the run that the table does not list, so no letter that the table lists
      is left in it. */
  lemma TransliterationCharacters(alpha: Alphabet, run: string)
    ensures forall ch | ch in Transliteration(alpha, run) :: MayBeLeft(run, ch)
  {
    var fragments := Fragments(alpha, run);
    forall i, ch | 0 <= i < |fragments| && ch in fragments[i] ensures MayBeLeft(run, ch) {
      FragmentCharacters(alpha, run, i);
    }
    ConcatCharacters(run, fragments);
  }

  lemma {:induction false} ConcatCharacters(run: string, parts: seq<string>)
    requires forall i, ch | 0 <= i < |parts| && ch in parts[i] :: MayBeLeft(run, ch)
    ensures forall ch | ch in Concat(parts) :: MayBeLeft(run, ch)
    decreases |parts|
  {
    if parts != [] {
      ConcatCharacters(run, parts[..|parts| - 1]);
    }
  }

  lemma FragmentCharacters(alpha: Alphabet, run: string, i: nat)
    requires i < |run|
    ensures forall ch | ch in Fragment(alpha, run, i) :: MayBeLeft(run, ch)
  {
    var c, caps, vowel, front := run[i], IsAllCaps(alpha, run), LastWasVowel(run, i), LastVowelWasJinicke(run, i);
    CopiedExactlyWhenUnlisted(c, caps, vowel, front);
    if IsQazaqLetter(Corrected, c) {
      ReplacementIsLatin(c, caps, vowel, front);
    }
  }

  /** Each character replaced on its own, as if no vowel preceded it and the
      run were not all caps. */
  function ContextFree(run: string): string
  {
    Concat(seq(|run|, i requires 0 <= i < |run| => Replacement(run[i], false, false, false)))
  }

  /** A run without И, и, У or у is transliterated letter by letter: its
      output does not depend on harmony or on case mode. */
  lemma GlideFreeRunIsContextFree(alpha: Alphabet, run: string)
    requires forall k | 0 <= k < |run| :: !IsGlide(run[k])
    ensures Transliteration(alpha, run) == ContextFree(run)
  {
    var fixed := seq(|run|, i requires 0 <= i < |run| => Replacement(run[i], false, false, false));
    forall i | 0 <= i < |run| ensures Fragments(alpha, run)[i] == fixed[i] {
      FixedFragment(alpha, run, i);
    }
    assert Fragments(alpha, run) == fixed;
  }
}
