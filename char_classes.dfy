/// Character classes used by the Qazaq Cyrillic-to-Latin converter
/// (src/converter.rs): the two regular-expression character classes, written
/// as membership predicates, the two vowel lists and the Latin letters the
/// replacement table emits.
module CharClasses {

  /** Which spelling of the two regular-expression character classes is meant.

      `AsWritten` is the classes exactly as the characters of the source spell
      them.  There the letter Ё/ё is written decomposed, as Е/е followed by
      U+0308 COMBINING DIAERESIS, so each class holds U+0308 (Е and е are in
      the range already) and holds neither precomposed Ё (U+0401) nor ё (U+0451).

      `Corrected` is both classes with precomposed Ё and ё, which is what the
      'Ё' and 'ё' arms of the replacement table and the back-vowel list expect.

      `LetterClassCorrected` corrects only the run class of `convert` and keeps
      the all-caps class as written: the setting in which the spelling of the
      all-caps class can be seen through `convert`. */
  datatype Alphabet = AsWritten | LetterClassCorrected | Corrected

  const CombiningDiaeresis: char := '\U{0308}'

  /** The Qazaq letters outside the range А-я that the run class lists. */
  predicate IsQazaqExtraLetter(c: char)
  {
    match c
    case 'І' | 'і' | 'Ғ' | 'ғ' | 'Қ' | 'қ' | 'Ң' | 'ң' | 'Ү' | 'ү' | 'Ұ' | 'ұ' | 'Һ' | 'һ' | 'Ә' | 'ә' | 'Ө' | 'ө' => true
    case _ => false
  }

  /** The capitals outside the range А-Я that the all-caps class lists. */
  predicate IsQazaqExtraCapital(c: char)
  {
    match c
    case 'І' | 'Ғ' | 'Қ' | 'Ң' | 'Ү' | 'Ұ' | 'Һ' | 'Ә' | 'Ө' => true
    case _ => false
  }

  /** Membership in the class of the run-finding expression `[А-яІіЁёҒғ…Өө]+`:
      U+0410..U+044F, the Qazaq letters, and the spelling of Ё/ё. */
  predicate IsQazaqLetter(alpha: Alphabet, c: char)
  {
    ('А' <= c <= 'я') || IsQazaqExtraLetter(c) ||
    match alpha
    case AsWritten => c == CombiningDiaeresis
    case _ => c == 'Ё' || c == 'ё'
  }

  /** Membership in the class of the all-caps expression `^[А-ЯІЁҒҚҢҮҰҺӘӨ]+$`:
      U+0410..U+042F, the Qazaq capitals, and the spelling of Ё. */
  predicate IsQazaqCapital(alpha: Alphabet, c: char)
  {
    ('А' <= c <= 'Я') || IsQazaqExtraCapital(c) ||
    match alpha
    case Corrected => c == 'Ё'
    case _ => c == CombiningDiaeresis
  }

  /** The back ("juan") vowel list; it includes У/у. */
  predicate IsJuanVowel(c: char)
  {
    match c
    case 'А' | 'а' | 'Ё' | 'ё' | 'О' | 'о' | 'У' | 'у' | 'Ұ' | 'ұ' | 'Ы' | 'ы' | 'Ю' | 'ю' | 'Я' | 'я' => true
    case _ => false
  }

  /** The front ("jinicke") vowel list; it includes И/и. */
  predicate IsJinickeVowel(c: char)
  {
    match c
    case 'Ә' | 'ә' | 'Е' | 'е' | 'И' | 'и' | 'Ө' | 'ө' | 'Ү' | 'ү' | 'І' | 'і' | 'Э' | 'э' => true
    case _ => false
  }

  predicate IsVowel(c: char) { IsJuanVowel(c) || IsJinickeVowel(c) }

  /** The letters of the Latin orthography that the replacement table emits. */
  predicate IsLatin(c: char)
  {
    ('A' <= c <= 'Z') || ('a' <= c <= 'z') ||
    match c
    case 'Ä' | 'ä' | 'Ğ' | 'ğ' | 'Ñ' | 'ñ' | 'Ö' | 'ö' | 'Ü' | 'ü' | 'ı' => true
    case _ => false
  }

  /** The capital letters of the Latin orthography that the table emits. */
  predicate IsUpperLatin(c: char)
  {
    ('A' <= c <= 'Z') ||
    match c
    case 'Ä' | 'Ğ' | 'Ñ' | 'Ö' | 'Ü' => true
    case _ => false
  }

  /** A string that begins with a capital Latin letter. */
  predicate StartsUpper(s: string)
  {
    |s| > 0 && IsUpperLatin(s[0])
  }

  /** No Latin letter is in any spelling of the letter class. */
  lemma LatinIsNotCyrillic(c: char)
    requires IsLatin(c)
    ensures !IsQazaqLetter(Corrected, c) && !IsQazaqLetter(AsWritten, c) && !IsQazaqLetter(LetterClassCorrected, c)
  {
  }
}
