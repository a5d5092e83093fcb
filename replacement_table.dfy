/// The per-letter replacement table of `cyrillic_to_latin`
/// (src/converter.rs:16-132) and what it guarantees.
module ReplacementTable {
  import opened CharClasses

  /** The Latin replacement of one character: the table's arms, tried group
      after group (see `ArmsFrom`). */
  function Replacement(c: char, isAllCaps: bool, lastWasVowel: bool, lastVowelWasJinicke: bool): string
  {
    ArmsFrom(0, c, isAllCaps, lastWasVowel, lastVowelWasJinicke)
  }

  /** The table's arms from group `group` on.  Group 0 holds the arms of И, и,
      У and у, the only ones that read the harmony flags kept by the scan and
      the run's all-caps flag.  Groups 1 to 8 hold the other arms, ten at a
      time, in the table's order.  A character that no group lists is kept as
      it is (the final `_ => nochange` arm). */
  function ArmsFrom(group: nat, c: char, isAllCaps: bool, lastWasVowel: bool, lastVowelWasJinicke: bool): string
    decreases 9 - group
  {
    if group == 0 then
      match c
      case 'И' =>
        if lastVowelWasJinicke then
          (if isAllCaps then "IY" else "Iy")
        else
          (if isAllCaps then "IY" else "Iy")
      case 'и' =>
        if lastVowelWasJinicke then "iy" else "ıy"
      case 'У' =>
        if lastWasVowel then "W"
        else if lastVowelWasJinicke then
          (if isAllCaps then "IW" else "Iw")
        else
          (if isAllCaps then "UW" else "Uw")
      case 'у' =>
        if lastWasVowel then "w"
        else if lastVowelWasJinicke then "iw" else "uw"
      case _ => ArmsFrom(1, c, isAllCaps, lastWasVowel, lastVowelWasJinicke)
    else if group == 1 then
      match c
      case 'А' => "A"
      case 'а' => "a"
      case 'Ә' => "Ä"
      case 'ә' => "ä"
      case 'Б' => "B"
      case 'б' => "b"
      case 'В' => "V"
      case 'в' => "v"
      case 'Г' => "G"
      case 'г' => "g"
      case _ => ArmsFrom(2, c, isAllCaps, lastWasVowel, lastVowelWasJinicke)
    else if group == 2 then
      match c
      case 'Ғ' => "Ğ"
      case 'ғ' => "ğ"
      case 'Д' => "D"
      case 'д' => "d"
      case 'Е' => "E"
      case 'е' => "e"
      case 'Ё' => "Yo"
      case 'ё' => "yo"
      case 'Ж' => "J"
      case 'ж' => "j"
      case _ => ArmsFrom(3, c, isAllCaps, lastWasVowel, lastVowelWasJinicke)
    else if group == 3 then
      match c
      case 'З' => "Z"
      case 'з' => "z"
      case 'Й' => "Y"
      case 'й' => "y"
      case 'К' => "K"
      case 'к' => "k"
      case 'Қ' => "Q"
      case 'қ' => "q"
      case 'Л' => "L"
      case 'л' => "l"
      case _ => ArmsFrom(4, c, isAllCaps, lastWasVowel, lastVowelWasJinicke)
    else if group == 4 then
      match c
      case 'М' => "M"
      case 'м' => "m"
      case 'Н' => "N"
      case 'н' => "n"
      case 'Ң' => "Ñ"
      case 'ң' => "ñ"
      case 'О' => "O"
      case 'о' => "o"
      case 'Ө' => "Ö"
      case 'ө' => "ö"
      case _ => ArmsFrom(5, c, isAllCaps, lastWasVowel, lastVowelWasJinicke)
    else if group == 5 then
      match c
      case 'П' => "P"
      case 'п' => "p"
      case 'Р' => "R"
      case 'р' => "r"
      case 'С' => "S"
      case 'с' => "s"
      case 'Т' => "T"
      case 'т' => "t"
      case 'Ұ' => "U"
      case 'ұ' => "u"
      case _ => ArmsFrom(6, c, isAllCaps, lastWasVowel, lastVowelWasJinicke)
    else if group == 6 then
      match c
      case 'Ү' => "Ü"
      case 'ү' => "ü"
      case 'Ф' => "F"
      case 'ф' => "f"
      case 'Х' => "H"
      case 'х' => "h"
      case 'Һ' => "H"
      case 'һ' => "h"
      case 'Ц' => "S"
      case 'ц' => "s"
      case _ => ArmsFrom(7, c, isAllCaps, lastWasVowel, lastVowelWasJinicke)
    else if group == 7 then
      match c
      case 'Ч' => "Ch"
      case 'ч' => "ch"
      case 'Ш' => "C"
      case 'ш' => "c"
      case 'Щ' => "Cc"
      case 'щ' => "cc"
      case 'Ъ' => ""
      case 'ъ' => ""
      case 'Ы' => "I"
      case 'ы' => "ı"
      case _ => ArmsFrom(8, c, isAllCaps, lastWasVowel, lastVowelWasJinicke)
    else if group == 8 then
      match c
      case 'І' => "I"
      case 'і' => "i"
      case 'Ь' => ""
      case 'ь' => ""
      case 'Э' => "Ä"
      case 'э' => "ä"
      case 'Ю' => "Yu"
      case 'ю' => "yu"
      case 'Я' => "Ya"
      case 'я' => "ya"
      case _ => ArmsFrom(9, c, isAllCaps, lastWasVowel, lastVowelWasJinicke)
    else
      [c]
  }

  /** The letters that group `group` lists. */
  function GroupLetters(group: nat): set<char>
  {
    match group
    case 1 => {'А', 'а', 'Ә', 'ә', 'Б', 'б', 'В', 'в', 'Г', 'г'}
    case 2 => {'Ғ', 'ғ', 'Д', 'д', 'Е', 'е', 'Ё', 'ё', 'Ж', 'ж'}
    case 3 => {'З', 'з', 'Й', 'й', 'К', 'к', 'Қ', 'қ', 'Л', 'л'}
    case 4 => {'М', 'м', 'Н', 'н', 'Ң', 'ң', 'О', 'о', 'Ө', 'ө'}
    case 5 => {'П', 'п', 'Р', 'р', 'С', 'с', 'Т', 'т', 'Ұ', 'ұ'}
    case 6 => {'Ү', 'ү', 'Ф', 'ф', 'Х', 'х', 'Һ', 'һ', 'Ц', 'ц'}
    case 7 => {'Ч', 'ч', 'Ш', 'ш', 'Щ', 'щ', 'Ъ', 'ъ', 'Ы', 'ы'}
    case 8 => {'І', 'і', 'Ь', 'ь', 'Э', 'э', 'Ю', 'ю', 'Я', 'я'}
    case _ => {}
  }

  /** A letter with a fixed arm: one that groups 1 to 8 list. */
  predicate HasFixedArm(c: char)
  {
    c in GroupLetters(1) || c in GroupLetters(2) || c in GroupLetters(3) || c in GroupLetters(4) ||
    c in GroupLetters(5) || c in GroupLetters(6) || c in GroupLetters(7) || c in GroupLetters(8)
  }

  /** The letters whose replacement depends on the scan state or the case mode. */
  predicate IsGlide(c: char)
  {
    c == 'И' || c == 'и' || c == 'У' || c == 'у'
  }

  /** The hard and soft signs. */
  predicate IsSign(c: char)
  {
    c == 'Ъ' || c == 'ъ' || c == 'Ь' || c == 'ь'
  }

  /** A Latin string of at most two letters. */
  predicate IsLatinFragment(r: string)
  {
    |r| <= 2 && forall ch | ch in r :: IsLatin(ch)
  }

  /** A character is copied unchanged exactly when it is not a letter of the
      Cyrillic alphabet with Ё/ё precomposed (the `_ => nochange` arm): every
      letter of that alphabet has an arm of its own. */
  lemma CopiedExactlyWhenUnlisted(c: char, isAllCaps: bool, lastWasVowel: bool, lastVowelWasJinicke: bool)
    ensures Replacement(c, isAllCaps, lastWasVowel, lastVowelWasJinicke) == [c] <==> !IsQazaqLetter(Corrected, c)
  {
    ScanArms(c, isAllCaps, lastWasVowel, lastVowelWasJinicke);
    FixedArms(c, isAllCaps, lastWasVowel, lastVowelWasJinicke);
    FixedArmsCoverAlphabet(c);
    if IsLatin(c) {
      LatinIsNotCyrillic(c);
    }
  }

  /** Every replacement is the character itself or at most two Latin letters. */
  lemma ReplacementShape(c: char, isAllCaps: bool, lastWasVowel: bool, lastVowelWasJinicke: bool)
    ensures var r := Replacement(c, isAllCaps, lastWasVowel, lastVowelWasJinicke);
      r == [c] || IsLatinFragment(r)
  {
    ScanArms(c, isAllCaps, lastWasVowel, lastVowelWasJinicke);
    FixedArms(c, isAllCaps, lastWasVowel, lastVowelWasJinicke);
  }

  /** The table is total on the Cyrillic alphabet with Ё/ё precomposed: every
      such letter becomes a Latin string of at most two letters, whatever the
      scan state, so no such letter is left in a replacement. */
  lemma ReplacementIsLatin(c: char, isAllCaps: bool, lastWasVowel: bool, lastVowelWasJinicke: bool)
    requires IsQazaqLetter(Corrected, c)
    ensures var r := Replacement(c, isAllCaps, lastWasVowel, lastVowelWasJinicke);
      |r| <= 2 && forall ch | ch in r :: IsLatin(ch) && !IsQazaqLetter(Corrected, ch)
  {
    CopiedExactlyWhenUnlisted(c, isAllCaps, lastWasVowel, lastVowelWasJinicke);
    ReplacementShape(c, isAllCaps, lastWasVowel, lastVowelWasJinicke);
    forall ch | IsLatin(ch) ensures !IsQazaqLetter(Corrected, ch) {
      LatinIsNotCyrillic(ch);
    }
  }

  /** The replacement is empty exactly for the hard and soft signs Ъ ъ Ь ь. */
  lemma EmptyOnlyForSigns(c: char, isAllCaps: bool, lastWasVowel: bool, lastVowelWasJinicke: bool)
    ensures Replacement(c, isAllCaps, lastWasVowel, lastVowelWasJinicke) == [] <==> IsSign(c)
  {
    ScanArms(c, isAllCaps, lastWasVowel, lastVowelWasJinicke);
    FixedArms(c, isAllCaps, lastWasVowel, lastVowelWasJinicke);
    FixedArmsCoverAlphabet(c);
  }

  /** Apart from И/и and У/у, a letter's replacement does not depend on the
      harmony flags or on the run being written in capitals. */
  lemma OnlyGlidesReadContext(c: char, caps1: bool, vowel1: bool, front1: bool, caps2: bool, vowel2: bool, front2: bool)
    requires !IsGlide(c)
    ensures Replacement(c, caps1, vowel1, front1) == Replacement(c, caps2, vowel2, front2)
  {
    ScanArms(c, caps1, vowel1, front1);
    ScanArms(c, caps2, vowel2, front2);
    FixedArms(c, caps1, vowel1, front1);
    FixedArms(c, caps2, vowel2, front2);
  }

  /** The all-caps class, corrected, is the capital letters of the table's
      alphabet: a letter other than a hard or soft sign is in it exactly when
      its replacement outside an all-caps run and before any vowel begins
      with a capital Latin letter. */
  lemma CapitalsAreUppercaseLetters(c: char)
    requires IsQazaqLetter(Corrected, c) && !IsSign(c)
    ensures IsQazaqCapital(Corrected, c) <==> StartsUpper(Replacement(c, false, false, false))
  {
    ScanArms(c, false, false, false);
    if !IsGlide(c) {
      FixedArmsCoverAlphabet(c);
      Group1Arms(c, false, false, false);
      Group2Arms(c, false, false, false);
      Group3Arms(c, false, false, false);
      Group4Arms(c, false, false, false);
      Group5Arms(c, false, false, false);
      Group6Arms(c, false, false, false);
      Group7Arms(c, false, false, false);
      Group8Arms(c, false, false, false);
    }
  }

  /** Group 0: И, и, У and у become one or two Latin letters; every other
      character goes on to group 1. */
  lemma ScanArms(c: char, isAllCaps: bool, lastWasVowel: bool, lastVowelWasJinicke: bool)
    ensures var r := ArmsFrom(0, c, isAllCaps, lastWasVowel, lastVowelWasJinicke);
      if IsGlide(c) then r != [] && IsLatinFragment(r) else r == ArmsFrom(1, c, isAllCaps, lastWasVowel, lastVowelWasJinicke)
  {
  }

  /** The letters with a fixed arm are the Cyrillic alphabet with Ё/ё
      precomposed, less И, и, У and у. */
  lemma FixedArmsCoverAlphabet(c: char)
    ensures HasFixedArm(c) <==> IsQazaqLetter(Corrected, c) && !IsGlide(c)
  {
    if HasFixedArm(c) {
      FixedLettersAreLetters(c);
    }
    if IsQazaqLetter(Corrected, c) && !IsGlide(c) {
      if 'А' <= c <= 'П' {
        CoverRange1(c);
      } else if 'Р' <= c <= 'Я' {
        CoverRange2(c);
      } else if 'а' <= c <= 'п' {
        CoverRange3(c);
      } else if 'р' <= c <= 'я' {
        CoverRange4(c);
      } else {
        CoverOthers(c);
      }
    }
  }

  lemma FixedLettersAreLetters(c: char)
    requires HasFixedArm(c)
    ensures IsQazaqLetter(Corrected, c) && !IsGlide(c)
  {
  }

  lemma CoverRange1(c: char)
    requires 'А' <= c <= 'П' && !IsGlide(c)
    ensures HasFixedArm(c)
  {
  }

  lemma CoverRange2(c: char)
    requires 'Р' <= c <= 'Я' && !IsGlide(c)
    ensures HasFixedArm(c)
  {
  }

  lemma CoverRange3(c: char)
    requires 'а' <= c <= 'п' && !IsGlide(c)
    ensures HasFixedArm(c)
  {
  }

  lemma CoverRange4(c: char)
    requires 'р' <= c <= 'я' && !IsGlide(c)
    ensures HasFixedArm(c)
  {
  }

  lemma CoverOthers(c: char)
    requires IsQazaqLetter(Corrected, c) && !('А' <= c <= 'я')
    ensures HasFixedArm(c)
  {
  }

  /** Groups 1 to 8: a letter that one of them lists becomes at most two
      Latin letters, none exactly for the signs, and every other character is
      kept; these groups never read the flags. */
  lemma FixedArms(c: char, isAllCaps: bool, lastWasVowel: bool, lastVowelWasJinicke: bool)
    ensures var r := ArmsFrom(1, c, isAllCaps, lastWasVowel, lastVowelWasJinicke);
      r == ArmsFrom(1, c, false, false, false) &&
      if HasFixedArm(c) then IsLatinFragment(r) && (r == [] <==> IsSign(c)) else r == [c]
  {
    FixedArmsIgnoreFlags(1, c, isAllCaps, lastWasVowel, lastVowelWasJinicke);
    Group1Arms(c, isAllCaps, lastWasVowel, lastVowelWasJinicke);
    Group2Arms(c, isAllCaps, lastWasVowel, lastVowelWasJinicke);
    Group3Arms(c, isAllCaps, lastWasVowel, lastVowelWasJinicke);
    Group4Arms(c, isAllCaps, lastWasVowel, lastVowelWasJinicke);
    Group5Arms(c, isAllCaps, lastWasVowel, lastVowelWasJinicke);
    Group6Arms(c, isAllCaps, lastWasVowel, lastVowelWasJinicke);
    Group7Arms(c, isAllCaps, lastWasVowel, lastVowelWasJinicke);
    Group8Arms(c, isAllCaps, lastWasVowel, lastVowelWasJinicke);
  }

  lemma Group1Arms(c: char, isAllCaps: bool, lastWasVowel: bool, lastVowelWasJinicke: bool)
    ensures var r := ArmsFrom(1, c, isAllCaps, lastWasVowel, lastVowelWasJinicke);
      if c in GroupLetters(1) then
        IsLatinFragment(r) && (r == [] <==> IsSign(c)) &&
        (!IsSign(c) ==> (IsQazaqCapital(Corrected, c) <==> StartsUpper(r)))
      else r == ArmsFrom(2, c, isAllCaps, lastWasVowel, lastVowelWasJinicke)
  {
  }

  lemma Group2Arms(c: char, isAllCaps: bool, lastWasVowel: bool, lastVowelWasJinicke: bool)
    ensures var r := ArmsFrom(2, c, isAllCaps, lastWasVowel, lastVowelWasJinicke);
      if c in GroupLetters(2) then
        IsLatinFragment(r) && (r == [] <==> IsSign(c)) &&
        (!IsSign(c) ==> (IsQazaqCapital(Corrected, c) <==> StartsUpper(r)))
      else r == ArmsFrom(3, c, isAllCaps, lastWasVowel, lastVowelWasJinicke)
  {
  }

  lemma Group3Arms(c: char, isAllCaps: bool, lastWasVowel: bool, lastVowelWasJinicke: bool)
    ensures var r := ArmsFrom(3, c, isAllCaps, lastWasVowel, lastVowelWasJinicke);
      if c in GroupLetters(3) then
        IsLatinFragment(r) && (r == [] <==> IsSign(c)) &&
        (!IsSign(c) ==> (IsQazaqCapital(Corrected, c) <==> StartsUpper(r)))
      else r == ArmsFrom(4, c, isAllCaps, lastWasVowel, lastVowelWasJinicke)
  {
  }

  lemma Group4Arms(c: char, isAllCaps: bool, lastWasVowel: bool, lastVowelWasJinicke: bool)
    ensures var r := ArmsFrom(4, c, isAllCaps, lastWasVowel, lastVowelWasJinicke);
      if c in GroupLetters(4) then
        IsLatinFragment(r) && (r == [] <==> IsSign(c)) &&
        (!IsSign(c) ==> (IsQazaqCapital(Corrected, c) <==> StartsUpper(r)))
      else r == ArmsFrom(5, c, isAllCaps, lastWasVowel, lastVowelWasJinicke)
  {
  }

  lemma Group5Arms(c: char, isAllCaps: bool, lastWasVowel: bool, lastVowelWasJinicke: bool)
    ensures var r := ArmsFrom(5, c, isAllCaps, lastWasVowel, lastVowelWasJinicke);
      if c in GroupLetters(5) then
        IsLatinFragment(r) && (r == [] <==> IsSign(c)) &&
        (!IsSign(c) ==> (IsQazaqCapital(Corrected, c) <==> StartsUpper(r)))
      else r == ArmsFrom(6, c, isAllCaps, lastWasVowel, lastVowelWasJinicke)
  {
  }

  lemma Group6Arms(c: char, isAllCaps: bool, lastWasVowel: bool, lastVowelWasJinicke: bool)
    ensures var r := ArmsFrom(6, c, isAllCaps, lastWasVowel, lastVowelWasJinicke);
      if c in GroupLetters(6) then
        IsLatinFragment(r) && (r == [] <==> IsSign(c)) &&
        (!IsSign(c) ==> (IsQazaqCapital(Corrected, c) <==> StartsUpper(r)))
      else r == ArmsFrom(7, c, isAllCaps, lastWasVowel, lastVowelWasJinicke)
  {
  }

  lemma Group7Arms(c: char, isAllCaps: bool, lastWasVowel: bool, lastVowelWasJinicke: bool)
    ensures var r := ArmsFrom(7, c, isAllCaps, lastWasVowel, lastVowelWasJinicke);
      if c in GroupLetters(7) then
        IsLatinFragment(r) && (r == [] <==> IsSign(c)) &&
        (!IsSign(c) ==> (IsQazaqCapital(Corrected, c) <==> StartsUpper(r)))
      else r == ArmsFrom(8, c, isAllCaps, lastWasVowel, lastVowelWasJinicke)
  {
  }

  lemma Group8Arms(c: char, isAllCaps: bool, lastWasVowel: bool, lastVowelWasJinicke: bool)
    ensures var r := ArmsFrom(8, c, isAllCaps, lastWasVowel, lastVowelWasJinicke);
      if c in GroupLetters(8) then
        IsLatinFragment(r) && (r == [] <==> IsSign(c)) &&
        (!IsSign(c) ==> (IsQazaqCapital(Corrected, c) <==> StartsUpper(r)))
      else r == ArmsFrom(9, c, isAllCaps, lastWasVowel, lastVowelWasJinicke)
  {
  }

  /** Groups 1 to 8 do not read the flags. */
  lemma {:induction false} FixedArmsIgnoreFlags(group: nat, c: char, isAllCaps: bool, lastWasVowel: bool, lastVowelWasJinicke: bool)
    requires 1 <= group
    ensures ArmsFrom(group, c, isAllCaps, lastWasVowel, lastVowelWasJinicke) == ArmsFrom(group, c, false, false, false)
    decreases 9 - group
  {
    if group <= 8 {
      FixedArmsIgnoreFlags(group + 1, c, isAllCaps, lastWasVowel, lastVowelWasJinicke);
    }
  }
}
