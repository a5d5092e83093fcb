/// The converter's own test cases (src/converter.rs:169-197), then what the
/// code gives for words where a look-ahead or exception-list version of the
/// glide rules would differ, and the two discrepancies of the Ё spelling.
module Scenarios {
  import opened CharClasses
  import opened ReplacementTable
  import opened RunTransliteration
  import opened Converter

  /** "Айттым сәлем, Қаламқас!": three runs and the text between them, each
      run converted on its own. */
  lemma ScenarioGreeting()
    ensures Conversion(AsWritten, "Айттым сәлем, Қаламқас!") == "Ayttım sälem, Qalamqas!"
  {
    GreetingPieces();
    ThreeRuns(AsWritten, "Айттым", " ", "сәлем", ", ", "Қаламқас", "!");
    GreetingFirstWord();
    GreetingSecondWord();
    GreetingThirdWord();
    GreetingOutput(Conversion(AsWritten, "Айттым"), Conversion(AsWritten, "сәлем"), Conversion(AsWritten, "Қаламқас"));
  }

  /** The greeting is its three runs with ' ', ", " and '!' between them. */
  lemma GreetingPieces()
    ensures "Айттым сәлем, Қаламқас!" == "Айттым" + (" " + ("сәлем" + (", " + ("Қаламқас" + "!"))))
  {
  }

  /** The expected output put together from the converted runs. */
  lemma GreetingOutput(first: string, second: string, third: string)
    requires first == "Ayttım" && second == "sälem" && third == "Qalamqas"
    ensures first + (" " + (second + (", " + (third + "!")))) == "Ayttım sälem, Qalamqas!"
  {
  }

  /** Three runs with text between and after them convert run by run. */
  lemma ThreeRuns(alpha: Alphabet, w1: string, g1: string, w2: string, g2: string, w3: string, g3: string)
    requires w1 != [] && IsQazaqLetter(alpha, w1[|w1| - 1])
    requires g1 != [] && !IsQazaqLetter(alpha, g1[0]) && !IsQazaqLetter(alpha, g1[|g1| - 1])
    requires w2 != [] && IsQazaqLetter(alpha, w2[0]) && IsQazaqLetter(alpha, w2[|w2| - 1])
    requires g2 != [] && !IsQazaqLetter(alpha, g2[0]) && !IsQazaqLetter(alpha, g2[|g2| - 1])
    requires w3 != [] && IsQazaqLetter(alpha, w3[0]) && IsQazaqLetter(alpha, w3[|w3| - 1])
    requires g3 != [] && !IsQazaqLetter(alpha, g3[0])
    requires forall k | 0 <= k < |g1| :: !IsQazaqLetter(alpha, g1[k])
    requires forall k | 0 <= k < |g2| :: !IsQazaqLetter(alpha, g2[k])
    requires forall k | 0 <= k < |g3| :: !IsQazaqLetter(alpha, g3[k])
    ensures Conversion(alpha, w1 + (g1 + (w2 + (g2 + (w3 + g3))))) ==
            Conversion(alpha, w1) + (g1 + (Conversion(alpha, w2) + (g2 + (Conversion(alpha, w3) + g3))))
  {
    ConversionAtBoundary(alpha, w3, g3);
    ConversionAtBoundary(alpha, g2, w3 + g3);
    ConversionAtBoundary(alpha, w2, g2 + (w3 + g3));
    ConversionAtBoundary(alpha, g1, w2 + (g2 + (w3 + g3)));
    ConversionAtBoundary(alpha, w1, g1 + (w2 + (g2 + (w3 + g3))));
    ConversionWithoutLetters(alpha, g1);
    ConversionWithoutLetters(alpha, g2);
    ConversionWithoutLetters(alpha, g3);
  }

  /** Concatenating one more fragment. */
  lemma ConcatStep(parts: seq<string>, k: nat)
    requires 0 < k <= |parts|
    ensures Concat(parts[..k]) == Concat(parts[..k - 1]) + parts[k - 1]
  {
    assert parts[..k][..k - 1] == parts[..k - 1];
  }

  /** Ы is always dotless ı; й is y. */
  lemma GreetingFirstWord()
    ensures Conversion(AsWritten, "Айттым") == "Ayttım"
  {
    GreetingFirstWordRun("Айттым");
  }

  lemma GreetingFirstWordRun(w: string)
    requires |w| == 6 && w[0] == 'А' && w[1] == 'й' && w[2] == 'т' && w[3] == 'т' && w[4] == 'ы' && w[5] == 'м'
    ensures Conversion(AsWritten, w) == "Ayttım"
  {
    GreetingFirstWordSteps(w);
    ConversionOfRun(AsWritten, w);
  }

  lemma GreetingFirstWordSteps(w: string)
    requires |w| == 6 && w[0] == 'А' && w[1] == 'й' && w[2] == 'т' && w[3] == 'т' && w[4] == 'ы' && w[5] == 'м'
    ensures Transliteration(AsWritten, w) == "Ayttım"
  {
    GreetingFirstWordFragments1(w);
    GreetingFirstWordFragments2(w);
    GreetingFirstWordFragments3(w);
    GreetingFirstWordFragments4(w);
    GreetingFirstWordFragments5(w);
    GreetingFirstWordFragments6(w);
    GreetingFirstWordConcat(Fragments(AsWritten, w));
  }

  lemma GreetingFirstWordFragments1(w: string)
    requires |w| == 6 && w[0] == 'А' && w[1] == 'й' && w[2] == 'т' && w[3] == 'т' && w[4] == 'ы' && w[5] == 'м'
    ensures Fragments(AsWritten, w)[0] == "A"
  {
    FixedFragment(AsWritten, w, 0);
  }

  lemma GreetingFirstWordFragments2(w: string)
    requires |w| == 6 && w[0] == 'А' && w[1] == 'й' && w[2] == 'т' && w[3] == 'т' && w[4] == 'ы' && w[5] == 'м'
    ensures Fragments(AsWritten, w)[1] == "y"
  {
    FixedFragment(AsWritten, w, 1);
  }

  lemma GreetingFirstWordFragments3(w: string)
    requires |w| == 6 && w[0] == 'А' && w[1] == 'й' && w[2] == 'т' && w[3] == 'т' && w[4] == 'ы' && w[5] == 'м'
    ensures Fragments(AsWritten, w)[2] == "t"
  {
    FixedFragment(AsWritten, w, 2);
  }

  lemma GreetingFirstWordFragments4(w: string)
    requires |w| == 6 && w[0] == 'А' && w[1] == 'й' && w[2] == 'т' && w[3] == 'т' && w[4] == 'ы' && w[5] == 'м'
    ensures Fragments(AsWritten, w)[3] == "t"
  {
    FixedFragment(AsWritten, w, 3);
  }

  lemma GreetingFirstWordFragments5(w: string)
    requires |w| == 6 && w[0] == 'А' && w[1] == 'й' && w[2] == 'т' && w[3] == 'т' && w[4] == 'ы' && w[5] == 'м'
    ensures Fragments(AsWritten, w)[4] == "ı"
  {
    FixedFragment(AsWritten, w, 4);
  }

  lemma GreetingFirstWordFragments6(w: string)
    requires |w| == 6 && w[0] == 'А' && w[1] == 'й' && w[2] == 'т' && w[3] == 'т' && w[4] == 'ы' && w[5] == 'м'
    ensures Fragments(AsWritten, w)[5] == "m"
  {
    FixedFragment(AsWritten, w, 5);
  }

  lemma GreetingFirstWordConcat(parts: seq<string>)
    requires |parts| == 6 && parts[0] == "A" && parts[1] == "y" && parts[2] == "t" && parts[3] == "t" && parts[4] == "ı" && parts[5] == "m"
    ensures Concat(parts) == "Ayttım"
  {
    ConcatStep(parts, 1);
    assert Concat(parts[..1]) == "A";
    ConcatStep(parts, 2);
    assert Concat(parts[..2]) == "Ay";
    ConcatStep(parts, 3);
    assert Concat(parts[..3]) == "Ayt";
    ConcatStep(parts, 4);
    assert Concat(parts[..4]) == "Aytt";
    ConcatStep(parts, 5);
    assert Concat(parts[..5]) == "Ayttı";
    ConcatStep(parts, 6);
    assert parts[..6] == parts;
  }

  /** Ә is ä. */
  lemma GreetingSecondWord()
    ensures Conversion(AsWritten, "сәлем") == "sälem"
  {
    GreetingSecondWordRun("сәлем");
  }

  lemma GreetingSecondWordRun(w: string)
    requires |w| == 5 && w[0] == 'с' && w[1] == 'ә' && w[2] == 'л' && w[3] == 'е' && w[4] == 'м'
    ensures Conversion(AsWritten, w) == "sälem"
  {
    GreetingSecondWordSteps(w);
    ConversionOfRun(AsWritten, w);
  }

  lemma GreetingSecondWordSteps(w: string)
    requires |w| == 5 && w[0] == 'с' && w[1] == 'ә' && w[2] == 'л' && w[3] == 'е' && w[4] == 'м'
    ensures Transliteration(AsWritten, w) == "sälem"
  {
    GreetingSecondWordFragments1(w);
    GreetingSecondWordFragments2(w);
    GreetingSecondWordFragments3(w);
    GreetingSecondWordFragments4(w);
    GreetingSecondWordFragments5(w);
    GreetingSecondWordConcat(Fragments(AsWritten, w));
  }

  lemma GreetingSecondWordFragments1(w: string)
    requires |w| == 5 && w[0] == 'с' && w[1] == 'ә' && w[2] == 'л' && w[3] == 'е' && w[4] == 'м'
    ensures Fragments(AsWritten, w)[0] == "s"
  {
    FixedFragment(AsWritten, w, 0);
  }

  lemma GreetingSecondWordFragments2(w: string)
    requires |w| == 5 && w[0] == 'с' && w[1] == 'ә' && w[2] == 'л' && w[3] == 'е' && w[4] == 'м'
    ensures Fragments(AsWritten, w)[1] == "ä"
  {
    FixedFragment(AsWritten, w, 1);
  }

  lemma GreetingSecondWordFragments3(w: string)
    requires |w| == 5 && w[0] == 'с' && w[1] == 'ә' && w[2] == 'л' && w[3] == 'е' && w[4] == 'м'
    ensures Fragments(AsWritten, w)[2] == "l"
  {
    FixedFragment(AsWritten, w, 2);
  }

  lemma GreetingSecondWordFragments4(w: string)
    requires |w| == 5 && w[0] == 'с' && w[1] == 'ә' && w[2] == 'л' && w[3] == 'е' && w[4] == 'м'
    ensures Fragments(AsWritten, w)[3] == "e"
  {
    FixedFragment(AsWritten, w, 3);
  }

  lemma GreetingSecondWordFragments5(w: string)
    requires |w| == 5 && w[0] == 'с' && w[1] == 'ә' && w[2] == 'л' && w[3] == 'е' && w[4] == 'м'
    ensures Fragments(AsWritten, w)[4] == "m"
  {
    FixedFragment(AsWritten, w, 4);
  }

  lemma GreetingSecondWordConcat(parts: seq<string>)
    requires |parts| == 5 && parts[0] == "s" && parts[1] == "ä" && parts[2] == "l" && parts[3] == "e" && parts[4] == "m"
    ensures Concat(parts) == "sälem"
  {
    ConcatStep(parts, 1);
    assert Concat(parts[..1]) == "s";
    ConcatStep(parts, 2);
    assert Concat(parts[..2]) == "sä";
    ConcatStep(parts, 3);
    assert Concat(parts[..3]) == "säl";
    ConcatStep(parts, 4);
    assert Concat(parts[..4]) == "säle";
    ConcatStep(parts, 5);
    assert parts[..5] == parts;
  }

  /** Қ is Q and қ is q. */
  lemma GreetingThirdWord()
    ensures Conversion(AsWritten, "Қаламқас") == "Qalamqas"
  {
    GreetingThirdWordRun("Қаламқас");
  }

  lemma GreetingThirdWordRun(w: string)
    requires |w| == 8 && w[0] == 'Қ' && w[1] == 'а' && w[2] == 'л' && w[3] == 'а' && w[4] == 'м' && w[5] == 'қ' && w[6] == 'а' && w[7] == 'с'
    ensures Conversion(AsWritten, w) == "Qalamqas"
  {
    GreetingThirdWordSteps(w);
    ConversionOfRun(AsWritten, w);
  }

  lemma GreetingThirdWordSteps(w: string)
    requires |w| == 8 && w[0] == 'Қ' && w[1] == 'а' && w[2] == 'л' && w[3] == 'а' && w[4] == 'м' && w[5] == 'қ' && w[6] == 'а' && w[7] == 'с'
    ensures Transliteration(AsWritten, w) == "Qalamqas"
  {
    GreetingThirdWordFragments1(w);
    GreetingThirdWordFragments2(w);
    GreetingThirdWordFragments3(w);
    GreetingThirdWordFragments4(w);
    GreetingThirdWordFragments5(w);
    GreetingThirdWordFragments6(w);
    GreetingThirdWordFragments7(w);
    GreetingThirdWordFragments8(w);
    GreetingThirdWordConcat(Fragments(AsWritten, w));
  }

  lemma GreetingThirdWordFragments1(w: string)
    requires |w| == 8 && w[0] == 'Қ' && w[1] == 'а' && w[2] == 'л' && w[3] == 'а' && w[4] == 'м' && w[5] == 'қ' && w[6] == 'а' && w[7] == 'с'
    ensures Fragments(AsWritten, w)[0] == "Q"
  {
    FixedFragment(AsWritten, w, 0);
  }

  lemma GreetingThirdWordFragments2(w: string)
    requires |w| == 8 && w[0] == 'Қ' && w[1] == 'а' && w[2] == 'л' && w[3] == 'а' && w[4] == 'м' && w[5] == 'қ' && w[6] == 'а' && w[7] == 'с'
    ensures Fragments(AsWritten, w)[1] == "a"
  {
    FixedFragment(AsWritten, w, 1);
  }

  lemma GreetingThirdWordFragments3(w: string)
    requires |w| == 8 && w[0] == 'Қ' && w[1] == 'а' && w[2] == 'л' && w[3] == 'а' && w[4] == 'м' && w[5] == 'қ' && w[6] == 'а' && w[7] == 'с'
    ensures Fragments(AsWritten, w)[2] == "l"
  {
    FixedFragment(AsWritten, w, 2);
  }

  lemma GreetingThirdWordFragments4(w: string)
    requires |w| == 8 && w[0] == 'Қ' && w[1] == 'а' && w[2] == 'л' && w[3] == 'а' && w[4] == 'м' && w[5] == 'қ' && w[6] == 'а' && w[7] == 'с'
    ensures Fragments(AsWritten, w)[3] == "a"
  {
    FixedFragment(AsWritten, w, 3);
  }

  lemma GreetingThirdWordFragments5(w: string)
    requires |w| == 8 && w[0] == 'Қ' && w[1] == 'а' && w[2] == 'л' && w[3] == 'а' && w[4] == 'м' && w[5] == 'қ' && w[6] == 'а' && w[7] == 'с'
    ensures Fragments(AsWritten, w)[4] == "m"
  {
    FixedFragment(AsWritten, w, 4);
  }

  lemma GreetingThirdWordFragments6(w: string)
    requires |w| == 8 && w[0] == 'Қ' && w[1] == 'а' && w[2] == 'л' && w[3] == 'а' && w[4] == 'м' && w[5] == 'қ' && w[6] == 'а' && w[7] == 'с'
    ensures Fragments(AsWritten, w)[5] == "q"
  {
    FixedFragment(AsWritten, w, 5);
  }

  lemma GreetingThirdWordFragments7(w: string)
    requires |w| == 8 && w[0] == 'Қ' && w[1] == 'а' && w[2] == 'л' && w[3] == 'а' && w[4] == 'м' && w[5] == 'қ' && w[6] == 'а' && w[7] == 'с'
    ensures Fragments(AsWritten, w)[6] == "a"
  {
    FixedFragment(AsWritten, w, 6);
  }

  lemma GreetingThirdWordFragments8(w: string)
    requires |w| == 8 && w[0] == 'Қ' && w[1] == 'а' && w[2] == 'л' && w[3] == 'а' && w[4] == 'м' && w[5] == 'қ' && w[6] == 'а' && w[7] == 'с'
    ensures Fragments(AsWritten, w)[7] == "s"
  {
    FixedFragment(AsWritten, w, 7);
  }

  lemma GreetingThirdWordConcat(parts: seq<string>)
    requires |parts| == 8 && parts[0] == "Q" && parts[1] == "a" && parts[2] == "l" && parts[3] == "a" && parts[4] == "m" && parts[5] == "q" && parts[6] == "a" && parts[7] == "s"
    ensures Concat(parts) == "Qalamqas"
  {
    ConcatStep(parts, 1);
    assert Concat(parts[..1]) == "Q";
    ConcatStep(parts, 2);
    assert Concat(parts[..2]) == "Qa";
    ConcatStep(parts, 3);
    assert Concat(parts[..3]) == "Qal";
    ConcatStep(parts, 4);
    assert Concat(parts[..4]) == "Qala";
    ConcatStep(parts, 5);
    assert Concat(parts[..5]) == "Qalam";
    ConcatStep(parts, 6);
    assert Concat(parts[..6]) == "Qalamq";
    ConcatStep(parts, 7);
    assert Concat(parts[..7]) == "Qalamqa";
    ConcatStep(parts, 8);
    assert parts[..8] == parts;
  }

  /** и with no vowel before it is the back glide ıy. */
  lemma ScenarioMiy()
    ensures Conversion(AsWritten, "ми") == "mıy"
  {
    ScenarioMiyRun("ми");
  }

  lemma ScenarioMiyRun(w: string)
    requires |w| == 2 && w[0] == 'м' && w[1] == 'и'
    ensures Conversion(AsWritten, w) == "mıy"
  {
    ScenarioMiySteps(w);
    ConversionOfRun(AsWritten, w);
  }

  lemma ScenarioMiySteps(w: string)
    requires |w| == 2 && w[0] == 'м' && w[1] == 'и'
    ensures Transliteration(AsWritten, w) == "mıy"
  {
    ScenarioMiyFragments1(w);
    ScenarioMiyFragments2(w);
    ScenarioMiyConcat(Fragments(AsWritten, w));
  }

  lemma ScenarioMiyFragments1(w: string)
    requires |w| == 2 && w[0] == 'м' && w[1] == 'и'
    ensures Fragments(AsWritten, w)[0] == "m"
  {
    FixedFragment(AsWritten, w, 0);
  }

  lemma ScenarioMiyFragments2(w: string)
    requires |w| == 2 && w[0] == 'м' && w[1] == 'и'
    ensures Fragments(AsWritten, w)[1] == "ıy"
  {
    assert !IsQazaqCapital(AsWritten, w[0]);
  }

  lemma ScenarioMiyConcat(parts: seq<string>)
    requires |parts| == 2 && parts[0] == "m" && parts[1] == "ıy"
    ensures Concat(parts) == "mıy"
  {
    ConcatStep(parts, 1);
    assert Concat(parts[..1]) == "m";
    ConcatStep(parts, 2);
    assert parts[..2] == parts;
  }

  /** у with no vowel before it is uw. */
  lemma ScenarioSuw()
    ensures Conversion(AsWritten, "су") == "suw"
  {
    ScenarioSuwRun("су");
  }

  lemma ScenarioSuwRun(w: string)
    requires |w| == 2 && w[0] == 'с' && w[1] == 'у'
    ensures Conversion(AsWritten, w) == "suw"
  {
    ScenarioSuwSteps(w);
    ConversionOfRun(AsWritten, w);
  }

  lemma ScenarioSuwSteps(w: string)
    requires |w| == 2 && w[0] == 'с' && w[1] == 'у'
    ensures Transliteration(AsWritten, w) == "suw"
  {
    ScenarioSuwFragments1(w);
    ScenarioSuwFragments2(w);
    ScenarioSuwConcat(Fragments(AsWritten, w));
  }

  lemma ScenarioSuwFragments1(w: string)
    requires |w| == 2 && w[0] == 'с' && w[1] == 'у'
    ensures Fragments(AsWritten, w)[0] == "s"
  {
    FixedFragment(AsWritten, w, 0);
  }

  lemma ScenarioSuwFragments2(w: string)
    requires |w| == 2 && w[0] == 'с' && w[1] == 'у'
    ensures Fragments(AsWritten, w)[1] == "uw"
  {
    assert !IsQazaqCapital(AsWritten, w[0]);
  }

  lemma ScenarioSuwConcat(parts: seq<string>)
    requires |parts| == 2 && parts[0] == "s" && parts[1] == "uw"
    ensures Concat(parts) == "suw"
  {
    ConcatStep(parts, 1);
    assert Concat(parts[..1]) == "s";
    ConcatStep(parts, 2);
    assert parts[..2] == parts;
  }

  /** у after the front vowel ү, with a consonant between, is iw. */
  lemma ScenarioJuziwci()
    ensures Conversion(AsWritten, "жүзуші") == "jüziwci"
  {
    ScenarioJuziwciRun("жүзуші");
  }

  lemma ScenarioJuziwciRun(w: string)
    requires |w| == 6 && w[0] == 'ж' && w[1] == 'ү' && w[2] == 'з' && w[3] == 'у' && w[4] == 'ш' && w[5] == 'і'
    ensures Conversion(AsWritten, w) == "jüziwci"
  {
    ScenarioJuziwciSteps(w);
    ConversionOfRun(AsWritten, w);
  }

  lemma ScenarioJuziwciSteps(w: string)
    requires |w| == 6 && w[0] == 'ж' && w[1] == 'ү' && w[2] == 'з' && w[3] == 'у' && w[4] == 'ш' && w[5] == 'і'
    ensures Transliteration(AsWritten, w) == "jüziwci"
  {
    ScenarioJuziwciFragments1(w);
    ScenarioJuziwciFragments2(w);
    ScenarioJuziwciFragments3(w);
    ScenarioJuziwciFragments4(w);
    ScenarioJuziwciFragments5(w);
    ScenarioJuziwciFragments6(w);
    ScenarioJuziwciConcat(Fragments(AsWritten, w));
  }

  lemma ScenarioJuziwciFragments1(w: string)
    requires |w| == 6 && w[0] == 'ж' && w[1] == 'ү' && w[2] == 'з' && w[3] == 'у' && w[4] == 'ш' && w[5] == 'і'
    ensures Fragments(AsWritten, w)[0] == "j"
  {
    FixedFragment(AsWritten, w, 0);
  }

  lemma ScenarioJuziwciFragments2(w: string)
    requires |w| == 6 && w[0] == 'ж' && w[1] == 'ү' && w[2] == 'з' && w[3] == 'у' && w[4] == 'ш' && w[5] == 'і'
    ensures Fragments(AsWritten, w)[1] == "ü"
  {
    FixedFragment(AsWritten, w, 1);
  }

  lemma ScenarioJuziwciFragments3(w: string)
    requires |w| == 6 && w[0] == 'ж' && w[1] == 'ү' && w[2] == 'з' && w[3] == 'у' && w[4] == 'ш' && w[5] == 'і'
    ensures Fragments(AsWritten, w)[2] == "z"
  {
    FixedFragment(AsWritten, w, 2);
  }

  lemma ScenarioJuziwciFragments4(w: string)
    requires |w| == 6 && w[0] == 'ж' && w[1] == 'ү' && w[2] == 'з' && w[3] == 'у' && w[4] == 'ш' && w[5] == 'і'
    ensures Fragments(AsWritten, w)[3] == "iw"
  {
    assert !IsQazaqCapital(AsWritten, w[0]);
  }

  lemma ScenarioJuziwciFragments5(w: string)
    requires |w| == 6 && w[0] == 'ж' && w[1] == 'ү' && w[2] == 'з' && w[3] == 'у' && w[4] == 'ш' && w[5] == 'і'
    ensures Fragments(AsWritten, w)[4] == "c"
  {
    FixedFragment(AsWritten, w, 4);
  }

  lemma ScenarioJuziwciFragments6(w: string)
    requires |w| == 6 && w[0] == 'ж' && w[1] == 'ү' && w[2] == 'з' && w[3] == 'у' && w[4] == 'ш' && w[5] == 'і'
    ensures Fragments(AsWritten, w)[5] == "i"
  {
    FixedFragment(AsWritten, w, 5);
  }

  lemma ScenarioJuziwciConcat(parts: seq<string>)
    requires |parts| == 6 && parts[0] == "j" && parts[1] == "ü" && parts[2] == "z" && parts[3] == "iw" && parts[4] == "c" && parts[5] == "i"
    ensures Concat(parts) == "jüziwci"
  {
    ConcatStep(parts, 1);
    assert Concat(parts[..1]) == "j";
    ConcatStep(parts, 2);
    assert Concat(parts[..2]) == "jü";
    ConcatStep(parts, 3);
    assert Concat(parts[..3]) == "jüz";
    ConcatStep(parts, 4);
    assert Concat(parts[..4]) == "jüziw";
    ConcatStep(parts, 5);
    assert Concat(parts[..5]) == "jüziwc";
    ConcatStep(parts, 6);
    assert parts[..6] == parts;
  }

  /** у directly after a vowel is the consonant w. */
  lemma ScenarioJasaw()
    ensures Conversion(AsWritten, "жасау") == "jasaw"
  {
    ScenarioJasawRun("жасау");
  }

  lemma ScenarioJasawRun(w: string)
    requires |w| == 5 && w[0] == 'ж' && w[1] == 'а' && w[2] == 'с' && w[3] == 'а' && w[4] == 'у'
    ensures Conversion(AsWritten, w) == "jasaw"
  {
    ScenarioJasawSteps(w);
    ConversionOfRun(AsWritten, w);
  }

  lemma ScenarioJasawSteps(w: string)
    requires |w| == 5 && w[0] == 'ж' && w[1] == 'а' && w[2] == 'с' && w[3] == 'а' && w[4] == 'у'
    ensures Transliteration(AsWritten, w) == "jasaw"
  {
    ScenarioJasawFragments1(w);
    ScenarioJasawFragments2(w);
    ScenarioJasawFragments3(w);
    ScenarioJasawFragments4(w);
    ScenarioJasawFragments5(w);
    ScenarioJasawConcat(Fragments(AsWritten, w));
  }

  lemma ScenarioJasawFragments1(w: string)
    requires |w| == 5 && w[0] == 'ж' && w[1] == 'а' && w[2] == 'с' && w[3] == 'а' && w[4] == 'у'
    ensures Fragments(AsWritten, w)[0] == "j"
  {
    FixedFragment(AsWritten, w, 0);
  }

  lemma ScenarioJasawFragments2(w: string)
    requires |w| == 5 && w[0] == 'ж' && w[1] == 'а' && w[2] == 'с' && w[3] == 'а' && w[4] == 'у'
    ensures Fragments(AsWritten, w)[1] == "a"
  {
    FixedFragment(AsWritten, w, 1);
  }

  lemma ScenarioJasawFragments3(w: string)
    requires |w| == 5 && w[0] == 'ж' && w[1] == 'а' && w[2] == 'с' && w[3] == 'а' && w[4] == 'у'
    ensures Fragments(AsWritten, w)[2] == "s"
  {
    FixedFragment(AsWritten, w, 2);
  }

  lemma ScenarioJasawFragments4(w: string)
    requires |w| == 5 && w[0] == 'ж' && w[1] == 'а' && w[2] == 'с' && w[3] == 'а' && w[4] == 'у'
    ensures Fragments(AsWritten, w)[3] == "a"
  {
    FixedFragment(AsWritten, w, 3);
  }

  lemma ScenarioJasawFragments5(w: string)
    requires |w| == 5 && w[0] == 'ж' && w[1] == 'а' && w[2] == 'с' && w[3] == 'а' && w[4] == 'у'
    ensures Fragments(AsWritten, w)[4] == "w"
  {
    assert !IsQazaqCapital(AsWritten, w[0]);
  }

  lemma ScenarioJasawConcat(parts: seq<string>)
    requires |parts| == 5 && parts[0] == "j" && parts[1] == "a" && parts[2] == "s" && parts[3] == "a" && parts[4] == "w"
    ensures Concat(parts) == "jasaw"
  {
    ConcatStep(parts, 1);
    assert Concat(parts[..1]) == "j";
    ConcatStep(parts, 2);
    assert Concat(parts[..2]) == "ja";
    ConcatStep(parts, 3);
    assert Concat(parts[..3]) == "jas";
    ConcatStep(parts, 4);
    assert Concat(parts[..4]) == "jasa";
    ConcatStep(parts, 5);
    assert parts[..5] == parts;
  }

  /** In an all-caps run the second letter of У's digraph is capital. */
  lemma ScenarioAllCaps()
    ensures Conversion(AsWritten, "ЖАЗУ") == "JAZUW"
  {
    ScenarioAllCapsRun("ЖАЗУ");
  }

  lemma ScenarioAllCapsRun(w: string)
    requires |w| == 4 && w[0] == 'Ж' && w[1] == 'А' && w[2] == 'З' && w[3] == 'У'
    ensures Conversion(AsWritten, w) == "JAZUW"
  {
    ScenarioAllCapsSteps(w);
    ConversionOfRun(AsWritten, w);
  }

  lemma ScenarioAllCapsSteps(w: string)
    requires |w| == 4 && w[0] == 'Ж' && w[1] == 'А' && w[2] == 'З' && w[3] == 'У'
    ensures Transliteration(AsWritten, w) == "JAZUW"
  {
    ScenarioAllCapsFragments1(w);
    ScenarioAllCapsFragments2(w);
    ScenarioAllCapsFragments3(w);
    ScenarioAllCapsFragments4(w);
    ScenarioAllCapsConcat(Fragments(AsWritten, w));
  }

  lemma ScenarioAllCapsFragments1(w: string)
    requires |w| == 4 && w[0] == 'Ж' && w[1] == 'А' && w[2] == 'З' && w[3] == 'У'
    ensures Fragments(AsWritten, w)[0] == "J"
  {
    FixedFragment(AsWritten, w, 0);
  }

  lemma ScenarioAllCapsFragments2(w: string)
    requires |w| == 4 && w[0] == 'Ж' && w[1] == 'А' && w[2] == 'З' && w[3] == 'У'
    ensures Fragments(AsWritten, w)[1] == "A"
  {
    FixedFragment(AsWritten, w, 1);
  }

  lemma ScenarioAllCapsFragments3(w: string)
    requires |w| == 4 && w[0] == 'Ж' && w[1] == 'А' && w[2] == 'З' && w[3] == 'У'
    ensures Fragments(AsWritten, w)[2] == "Z"
  {
    FixedFragment(AsWritten, w, 2);
  }

  lemma ScenarioAllCapsFragments4(w: string)
    requires |w| == 4 && w[0] == 'Ж' && w[1] == 'А' && w[2] == 'З' && w[3] == 'У'
    ensures Fragments(AsWritten, w)[3] == "UW"
  {
    assert AllCapitals(AsWritten, w[3..]);
    assert AllCapitals(AsWritten, w[2..]);
    assert AllCapitals(AsWritten, w[1..]);
    assert AllCapitals(AsWritten, w[0..]);
  }

  lemma ScenarioAllCapsConcat(parts: seq<string>)
    requires |parts| == 4 && parts[0] == "J" && parts[1] == "A" && parts[2] == "Z" && parts[3] == "UW"
    ensures Concat(parts) == "JAZUW"
  {
    ConcatStep(parts, 1);
    assert Concat(parts[..1]) == "J";
    ConcatStep(parts, 2);
    assert Concat(parts[..2]) == "JA";
    ConcatStep(parts, 3);
    assert Concat(parts[..3]) == "JAZ";
    ConcatStep(parts, 4);
    assert parts[..4] == parts;
  }

  /** The code has no exception list: "би" gets the back glide ıy. */
  lemma LookBehindBiy()
    ensures Conversion(AsWritten, "би") == "bıy"
  {
    LookBehindBiyRun("би");
  }

  lemma LookBehindBiyRun(w: string)
    requires |w| == 2 && w[0] == 'б' && w[1] == 'и'
    ensures Conversion(AsWritten, w) == "bıy"
  {
    LookBehindBiySteps(w);
    ConversionOfRun(AsWritten, w);
  }

  lemma LookBehindBiySteps(w: string)
    requires |w| == 2 && w[0] == 'б' && w[1] == 'и'
    ensures Transliteration(AsWritten, w) == "bıy"
  {
    LookBehindBiyFragments1(w);
    LookBehindBiyFragments2(w);
    LookBehindBiyConcat(Fragments(AsWritten, w));
  }

  lemma LookBehindBiyFragments1(w: string)
    requires |w| == 2 && w[0] == 'б' && w[1] == 'и'
    ensures Fragments(AsWritten, w)[0] == "b"
  {
    FixedFragment(AsWritten, w, 0);
  }

  lemma LookBehindBiyFragments2(w: string)
    requires |w| == 2 && w[0] == 'б' && w[1] == 'и'
    ensures Fragments(AsWritten, w)[1] == "ıy"
  {
    assert !IsQazaqCapital(AsWritten, w[0]);
  }

  lemma LookBehindBiyConcat(parts: seq<string>)
    requires |parts| == 2 && parts[0] == "b" && parts[1] == "ıy"
    ensures Concat(parts) == "bıy"
  {
    ConcatStep(parts, 1);
    assert Concat(parts[..1]) == "b";
    ConcatStep(parts, 2);
    assert parts[..2] == parts;
  }

  /** No vowel precedes и, so it is ıy; only an exception for this name, which the code does not have, would make it iy. */
  lemma LookBehindBiybaris()
    ensures Conversion(AsWritten, "Бибарыс") == "Bıybarıs"
  {
    LookBehindBiybarisRun("Бибарыс");
  }

  lemma LookBehindBiybarisRun(w: string)
    requires |w| == 7 && w[0] == 'Б' && w[1] == 'и' && w[2] == 'б' && w[3] == 'а' && w[4] == 'р' && w[5] == 'ы' && w[6] == 'с'
    ensures Conversion(AsWritten, w) == "Bıybarıs"
  {
    LookBehindBiybarisSteps(w);
    ConversionOfRun(AsWritten, w);
  }

  lemma LookBehindBiybarisSteps(w: string)
    requires |w| == 7 && w[0] == 'Б' && w[1] == 'и' && w[2] == 'б' && w[3] == 'а' && w[4] == 'р' && w[5] == 'ы' && w[6] == 'с'
    ensures Transliteration(AsWritten, w) == "Bıybarıs"
  {
    LookBehindBiybarisFragments1(w);
    LookBehindBiybarisFragments2(w);
    LookBehindBiybarisFragments3(w);
    LookBehindBiybarisFragments4(w);
    LookBehindBiybarisFragments5(w);
    LookBehindBiybarisFragments6(w);
    LookBehindBiybarisFragments7(w);
    LookBehindBiybarisConcat(Fragments(AsWritten, w));
  }

  lemma LookBehindBiybarisFragments1(w: string)
    requires |w| == 7 && w[0] == 'Б' && w[1] == 'и' && w[2] == 'б' && w[3] == 'а' && w[4] == 'р' && w[5] == 'ы' && w[6] == 'с'
    ensures Fragments(AsWritten, w)[0] == "B"
  {
    FixedFragment(AsWritten, w, 0);
  }

  lemma LookBehindBiybarisFragments2(w: string)
    requires |w| == 7 && w[0] == 'Б' && w[1] == 'и' && w[2] == 'б' && w[3] == 'а' && w[4] == 'р' && w[5] == 'ы' && w[6] == 'с'
    ensures Fragments(AsWritten, w)[1] == "ıy"
  {
    assert !AllCapitals(AsWritten, w[1..]) by {
      assert w[1..][0] == w[1];
    }
  }

  lemma LookBehindBiybarisFragments3(w: string)
    requires |w| == 7 && w[0] == 'Б' && w[1] == 'и' && w[2] == 'б' && w[3] == 'а' && w[4] == 'р' && w[5] == 'ы' && w[6] == 'с'
    ensures Fragments(AsWritten, w)[2] == "b"
  {
    FixedFragment(AsWritten, w, 2);
  }

  lemma LookBehindBiybarisFragments4(w: string)
    requires |w| == 7 && w[0] == 'Б' && w[1] == 'и' && w[2] == 'б' && w[3] == 'а' && w[4] == 'р' && w[5] == 'ы' && w[6] == 'с'
    ensures Fragments(AsWritten, w)[3] == "a"
  {
    FixedFragment(AsWritten, w, 3);
  }

  lemma LookBehindBiybarisFragments5(w: string)
    requires |w| == 7 && w[0] == 'Б' && w[1] == 'и' && w[2] == 'б' && w[3] == 'а' && w[4] == 'р' && w[5] == 'ы' && w[6] == 'с'
    ensures Fragments(AsWritten, w)[4] == "r"
  {
    FixedFragment(AsWritten, w, 4);
  }

  lemma LookBehindBiybarisFragments6(w: string)
    requires |w| == 7 && w[0] == 'Б' && w[1] == 'и' && w[2] == 'б' && w[3] == 'а' && w[4] == 'р' && w[5] == 'ы' && w[6] == 'с'
    ensures Fragments(AsWritten, w)[5] == "ı"
  {
    FixedFragment(AsWritten, w, 5);
  }

  lemma LookBehindBiybarisFragments7(w: string)
    requires |w| == 7 && w[0] == 'Б' && w[1] == 'и' && w[2] == 'б' && w[3] == 'а' && w[4] == 'р' && w[5] == 'ы' && w[6] == 'с'
    ensures Fragments(AsWritten, w)[6] == "s"
  {
    FixedFragment(AsWritten, w, 6);
  }

  lemma LookBehindBiybarisConcat(parts: seq<string>)
    requires |parts| == 7 && parts[0] == "B" && parts[1] == "ıy" && parts[2] == "b" && parts[3] == "a" && parts[4] == "r" && parts[5] == "ı" && parts[6] == "s"
    ensures Concat(parts) == "Bıybarıs"
  {
    ConcatStep(parts, 1);
    assert Concat(parts[..1]) == "B";
    ConcatStep(parts, 2);
    assert Concat(parts[..2]) == "Bıy";
    ConcatStep(parts, 3);
    assert Concat(parts[..3]) == "Bıyb";
    ConcatStep(parts, 4);
    assert Concat(parts[..4]) == "Bıyba";
    ConcatStep(parts, 5);
    assert Concat(parts[..5]) == "Bıybar";
    ConcatStep(parts, 6);
    assert Concat(parts[..6]) == "Bıybarı";
    ConcatStep(parts, 7);
    assert parts[..7] == parts;
  }

  /** и is resolved by the vowels to its left only: the front vowel і after it does not make it iy. */
  lemma LookBehindKiyim()
    ensures Conversion(AsWritten, "киім") == "kıyim"
  {
    LookBehindKiyimRun("киім");
  }

  lemma LookBehindKiyimRun(w: string)
    requires |w| == 4 && w[0] == 'к' && w[1] == 'и' && w[2] == 'і' && w[3] == 'м'
    ensures Conversion(AsWritten, w) == "kıyim"
  {
    LookBehindKiyimSteps(w);
    ConversionOfRun(AsWritten, w);
  }

  lemma LookBehindKiyimSteps(w: string)
    requires |w| == 4 && w[0] == 'к' && w[1] == 'и' && w[2] == 'і' && w[3] == 'м'
    ensures Transliteration(AsWritten, w) == "kıyim"
  {
    LookBehindKiyimFragments1(w);
    LookBehindKiyimFragments2(w);
    LookBehindKiyimFragments3(w);
    LookBehindKiyimFragments4(w);
    LookBehindKiyimConcat(Fragments(AsWritten, w));
  }

  lemma LookBehindKiyimFragments1(w: string)
    requires |w| == 4 && w[0] == 'к' && w[1] == 'и' && w[2] == 'і' && w[3] == 'м'
    ensures Fragments(AsWritten, w)[0] == "k"
  {
    FixedFragment(AsWritten, w, 0);
  }

  lemma LookBehindKiyimFragments2(w: string)
    requires |w| == 4 && w[0] == 'к' && w[1] == 'и' && w[2] == 'і' && w[3] == 'м'
    ensures Fragments(AsWritten, w)[1] == "ıy"
  {
    assert !IsQazaqCapital(AsWritten, w[0]);
  }

  lemma LookBehindKiyimFragments3(w: string)
    requires |w| == 4 && w[0] == 'к' && w[1] == 'и' && w[2] == 'і' && w[3] == 'м'
    ensures Fragments(AsWritten, w)[2] == "i"
  {
    FixedFragment(AsWritten, w, 2);
  }

  lemma LookBehindKiyimFragments4(w: string)
    requires |w| == 4 && w[0] == 'к' && w[1] == 'и' && w[2] == 'і' && w[3] == 'м'
    ensures Fragments(AsWritten, w)[3] == "m"
  {
    FixedFragment(AsWritten, w, 3);
  }

  lemma LookBehindKiyimConcat(parts: seq<string>)
    requires |parts| == 4 && parts[0] == "k" && parts[1] == "ıy" && parts[2] == "i" && parts[3] == "m"
    ensures Concat(parts) == "kıyim"
  {
    ConcatStep(parts, 1);
    assert Concat(parts[..1]) == "k";
    ConcatStep(parts, 2);
    assert Concat(parts[..2]) == "kıy";
    ConcatStep(parts, 3);
    assert Concat(parts[..3]) == "kıyi";
    ConcatStep(parts, 4);
    assert parts[..4] == parts;
  }

  /** The first у is uw; the second follows у, a listed vowel, so it is w. */
  lemma LookBehindJuww()
    ensures Conversion(AsWritten, "жуу") == "juww"
  {
    LookBehindJuwwRun("жуу");
  }

  lemma LookBehindJuwwRun(w: string)
    requires |w| == 3 && w[0] == 'ж' && w[1] == 'у' && w[2] == 'у'
    ensures Conversion(AsWritten, w) == "juww"
  {
    LookBehindJuwwSteps(w);
    ConversionOfRun(AsWritten, w);
  }

  lemma LookBehindJuwwSteps(w: string)
    requires |w| == 3 && w[0] == 'ж' && w[1] == 'у' && w[2] == 'у'
    ensures Transliteration(AsWritten, w) == "juww"
  {
    LookBehindJuwwFragments1(w);
    LookBehindJuwwFragments2(w);
    LookBehindJuwwFragments3(w);
    LookBehindJuwwConcat(Fragments(AsWritten, w));
  }

  lemma LookBehindJuwwFragments1(w: string)
    requires |w| == 3 && w[0] == 'ж' && w[1] == 'у' && w[2] == 'у'
    ensures Fragments(AsWritten, w)[0] == "j"
  {
    FixedFragment(AsWritten, w, 0);
  }

  lemma LookBehindJuwwFragments2(w: string)
    requires |w| == 3 && w[0] == 'ж' && w[1] == 'у' && w[2] == 'у'
    ensures Fragments(AsWritten, w)[1] == "uw"
  {
    assert !IsQazaqCapital(AsWritten, w[0]);
  }

  lemma LookBehindJuwwFragments3(w: string)
    requires |w| == 3 && w[0] == 'ж' && w[1] == 'у' && w[2] == 'у'
    ensures Fragments(AsWritten, w)[2] == "w"
  {
    assert !IsQazaqCapital(AsWritten, w[0]);
  }

  lemma LookBehindJuwwConcat(parts: seq<string>)
    requires |parts| == 3 && parts[0] == "j" && parts[1] == "uw" && parts[2] == "w"
    ensures Concat(parts) == "juww"
  {
    ConcatStep(parts, 1);
    assert Concat(parts[..1]) == "j";
    ConcatStep(parts, 2);
    assert Concat(parts[..2]) == "juw";
    ConcatStep(parts, 3);
    assert parts[..3] == parts;
  }

  /** у at the start of a run is uw whatever follows. */
  lemma LookBehindUwaqit()
    ensures Conversion(AsWritten, "уақыт") == "uwaqıt"
  {
    LookBehindUwaqitRun("уақыт");
  }

  lemma LookBehindUwaqitRun(w: string)
    requires |w| == 5 && w[0] == 'у' && w[1] == 'а' && w[2] == 'қ' && w[3] == 'ы' && w[4] == 'т'
    ensures Conversion(AsWritten, w) == "uwaqıt"
  {
    LookBehindUwaqitSteps(w);
    ConversionOfRun(AsWritten, w);
  }

  lemma LookBehindUwaqitSteps(w: string)
    requires |w| == 5 && w[0] == 'у' && w[1] == 'а' && w[2] == 'қ' && w[3] == 'ы' && w[4] == 'т'
    ensures Transliteration(AsWritten, w) == "uwaqıt"
  {
    LookBehindUwaqitFragments1(w);
    LookBehindUwaqitFragments2(w);
    LookBehindUwaqitFragments3(w);
    LookBehindUwaqitFragments4(w);
    LookBehindUwaqitFragments5(w);
    LookBehindUwaqitConcat(Fragments(AsWritten, w));
  }

  lemma LookBehindUwaqitFragments1(w: string)
    requires |w| == 5 && w[0] == 'у' && w[1] == 'а' && w[2] == 'қ' && w[3] == 'ы' && w[4] == 'т'
    ensures Fragments(AsWritten, w)[0] == "uw"
  {
    assert !IsQazaqCapital(AsWritten, w[0]);
  }

  lemma LookBehindUwaqitFragments2(w: string)
    requires |w| == 5 && w[0] == 'у' && w[1] == 'а' && w[2] == 'қ' && w[3] == 'ы' && w[4] == 'т'
    ensures Fragments(AsWritten, w)[1] == "a"
  {
    FixedFragment(AsWritten, w, 1);
  }

  lemma LookBehindUwaqitFragments3(w: string)
    requires |w| == 5 && w[0] == 'у' && w[1] == 'а' && w[2] == 'қ' && w[3] == 'ы' && w[4] == 'т'
    ensures Fragments(AsWritten, w)[2] == "q"
  {
    FixedFragment(AsWritten, w, 2);
  }

  lemma LookBehindUwaqitFragments4(w: string)
    requires |w| == 5 && w[0] == 'у' && w[1] == 'а' && w[2] == 'қ' && w[3] == 'ы' && w[4] == 'т'
    ensures Fragments(AsWritten, w)[3] == "ı"
  {
    FixedFragment(AsWritten, w, 3);
  }

  lemma LookBehindUwaqitFragments5(w: string)
    requires |w| == 5 && w[0] == 'у' && w[1] == 'а' && w[2] == 'қ' && w[3] == 'ы' && w[4] == 'т'
    ensures Fragments(AsWritten, w)[4] == "t"
  {
    FixedFragment(AsWritten, w, 4);
  }

  lemma LookBehindUwaqitConcat(parts: seq<string>)
    requires |parts| == 5 && parts[0] == "uw" && parts[1] == "a" && parts[2] == "q" && parts[3] == "ı" && parts[4] == "t"
    ensures Concat(parts) == "uwaqıt"
  {
    ConcatStep(parts, 1);
    assert Concat(parts[..1]) == "uw";
    ConcatStep(parts, 2);
    assert Concat(parts[..2]) == "uwa";
    ConcatStep(parts, 3);
    assert Concat(parts[..3]) == "uwaq";
    ConcatStep(parts, 4);
    assert Concat(parts[..4]) == "uwaqı";
    ConcatStep(parts, 5);
    assert parts[..5] == parts;
  }

  /** As written, precomposed ё is not in the run class: it is copied and
      only "ж" is transliterated. */
  lemma PrecomposedYoAsWritten(text: string)
    requires text == "ёж"
    ensures Conversion(AsWritten, text) == "ёj"
  {
    assert text == "ё" + "ж";
    ConversionAtBoundary(AsWritten, "ё", "ж");
    ConversionWithoutLetters(AsWritten, "ё");
    var w := "ж";
    assert !IsQazaqCapital(AsWritten, w[0]);
    var fragments := Fragments(AsWritten, w);
    FixedFragment(AsWritten, w, 0);
    assert fragments[0] == "j";
    ConcatStep(fragments, 1);
    assert fragments[..1] == fragments;
    ConversionOfRun(AsWritten, w);
  }
  /** With precomposed Ё/ё in the classes, the table's ё arm is reached. */
  lemma PrecomposedYoCorrected()
    ensures Conversion(Corrected, "ёж") == "yoj"
  {
    PrecomposedYoCorrectedRun("ёж");
  }

  lemma PrecomposedYoCorrectedRun(w: string)
    requires |w| == 2 && w[0] == 'ё' && w[1] == 'ж'
    ensures Conversion(Corrected, w) == "yoj"
  {
    PrecomposedYoCorrectedSteps(w);
    ConversionOfRun(Corrected, w);
  }

  lemma PrecomposedYoCorrectedSteps(w: string)
    requires |w| == 2 && w[0] == 'ё' && w[1] == 'ж'
    ensures Transliteration(Corrected, w) == "yoj"
  {
    PrecomposedYoCorrectedFragments1(w);
    PrecomposedYoCorrectedFragments2(w);
    PrecomposedYoCorrectedConcat(Fragments(Corrected, w));
  }

  lemma PrecomposedYoCorrectedFragments1(w: string)
    requires |w| == 2 && w[0] == 'ё' && w[1] == 'ж'
    ensures Fragments(Corrected, w)[0] == "yo"
  {
    FixedFragment(Corrected, w, 0);
  }

  lemma PrecomposedYoCorrectedFragments2(w: string)
    requires |w| == 2 && w[0] == 'ё' && w[1] == 'ж'
    ensures Fragments(Corrected, w)[1] == "j"
  {
    FixedFragment(Corrected, w, 1);
  }

  lemma PrecomposedYoCorrectedConcat(parts: seq<string>)
    requires |parts| == 2 && parts[0] == "yo" && parts[1] == "j"
    ensures Concat(parts) == "yoj"
  {
    ConcatStep(parts, 1);
    assert Concat(parts[..1]) == "yo";
    ConcatStep(parts, 2);
    assert parts[..2] == parts;
  }

  /** With the corrected class, ё is the back vowel yo, so у after л is uw. */
  lemma PrecomposedYoBeforeGlide()
    ensures Conversion(Corrected, "ёлу") == "yoluw"
  {
    PrecomposedYoBeforeGlideRun("ёлу");
  }

  lemma PrecomposedYoBeforeGlideRun(w: string)
    requires |w| == 3 && w[0] == 'ё' && w[1] == 'л' && w[2] == 'у'
    ensures Conversion(Corrected, w) == "yoluw"
  {
    PrecomposedYoBeforeGlideSteps(w);
    ConversionOfRun(Corrected, w);
  }

  lemma PrecomposedYoBeforeGlideSteps(w: string)
    requires |w| == 3 && w[0] == 'ё' && w[1] == 'л' && w[2] == 'у'
    ensures Transliteration(Corrected, w) == "yoluw"
  {
    PrecomposedYoBeforeGlideFragments1(w);
    PrecomposedYoBeforeGlideFragments2(w);
    PrecomposedYoBeforeGlideFragments3(w);
    PrecomposedYoBeforeGlideConcat(Fragments(Corrected, w));
  }

  lemma PrecomposedYoBeforeGlideFragments1(w: string)
    requires |w| == 3 && w[0] == 'ё' && w[1] == 'л' && w[2] == 'у'
    ensures Fragments(Corrected, w)[0] == "yo"
  {
    FixedFragment(Corrected, w, 0);
  }

  lemma PrecomposedYoBeforeGlideFragments2(w: string)
    requires |w| == 3 && w[0] == 'ё' && w[1] == 'л' && w[2] == 'у'
    ensures Fragments(Corrected, w)[1] == "l"
  {
    FixedFragment(Corrected, w, 1);
  }

  lemma PrecomposedYoBeforeGlideFragments3(w: string)
    requires |w| == 3 && w[0] == 'ё' && w[1] == 'л' && w[2] == 'у'
    ensures Fragments(Corrected, w)[2] == "uw"
  {
    assert !IsQazaqCapital(Corrected, w[0]);
  }

  lemma PrecomposedYoBeforeGlideConcat(parts: seq<string>)
    requires |parts| == 3 && parts[0] == "yo" && parts[1] == "l" && parts[2] == "uw"
    ensures Concat(parts) == "yoluw"
  {
    ConcatStep(parts, 1);
    assert Concat(parts[..1]) == "yo";
    ConcatStep(parts, 2);
    assert Concat(parts[..2]) == "yol";
    ConcatStep(parts, 3);
    assert parts[..3] == parts;
  }

  /** As written, decomposed ё is the front vowel е followed by a copied U+0308, so у after л is iw. */
  lemma DecomposedYoAsWritten()
    ensures Conversion(AsWritten, "е\U{0308}лу") == "e\U{0308}liw"
  {
    DecomposedYoAsWrittenRun("е\U{0308}лу");
  }

  lemma DecomposedYoAsWrittenRun(w: string)
    requires |w| == 4 && w[0] == 'е' && w[1] == '\U{0308}' && w[2] == 'л' && w[3] == 'у'
    ensures Conversion(AsWritten, w) == "e\U{0308}liw"
  {
    DecomposedYoAsWrittenSteps(w);
    ConversionOfRun(AsWritten, w);
  }

  lemma DecomposedYoAsWrittenSteps(w: string)
    requires |w| == 4 && w[0] == 'е' && w[1] == '\U{0308}' && w[2] == 'л' && w[3] == 'у'
    ensures Transliteration(AsWritten, w) == "e\U{0308}liw"
  {
    DecomposedYoAsWrittenFragments1(w);
    DecomposedYoAsWrittenFragments2(w);
    DecomposedYoAsWrittenFragments3(w);
    DecomposedYoAsWrittenFragments4(w);
    DecomposedYoAsWrittenConcat(Fragments(AsWritten, w));
  }

  lemma DecomposedYoAsWrittenFragments1(w: string)
    requires |w| == 4 && w[0] == 'е' && w[1] == '\U{0308}' && w[2] == 'л' && w[3] == 'у'
    ensures Fragments(AsWritten, w)[0] == "e"
  {
    FixedFragment(AsWritten, w, 0);
  }

  lemma DecomposedYoAsWrittenFragments2(w: string)
    requires |w| == 4 && w[0] == 'е' && w[1] == '\U{0308}' && w[2] == 'л' && w[3] == 'у'
    ensures Fragments(AsWritten, w)[1] == "\U{0308}"
  {
    FixedFragment(AsWritten, w, 1);
  }

  lemma DecomposedYoAsWrittenFragments3(w: string)
    requires |w| == 4 && w[0] == 'е' && w[1] == '\U{0308}' && w[2] == 'л' && w[3] == 'у'
    ensures Fragments(AsWritten, w)[2] == "l"
  {
    FixedFragment(AsWritten, w, 2);
  }

  lemma DecomposedYoAsWrittenFragments4(w: string)
    requires |w| == 4 && w[0] == 'е' && w[1] == '\U{0308}' && w[2] == 'л' && w[3] == 'у'
    ensures Fragments(AsWritten, w)[3] == "iw"
  {
    assert !IsQazaqCapital(AsWritten, w[0]);
  }

  lemma DecomposedYoAsWrittenConcat(parts: seq<string>)
    requires |parts| == 4 && parts[0] == "e" && parts[1] == "\U{0308}" && parts[2] == "l" && parts[3] == "iw"
    ensures Concat(parts) == "e\U{0308}liw"
  {
    ConcatStep(parts, 1);
    assert Concat(parts[..1]) == "e";
    ConcatStep(parts, 2);
    assert Concat(parts[..2]) == "e\U{0308}";
    ConcatStep(parts, 3);
    assert Concat(parts[..3]) == "e\U{0308}l";
    ConcatStep(parts, 4);
    assert parts[..4] == parts;
  }

  /** Ё has a capital replacement, but the all-caps class as written lacks it. */
  lemma CapitalYoMissingFromCapitals()
    ensures IsQazaqLetter(Corrected, 'Ё') && !IsSign('Ё') && StartsUpper(Replacement('Ё', false, false, false))
    ensures !IsQazaqCapital(AsWritten, 'Ё') && !IsQazaqCapital(LetterClassCorrected, 'Ё')
  {
  }

  /** With only the run class corrected, the capital run ЁЛУ is not all caps, so У is Uw. */
  lemma CapitalYoAsWritten()
    ensures Conversion(LetterClassCorrected, "ЁЛУ") == "YoLUw"
  {
    CapitalYoAsWrittenRun("ЁЛУ");
  }

  lemma CapitalYoAsWrittenRun(w: string)
    requires |w| == 3 && w[0] == 'Ё' && w[1] == 'Л' && w[2] == 'У'
    ensures Conversion(LetterClassCorrected, w) == "YoLUw"
  {
    CapitalYoAsWrittenSteps(w);
    ConversionOfRun(LetterClassCorrected, w);
  }

  lemma CapitalYoAsWrittenSteps(w: string)
    requires |w| == 3 && w[0] == 'Ё' && w[1] == 'Л' && w[2] == 'У'
    ensures Transliteration(LetterClassCorrected, w) == "YoLUw"
  {
    CapitalYoAsWrittenFragments1(w);
    CapitalYoAsWrittenFragments2(w);
    CapitalYoAsWrittenFragments3(w);
    CapitalYoAsWrittenConcat(Fragments(LetterClassCorrected, w));
  }

  lemma CapitalYoAsWrittenFragments1(w: string)
    requires |w| == 3 && w[0] == 'Ё' && w[1] == 'Л' && w[2] == 'У'
    ensures Fragments(LetterClassCorrected, w)[0] == "Yo"
  {
    FixedFragment(LetterClassCorrected, w, 0);
  }

  lemma CapitalYoAsWrittenFragments2(w: string)
    requires |w| == 3 && w[0] == 'Ё' && w[1] == 'Л' && w[2] == 'У'
    ensures Fragments(LetterClassCorrected, w)[1] == "L"
  {
    FixedFragment(LetterClassCorrected, w, 1);
  }

  lemma CapitalYoAsWrittenFragments3(w: string)
    requires |w| == 3 && w[0] == 'Ё' && w[1] == 'Л' && w[2] == 'У'
    ensures Fragments(LetterClassCorrected, w)[2] == "Uw"
  {
    assert !IsQazaqCapital(LetterClassCorrected, w[0]);
  }

  lemma CapitalYoAsWrittenConcat(parts: seq<string>)
    requires |parts| == 3 && parts[0] == "Yo" && parts[1] == "L" && parts[2] == "Uw"
    ensures Concat(parts) == "YoLUw"
  {
    ConcatStep(parts, 1);
    assert Concat(parts[..1]) == "Yo";
    ConcatStep(parts, 2);
    assert Concat(parts[..2]) == "YoL";
    ConcatStep(parts, 3);
    assert parts[..3] == parts;
  }

  /** With both classes corrected, the run ЁЛУ is all caps, so У is UW. */
  lemma CapitalYoCorrected()
    ensures Conversion(Corrected, "ЁЛУ") == "YoLUW"
  {
    CapitalYoCorrectedRun("ЁЛУ");
  }

  lemma CapitalYoCorrectedRun(w: string)
    requires |w| == 3 && w[0] == 'Ё' && w[1] == 'Л' && w[2] == 'У'
    ensures Conversion(Corrected, w) == "YoLUW"
  {
    CapitalYoCorrectedSteps(w);
    ConversionOfRun(Corrected, w);
  }

  lemma CapitalYoCorrectedSteps(w: string)
    requires |w| == 3 && w[0] == 'Ё' && w[1] == 'Л' && w[2] == 'У'
    ensures Transliteration(Corrected, w) == "YoLUW"
  {
    CapitalYoCorrectedFragments1(w);
    CapitalYoCorrectedFragments2(w);
    CapitalYoCorrectedFragments3(w);
    CapitalYoCorrectedConcat(Fragments(Corrected, w));
  }

  lemma CapitalYoCorrectedFragments1(w: string)
    requires |w| == 3 && w[0] == 'Ё' && w[1] == 'Л' && w[2] == 'У'
    ensures Fragments(Corrected, w)[0] == "Yo"
  {
    FixedFragment(Corrected, w, 0);
  }

  lemma CapitalYoCorrectedFragments2(w: string)
    requires |w| == 3 && w[0] == 'Ё' && w[1] == 'Л' && w[2] == 'У'
    ensures Fragments(Corrected, w)[1] == "L"
  {
    FixedFragment(Corrected, w, 1);
  }

  lemma CapitalYoCorrectedFragments3(w: string)
    requires |w| == 3 && w[0] == 'Ё' && w[1] == 'Л' && w[2] == 'У'
    ensures Fragments(Corrected, w)[2] == "UW"
  {
    assert AllCapitals(Corrected, w[2..]);
    assert AllCapitals(Corrected, w[1..]);
    assert AllCapitals(Corrected, w[0..]);
  }

  lemma CapitalYoCorrectedConcat(parts: seq<string>)
    requires |parts| == 3 && parts[0] == "Yo" && parts[1] == "L" && parts[2] == "UW"
    ensures Concat(parts) == "YoLUW"
  {
    ConcatStep(parts, 1);
    assert Concat(parts[..1]) == "Yo";
    ConcatStep(parts, 2);
    assert Concat(parts[..2]) == "YoL";
    ConcatStep(parts, 3);
    assert parts[..3] == parts;
  }
}
