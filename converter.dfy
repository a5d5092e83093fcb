/// The entry point `convert` (src/converter.rs:150-163): every run of Qazaq
/// letters is replaced by its transliteration and the text between runs is
/// copied unchanged and in order.
module Converter {
  import opened CharClasses
  import opened ReplacementTable
  import opened RunTransliteration
  import opened Runs

  /** The output for a sequence of segments: gaps verbatim, runs transliterated. */
  function Render(alpha: Alphabet, segments: seq<Segment>): string
  {
    if segments == [] then [] else Output(alpha, segments[0]) + Render(alpha, segments[1..])
  }

  /** The output for one segment. */
  function Output(alpha: Alphabet, s: Segment): string
  {
    match s
    case Gap(t) => t
    case Run(t) => Transliteration(alpha, t)
  }

  lemma RenderCons(alpha: Alphabet, s: Segment, rest: seq<Segment>)
    ensures Render(alpha, [s] + rest) == Output(alpha, s) + Render(alpha, rest)
  {
    assert ([s] + rest)[1..] == rest;
  }

  /** What `convert` returns for `text`. */
  function Conversion(alpha: Alphabet, text: string): string
  {
    Render(alpha, Split(alpha, text))
  }

  /** The source's loop over the matches of the run expression: copy the text
      from the end of the previous match to the start of this one, append the
      match's transliteration, and finally copy the rest of the text.  `alpha`
      selects the spelling of the two character classes; the source's is
      `AsWritten`. */
  method Convert(alpha: Alphabet, input: string) returns (output: string)
    ensures output == Conversion(alpha, input)
  {
    output := "";
    var start := 0;
    var m := FindRun(alpha, input, start);
    while m.Found?
      invariant start <= |input|
      invariant m == FindRun(alpha, input, start)
      invariant output + Render(alpha, SplitFrom(alpha, input, start)) == Conversion(alpha, input)
      decreases |input| - start
    {
      RenderAtMatch(alpha, input, start, m);
      ghost var before, rest := output, Render(alpha, SplitFrom(alpha, input, m.end));
      output := output + input[start..m.start];
      var latin := CyrillicToLatin(alpha, input[m.start..m.end]);
      output := output + latin;
      AppendAssociative(before + input[start..m.start], latin, rest);
      AppendAssociative(before, input[start..m.start], latin + rest);
      start := m.end;
      m := FindRun(alpha, input, start);
    }
    RenderWithoutMatch(alpha, input, start);
    output := output + input[start..];
  }

  /** One step of the loop: the output for `text[start..]` is the gap before
      the next match, the match transliterated, and the output for the rest. */
  lemma RenderAtMatch(alpha: Alphabet, text: string, start: nat, m: Match)
    requires start <= |text| && m == FindRun(alpha, text, start) && m.Found?
    ensures Render(alpha, SplitFrom(alpha, text, start)) ==
      text[start..m.start] + (Transliteration(alpha, text[m.start..m.end]) + Render(alpha, SplitFrom(alpha, text, m.end)))
  {
    var rest := Render(alpha, SplitFrom(alpha, text, m.end));
    var latin := Transliteration(alpha, text[m.start..m.end]);
    assert IsQazaqLetter(alpha, text[m.start]);
    assert ClassEnd(alpha, text, m.start, true) == m.end;
    RenderHead(alpha, text, m.start);
    assert Render(alpha, SplitFrom(alpha, text, m.start)) == latin + rest;
    if IsQazaqLetter(alpha, text[start]) {
      assert m.start == start;
      assert text[start..m.start] == [];
      assert [] + (latin + rest) == latin + rest;
    } else {
      assert ClassEnd(alpha, text, start, false) == m.start;
      RenderHead(alpha, text, start);
      assert Render(alpha, SplitFrom(alpha, text, start)) == text[start..m.start] + (latin + rest);
    }
  }

  /** The loop's exit: with no match left, the rest of the text is one gap. */
  lemma RenderWithoutMatch(alpha: Alphabet, text: string, start: nat)
    requires start <= |text| && FindRun(alpha, text, start).NoMatch?
    ensures Render(alpha, SplitFrom(alpha, text, start)) == text[start..]
  {
    if start < |text| {
      RenderHead(alpha, text, start);
      assert SplitFrom(alpha, text, |text|) == [];
    }
  }

  /** Unfolding the segmentation once: the first segment's output, then the rest. */
  lemma RenderHead(alpha: Alphabet, text: string, i: nat)
    requires i < |text|
    ensures var letter := IsQazaqLetter(alpha, text[i]);
      var e := ClassEnd(alpha, text, i, letter);
      Render(alpha, SplitFrom(alpha, text, i)) ==
        (if letter then Transliteration(alpha, text[i..e]) else text[i..e]) + Render(alpha, SplitFrom(alpha, text, e))
  {
    var letter := IsQazaqLetter(alpha, text[i]);
    var e := ClassEnd(alpha, text, i, letter);
    var head := if letter then Run(text[i..e]) else Gap(text[i..e]);
    assert SplitFrom(alpha, text, i) == [head] + SplitFrom(alpha, text, e);
    RenderCons(alpha, head, SplitFrom(alpha, text, e));
  }

  lemma AppendAssociative(a: string, b: string, c: string)
    ensures (a + b) + c == a + (b + c)
  {
  }

  /** A text with no letter of the run class is returned unchanged. */
  lemma ConversionWithoutLetters(alpha: Alphabet, text: string)
    requires forall k | 0 <= k < |text| :: !IsQazaqLetter(alpha, text[k])
    ensures Conversion(alpha, text) == text
  {
    RenderWithoutMatch(alpha, text, 0);
  }

  /** A text that is one run of letters is transliterated as a whole. */
  lemma ConversionOfRun(alpha: Alphabet, run: string)
    requires run != [] && forall k | 0 <= k < |run| :: IsQazaqLetter(alpha, run[k])
    ensures Conversion(alpha, run) == Transliteration(alpha, run)
  {
    ClassEndIs(alpha, run, 0, |run|, true);
    RenderHead(alpha, run, 0);
    assert SplitFrom(alpha, run, |run|) == [];
    assert run[0..|run|] == run;
  }

  /** No character of the output is both in the run class and listed in the
      replacement table: gaps have no letter of the class, and a run's letters
      are all replaced by Latin ones unless the table does not list them. */
  lemma ConversionLeavesNoListedLetter(alpha: Alphabet, text: string)
    ensures forall ch | ch in Conversion(alpha, text) ::
      !(IsQazaqLetter(alpha, ch) && IsQazaqLetter(Corrected, ch))
  {
    SplitFromCovers(alpha, text, 0);
    RenderLeavesNoListedLetter(alpha, Split(alpha, text));
  }

  /** As written, the only character of the run class that can come out of
      `convert` is U+0308, which the table does not list and copies. */
  lemma AsWrittenLeavesOnlyDiaeresis(text: string)
    ensures forall ch | ch in Conversion(AsWritten, text) ::
      IsQazaqLetter(AsWritten, ch) ==> ch == CombiningDiaeresis
  {
    ConversionLeavesNoListedLetter(AsWritten, text);
  }

  /** With the corrected classes no letter of the run class is left in the output. */
  lemma CorrectedLeavesNoLetter(text: string)
    ensures forall ch | ch in Conversion(Corrected, text) :: !IsQazaqLetter(Corrected, ch)
  {
    ConversionLeavesNoListedLetter(Corrected, text);
  }

  lemma {:induction false} RenderLeavesNoListedLetter(alpha: Alphabet, segments: seq<Segment>)
    requires WellFormed(alpha, segments)
    ensures forall ch | ch in Render(alpha, segments) ::
      !(IsQazaqLetter(alpha, ch) && IsQazaqLetter(Corrected, ch))
  {
    if segments != [] {
      WellFormedTail(alpha, segments);
      RenderLeavesNoListedLetter(alpha, segments[1..]);
      var t := segments[0].text;
      assert SegmentOk(alpha, segments[0]);
      if segments[0].Run? {
        TransliterationCharacters(alpha, t);
      } else {
        forall ch | ch in t ensures !IsQazaqLetter(alpha, ch) {
          var k :| 0 <= k < |t| && t[k] == ch;
        }
      }
    }
  }

  /** Cutting the text where a run ends or begins does not change the output:
      each run is transliterated on its own, with no state from another run. */
  lemma ConversionAtBoundary(alpha: Alphabet, a: string, b: string)
    requires a == [] || b == [] || IsQazaqLetter(alpha, a[|a| - 1]) != IsQazaqLetter(alpha, b[0])
    ensures Conversion(alpha, a + b) == Conversion(alpha, a) + Conversion(alpha, b)
  {
    var sa, sb := Split(alpha, a), Split(alpha, b);
    SplitFromCovers(alpha, a, 0);
    SplitFromCovers(alpha, b, 0);
    assert a[0..] == a && b[0..] == b && (a + b)[0..] == a + b;
    if sa != [] && sb != [] {
      LastSegmentKind(alpha, sa);
    }
    WellFormedAppend(alpha, sa, sb);
    JoinAppend(sa, sb);
    SplitFromUnique(alpha, a + b, 0, sa + sb);
    RenderAppend(alpha, sa, sb);
  }

  lemma WellFormedAppend(alpha: Alphabet, s1: seq<Segment>, s2: seq<Segment>)
    requires WellFormed(alpha, s1) && WellFormed(alpha, s2)
    requires s1 == [] || s2 == [] || s1[|s1| - 1].Run? != s2[0].Run?
    ensures WellFormed(alpha, s1 + s2)
  {
    assert forall n | 0 <= n < |s1| :: (s1 + s2)[n] == s1[n];
    assert forall n | |s1| <= n < |s1| + |s2| :: (s1 + s2)[n] == s2[n - |s1|];
  }

  lemma {:induction false} LastSegmentKind(alpha: Alphabet, segments: seq<Segment>)
    requires WellFormed(alpha, segments) && segments != []
    ensures var j := Join(segments);
      |j| > 0 && segments[|segments| - 1].Run? == IsQazaqLetter(alpha, j[|j| - 1])
  {
    var t := segments[0].text;
    assert SegmentOk(alpha, segments[0]);
    if |segments| == 1 {
      assert Join(segments) == t + Join([]);
    } else {
      WellFormedTail(alpha, segments);
      LastSegmentKind(alpha, segments[1..]);
    }
  }

  lemma {:induction false} JoinAppend(s1: seq<Segment>, s2: seq<Segment>)
    ensures Join(s1 + s2) == Join(s1) + Join(s2)
  {
    if s1 != [] {
      assert (s1 + s2)[1..] == s1[1..] + s2;
      JoinAppend(s1[1..], s2);
      AppendAssociative(s1[0].text, Join(s1[1..]), Join(s2));
    } else {
      assert s1 + s2 == s2;
    }
  }

  lemma {:induction false} RenderAppend(alpha: Alphabet, s1: seq<Segment>, s2: seq<Segment>)
    ensures Render(alpha, s1 + s2) == Render(alpha, s1) + Render(alpha, s2)
  {
    if s1 != [] {
      assert (s1 + s2)[1..] == s1[1..] + s2;
      RenderAppend(alpha, s1[1..], s2);
      AppendAssociative(Output(alpha, s1[0]), Render(alpha, s1[1..]), Render(alpha, s2));
    } else {
      assert s1 + s2 == s2;
    }
  }
}
