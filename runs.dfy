/// Finding the runs of Qazaq letters in a text: the matches of
/// `[А-яІіЁёҒғҚқҢңҮүҰұҺһӘәӨө]+` that `convert` iterates over
/// (src/converter.rs:152-160), and the segmentation of a text into maximal
/// runs and the gaps between them.
module Runs {
  import opened CharClasses

  /** A match of the run expression: the positions `start..end` of the text. */
  datatype Match = NoMatch | Found(start: nat, end: nat)

  /** A piece of text: a maximal run of letters or a maximal gap between runs. */
  datatype Segment = Gap(text: string) | Run(text: string)

  /** The first position at or after `i` whose character is not of the
      given class (letter or not), or the end of the text. */
  function ClassEnd(alpha: Alphabet, text: string, i: nat, letter: bool): (e: nat)
    requires i <= |text|
    ensures i <= e <= |text|
    ensures forall k | i <= k < e :: IsQazaqLetter(alpha, text[k]) == letter
    ensures e == |text| || IsQazaqLetter(alpha, text[e]) != letter
    decreases |text| - i
  {
    if i == |text| || IsQazaqLetter(alpha, text[i]) != letter then i
    else ClassEnd(alpha, text, i + 1, letter)
  }

  /** The leftmost match at or after `from`, extended as far as it goes: what
      the regular-expression search returns when it resumes at `from`. */
  function FindRun(alpha: Alphabet, text: string, from: nat): (m: Match)
    requires from <= |text|
    ensures m.NoMatch? <==> forall k | from <= k < |text| :: !IsQazaqLetter(alpha, text[k])
    ensures m.Found? ==> from <= m.start < m.end <= |text|
    ensures m.Found? ==> forall k | from <= k < m.start :: !IsQazaqLetter(alpha, text[k])
    ensures m.Found? ==> forall k | m.start <= k < m.end :: IsQazaqLetter(alpha, text[k])
    ensures m.Found? ==> m.end == |text| || !IsQazaqLetter(alpha, text[m.end])
  {
    var start := ClassEnd(alpha, text, from, false);
    if start == |text| then NoMatch else Found(start, ClassEnd(alpha, text, start, true))
  }

  /** The segmentation of `text[i..]` into maximal runs and gaps. */
  function SplitFrom(alpha: Alphabet, text: string, i: nat): seq<Segment>
    requires i <= |text|
    decreases |text| - i
  {
    if i == |text| then []
    else
      var letter := IsQazaqLetter(alpha, text[i]);
      var e := ClassEnd(alpha, text, i, letter);
      [if letter then Run(text[i..e]) else Gap(text[i..e])] + SplitFrom(alpha, text, e)
  }

  function Split(alpha: Alphabet, text: string): seq<Segment>
  {
    SplitFrom(alpha, text, 0)
  }

  /** The text of a sequence of segments, in order. */
  function Join(segments: seq<Segment>): string
  {
    if segments == [] then [] else segments[0].text + Join(segments[1..])
  }

  /** A run is non-empty and all letters; a gap is non-empty and has no letter. */
  predicate SegmentOk(alpha: Alphabet, s: Segment)
  {
    |s.text| > 0 &&
    forall k | 0 <= k < |s.text| :: IsQazaqLetter(alpha, s.text[k]) == s.Run?
  }

  /** Every segment is well formed and no two neighbours are of the same kind,
      so every run is maximal and every gap lies between runs. */
  predicate WellFormed(alpha: Alphabet, segments: seq<Segment>)
  {
    (forall n | 0 <= n < |segments| :: SegmentOk(alpha, segments[n])) &&
    (forall n | 0 <= n < |segments| - 1 :: segments[n].Run? != segments[n + 1].Run?)
  }

  /** The segmentation covers the text exactly once, in order, and is well formed. */
  lemma {:induction false} SplitFromCovers(alpha: Alphabet, text: string, i: nat)
    requires i <= |text|
    ensures Join(SplitFrom(alpha, text, i)) == text[i..]
    ensures WellFormed(alpha, SplitFrom(alpha, text, i))
    ensures SplitFrom(alpha, text, i) != [] ==>
      SplitFrom(alpha, text, i)[0].Run? == IsQazaqLetter(alpha, text[i])
    decreases |text| - i
  {
    if i < |text| {
      var letter := IsQazaqLetter(alpha, text[i]);
      var e := ClassEnd(alpha, text, i, letter);
      var head := if letter then Run(text[i..e]) else Gap(text[i..e]);
      var rest := SplitFrom(alpha, text, e);
      SplitFromCovers(alpha, text, e);
      assert SplitFrom(alpha, text, i) == [head] + rest;
      assert ([head] + rest)[1..] == rest;
      assert text[i..] == text[i..e] + text[e..];
      assert SegmentOk(alpha, head);
    }
  }

  /** The maximal segmentation is the only well-formed one: any well-formed
      sequence of segments whose text is `text[i..]` is `SplitFrom(text, i)`. */
  lemma {:induction false} SplitFromUnique(alpha: Alphabet, text: string, i: nat, segments: seq<Segment>)
    requires i <= |text|
    requires WellFormed(alpha, segments) && Join(segments) == text[i..]
    ensures segments == SplitFrom(alpha, text, i)
    decreases |text| - i
  {
    if segments != [] {
      var head := segments[0];
      var e := i + |head.text|;
      HeadSegment(alpha, text, i, segments);
      WellFormedTail(alpha, segments);
      SplitFromUnique(alpha, text, e, segments[1..]);
      var expected := if head.Run? then Run(text[i..e]) else Gap(text[i..e]);
      assert head == expected;
      var letter := IsQazaqLetter(alpha, text[i]);
      assert letter == head.Run? && ClassEnd(alpha, text, i, letter) == e;
      assert SplitFrom(alpha, text, i) == [expected] + SplitFrom(alpha, text, e);
      assert segments == [head] + segments[1..];
    } else {
      assert |text[i..]| == 0;
    }
  }

  /** The first segment of a well-formed segmentation of `text[i..]` is the
      stretch of one class that starts at `i`, and the others cover the rest. */
  lemma HeadSegment(alpha: Alphabet, text: string, i: nat, segments: seq<Segment>)
    requires i <= |text|
    requires WellFormed(alpha, segments) && Join(segments) == text[i..] && segments != []
    ensures var head, e := segments[0], i + |segments[0].text|;
      e <= |text| && text[i..e] == head.text && Join(segments[1..]) == text[e..] &&
      IsQazaqLetter(alpha, text[i]) == head.Run? && ClassEnd(alpha, text, i, head.Run?) == e
  {
    var head := segments[0];
    var rest := segments[1..];
    var e := i + |head.text|;
    assert SegmentOk(alpha, head);
    assert text[i..] == head.text + Join(rest);
    assert text[i..e] == head.text;
    assert text[i] == head.text[0];
    if e < |text| {
      assert rest != [];
      assert SegmentOk(alpha, rest[0]) && rest[0].Run? != head.Run?;
      assert text[e] == Join(rest)[0] == rest[0].text[0];
    }
    forall k | i <= k < e ensures IsQazaqLetter(alpha, text[k]) == head.Run? {
      assert text[k] == head.text[k - i];
    }
    ClassEndIs(alpha, text, i, e, head.Run?);
  }

  lemma WellFormedTail(alpha: Alphabet, segments: seq<Segment>)
    requires WellFormed(alpha, segments) && segments != []
    ensures WellFormed(alpha, segments[1..])
  {
    forall n | 0 <= n < |segments| - 2 ensures segments[1..][n].Run? != segments[1..][n + 1].Run? {
      assert segments[n + 1].Run? != segments[n + 2].Run?;
    }
  }

  /** `ClassEnd` is the end of the stretch of one class that starts at `i`. */
  lemma {:induction false} ClassEndIs(alpha: Alphabet, text: string, i: nat, e: nat, letter: bool)
    requires i <= e <= |text|
    requires forall k | i <= k < e :: IsQazaqLetter(alpha, text[k]) == letter
    requires e == |text| || IsQazaqLetter(alpha, text[e]) != letter
    ensures ClassEnd(alpha, text, i, letter) == e
    decreases e - i
  {
    if i < e {
      ClassEndIs(alpha, text, i + 1, e, letter);
    }
  }
}
