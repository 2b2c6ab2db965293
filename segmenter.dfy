/**
 * The segmenter of arabic_glyphs.php (splitTextSegments): it cuts a text
 * into ordered runs typed arabic, other or space. Every space is a run of
 * its own; the other runs are maximal runs of Arabic-block code points or of
 * code points that are neither Arabic nor space.
 */
module Segmenter {
  import opened ArabicTable

  datatype Option<T> = None | Some(value: T)

  datatype SegmentType = Arabic | Other | Space

  datatype Segment = Segment(kind: SegmentType, text: seq<char>)

  /** The type a single code point gives the run it belongs to. */
  function Classify(c: char): SegmentType
  {
    if c == ' ' then Space else if IsArabic(c) then Arabic else Other
  }

  /** A run is non-empty, all its code points have its type, and a space run is one space. */
  predicate Homogeneous(seg: Segment)
  {
    && seg.text != []
    && (seg.kind == Space ==> seg.text == " ")
    && forall i | 0 <= i < |seg.text| :: Classify(seg.text[i]) == seg.kind
  }

  /** Two neighbouring runs have the same type only when both are spaces. */
  predicate Separated(segs: seq<Segment>)
  {
    forall i | 0 < i < |segs| :: segs[i].kind != Space ==> segs[i - 1].kind != segs[i].kind
  }

  predicate IsSegmentation(segs: seq<Segment>)
  {
    && (forall i | 0 <= i < |segs| :: Homogeneous(segs[i]))
    && Separated(segs)
  }

  /** The texts of the runs, concatenated in order. */
  function Flatten(segs: seq<Segment>): seq<char>
  {
    if segs == [] then [] else Flatten(segs[..|segs| - 1]) + segs[|segs| - 1].text
  }

  /**
   * Adding one code point to the runs so far, as the source's loop does: a
   * space closes the open run and adds a space run; a code point of the open
   * run's type extends it; any other code point opens a new run.
   */
  function Step(init: seq<Segment>, c: char): seq<Segment>
  {
    if c == ' ' then init + [Segment(Space, " ")]
    else if init != [] && init[|init| - 1].kind == Classify(c) then
      init[..|init| - 1] + [Segment(Classify(c), init[|init| - 1].text + [c])]
    else init + [Segment(Classify(c), [c])]
  }

  /** The runs of a text: its code points added one at a time from the left. */
  function Segments(text: seq<char>): seq<Segment>
    decreases |text|
  {
    if text == [] then [] else Step(Segments(text[..|text| - 1]), text[|text| - 1])
  }

  lemma FlattenSnoc(segs: seq<Segment>, seg: Segment)
    ensures Flatten(segs + [seg]) == Flatten(segs) + seg.text
  {
    assert (segs + [seg])[..|segs|] == segs;
  }

  /** Appending a run keeps a partition when the run differs in type from the last one. */
  lemma SnocSegmentation(segs: seq<Segment>, seg: Segment)
    requires IsSegmentation(segs) && Homogeneous(seg)
    requires segs != [] && seg.kind != Space ==> segs[|segs| - 1].kind != seg.kind
    ensures IsSegmentation(segs + [seg])
  {
  }

  /** Dropping the last run keeps a partition. */
  lemma InitSegmentation(segs: seq<Segment>)
    requires IsSegmentation(segs) && segs != []
    ensures IsSegmentation(segs[..|segs| - 1])
  {
  }

  lemma {:induction false} FlattenAppend(a: seq<Segment>, b: seq<Segment>)
    ensures Flatten(a + b) == Flatten(a) + Flatten(b)
    decreases |b|
  {
    if b == [] {
      assert a + b == a;
    } else {
      var init := b[..|b| - 1];
      var last := b[|b| - 1];
      assert a + b == (a + init) + [last];
      assert b == init + [last];
      FlattenSnoc(a + init, last);
      FlattenSnoc(init, last);
      FlattenAppend(a, init);
    }
  }

  /**
   * The first code point of run i stands in the text at the combined length
   * of the runs before it.
   */
  lemma FlattenAt(segs: seq<Segment>, i: nat) returns (k: nat)
    requires i < |segs| && segs[i].text != []
    ensures k < |Flatten(segs)| && Flatten(segs)[k] == segs[i].text[0]
  {
    var before := segs[..i];
    var rest := segs[i + 1..];
    assert segs == before + [segs[i]] + rest;
    FlattenAppend(before + [segs[i]], rest);
    FlattenSnoc(before, segs[i]);
    k := |Flatten(before)|;
  }

  /** Two partitions joined by a space run form a partition of the joined texts. */
  lemma SpaceJoin(sa: seq<Segment>, sb: seq<Segment>)
    requires IsSegmentation(sa) && IsSegmentation(sb)
    ensures IsSegmentation(sa + [Segment(Space, " ")] + sb)
    ensures Flatten(sa + [Segment(Space, " ")] + sb) == Flatten(sa) + [' '] + Flatten(sb)
  {
    var sp := Segment(Space, " ");
    var segs := sa + [sp] + sb;
    FlattenAppend(sa + [sp], sb);
    FlattenSnoc(sa, sp);
    forall i | 0 <= i < |segs|
      ensures Homogeneous(segs[i])
    {
      if i < |sa| {
        assert segs[i] == sa[i];
      } else if i > |sa| {
        assert segs[i] == sb[i - |sa| - 1];
      }
    }
    forall i | 0 < i < |segs|
      ensures segs[i].kind != Space ==> segs[i - 1].kind != segs[i].kind
    {
      if i < |sa| {
        assert segs[i] == sa[i] && segs[i - 1] == sa[i - 1];
      } else if i > |sa| + 1 {
        assert segs[i] == sb[i - |sa| - 1] && segs[i - 1] == sb[i - |sa| - 2];
      }
    }
  }

  /** A step appends exactly its code point to the text of the runs. */
  lemma StepFlatten(init: seq<Segment>, c: char)
    ensures Flatten(Step(init, c)) == Flatten(init) + [c]
  {
    if c == ' ' {
      FlattenSnoc(init, Segment(Space, " "));
    } else if init != [] && init[|init| - 1].kind == Classify(c) {
      var last := init[|init| - 1];
      var body := init[..|init| - 1];
      assert init == body + [last];
      FlattenSnoc(body, last);
      FlattenSnoc(body, Segment(Classify(c), last.text + [c]));
    } else {
      FlattenSnoc(init, Segment(Classify(c), [c]));
    }
  }

  /** A step keeps a partition. */
  lemma StepSegmentation(init: seq<Segment>, c: char)
    requires IsSegmentation(init)
    ensures IsSegmentation(Step(init, c))
  {
    if c == ' ' {
      SnocSegmentation(init, Segment(Space, " "));
    } else if init != [] && init[|init| - 1].kind == Classify(c) {
      var last := init[|init| - 1];
      var body := init[..|init| - 1];
      var grown := Segment(Classify(c), last.text + [c]);
      assert Homogeneous(last);
      assert Homogeneous(grown);
      InitSegmentation(init);
      if body != [] {
        assert init[|init| - 1].kind != Space;
        assert init[|init| - 2].kind != init[|init| - 1].kind;
      }
      SnocSegmentation(body, grown);
    } else {
      SnocSegmentation(init, Segment(Classify(c), [c]));
    }
  }

  /** Concatenating the texts of a text's runs gives back the text. */
  lemma {:induction false} SegmentsFlatten(text: seq<char>)
    ensures Flatten(Segments(text)) == text
    decreases |text|
  {
    if text != [] {
      var pre := text[..|text| - 1];
      var c := text[|text| - 1];
      assert text == pre + [c];
      SegmentsFlatten(pre);
      StepFlatten(Segments(pre), c);
    }
  }

  /**
   * The runs of a text form a partition: every run is non-empty and
   * homogeneous, every space is a run " ", and neighbouring non-space runs
   * differ in type.
   */
  lemma {:induction false} SegmentsWellFormed(text: seq<char>)
    ensures IsSegmentation(Segments(text))
    decreases |text|
  {
    if text != [] {
      var pre := text[..|text| - 1];
      SegmentsWellFormed(pre);
      StepSegmentation(Segments(pre), text[|text| - 1]);
    }
  }

  /**
   * Every non-empty partition is one step past a shorter partition: the one
   * without the last code point of its text.
   */
  lemma Unstep(segs: seq<Segment>) returns (prev: seq<Segment>, c: char)
    requires IsSegmentation(segs) && segs != []
    ensures IsSegmentation(prev)
    ensures Flatten(segs) == Flatten(prev) + [c]
    ensures Step(prev, c) == segs
  {
    var last := segs[|segs| - 1];
    var body := segs[..|segs| - 1];
    assert segs == body + [last];
    assert Homogeneous(last);
    FlattenSnoc(body, last);
    InitSegmentation(segs);
    c := last.text[|last.text| - 1];
    assert Classify(c) == last.kind;
    if last.kind == Space || |last.text| == 1 {
      prev := body;
      assert last.text == [c];
      if body != [] && last.kind != Space {
        assert segs[|segs| - 1].kind != segs[|segs| - 2].kind;
      }
    } else {
      var shorter := Segment(last.kind, last.text[..|last.text| - 1]);
      prev := body + [shorter];
      assert last.text == shorter.text + [c];
      FlattenSnoc(body, shorter);
      assert Homogeneous(shorter);
      assert IsSegmentation(prev) by {
        forall i | 0 < i < |prev|
          ensures prev[i].kind != Space ==> prev[i - 1].kind != prev[i].kind
        {
          assert prev[i].kind == segs[i].kind && prev[i - 1].kind == segs[i - 1].kind;
        }
      }
      assert prev[..|prev| - 1] == body;
    }
  }

  /**
   * The partition is unique: any sequence of runs with the properties of
   * SegmentsWellFormed that concatenates to the text is the text's runs.
   */
  lemma {:induction false} SegmentationUnique(segs: seq<Segment>, text: seq<char>)
    requires IsSegmentation(segs)
    requires Flatten(segs) == text
    ensures segs == Segments(text)
    decreases |text|
  {
    if segs != [] {
      var prev, c := Unstep(segs);
      var pre := Flatten(prev);
      assert text == pre + [c];
      assert text[..|text| - 1] == pre;
      SegmentationUnique(prev, pre);
    }
  }

  /**
   * The source's splitTextSegments: one pass over the code points with an
   * open run (currentSegment and currentType, None standing for null).
   */
  method SplitTextSegments(text: seq<char>) returns (segments: seq<Segment>)
    ensures segments == Segments(text)
    ensures Flatten(segments) == text && IsSegmentation(segments)
  {
    segments := [];
    var currentSegment: seq<char> := [];
    var currentType: Option<SegmentType> := None;
    for k := 0 to |text|
      invariant currentType.None? <==> currentSegment == []
      invariant currentType.Some? ==> currentType.value != Space
      invariant currentType.None? ==> segments == [] || segments[|segments| - 1].kind == Space
      invariant Segments(text[..k]) ==
        if currentType.Some? then segments + [Segment(currentType.value, currentSegment)] else segments
    {
      var c := text[k];
      assert text[..k + 1][..k] == text[..k];
      assert Segments(text[..k + 1]) == Step(Segments(text[..k]), c);
      if c == ' ' {
        if currentSegment != [] {
          segments := segments + [Segment(currentType.value, currentSegment)];
          currentSegment := [];
          currentType := None;
        }
        segments := segments + [Segment(Space, " ")];
        continue;
      }
      var isArabic := IsArabic(c);
      var t := if isArabic then Arabic else Other;
      if currentType.None? {
        currentType := Some(t);
        currentSegment := [c];
      } else if currentType.value == t {
        currentSegment := currentSegment + [c];
      } else {
        segments := segments + [Segment(currentType.value, currentSegment)];
        currentType := Some(t);
        currentSegment := [c];
      }
    }
    assert text[..|text|] == text;
    if currentSegment != [] {
      segments := segments + [Segment(currentType.value, currentSegment)];
    }
    SegmentsFlatten(text);
    SegmentsWellFormed(text);
  }
}
