/**
 * The entry point of arabic_glyphs.php (utf8Glyphs): a text without any
 * Arabic-block code point is returned as it is; otherwise the text is cut
 * into runs, only the Arabic runs are shaped (never reversed), and the
 * processed runs are joined back in their original order.
 */
module ArabicGlyphs {
  import opened ArabicTable
  import opened Segmenter
  import opened Shaper

  /** Some code point of s lies in U+0600..U+06FF (the source's preg_match test). */
  predicate ContainsArabic(s: seq<char>)
  {
    exists k | 0 <= k < |s| :: IsArabic(s[k])
  }

  /** What the driver emits for one run. */
  function Process(seg: Segment): seq<char>
  {
    match seg.kind
    case Arabic => Shape(ArabicChars, seg.text, false)
    case Space => " "
    case Other => seg.text
  }

  /** The processed runs, one per run, in the same order. */
  function Parts(segs: seq<Segment>): seq<seq<char>>
  {
    seq(|segs|, i requires 0 <= i < |segs| => Process(segs[i]))
  }

  /** The parts joined with the empty separator (the source's implode('', ...)). */
  function Concat(parts: seq<seq<char>>): seq<char>
  {
    if parts == [] then [] else Concat(parts[..|parts| - 1]) + parts[|parts| - 1]
  }

  /** The processed runs of segs, joined. */
  function Render(segs: seq<Segment>): seq<char>
  {
    Concat(Parts(segs))
  }

  /** What utf8Glyphs returns. */
  function Glyphs(text: seq<char>): seq<char>
  {
    if !ContainsArabic(text) then text else Render(Segments(text))
  }

  /**
   * The source's loop over the runs: an Arabic run is shaped without
   * reversal, a space run gives one space, any other run is kept; the
   * results are collected in order.
   */
  method ProcessSegments(segments: seq<Segment>) returns (processedSegments: seq<seq<char>>)
    ensures processedSegments == Parts(segments)
  {
    processedSegments := [];
    for k := 0 to |segments|
      invariant |processedSegments| == k
      invariant forall i | 0 <= i < k :: processedSegments[i] == Process(segments[i])
    {
      var segment := segments[k];
      var part: seq<char>;
      if segment.kind == Arabic {
        part := ShapeArabicText(segment.text, false);
      } else if segment.kind == Space {
        part := " ";
      } else {
        part := segment.text;
      }
      processedSegments := processedSegments + [part];
    }
    assert processedSegments == Parts(segments);
  }

  /**
   * The source's utf8Glyphs: the fast path, then the segmenter, the loop
   * over the runs, and the final join.
   */
  method Utf8Glyphs(text: seq<char>) returns (r: seq<char>)
    ensures r == Glyphs(text)
  {
    if !ContainsArabic(text) {
      return text;
    }
    var segments := SplitTextSegments(text);
    var processedSegments := ProcessSegments(segments);
    r := Concat(processedSegments);
  }

  lemma {:induction false} ConcatAppend(a: seq<seq<char>>, b: seq<seq<char>>)
    ensures Concat(a + b) == Concat(a) + Concat(b)
    decreases |b|
  {
    if b == [] {
      assert a + b == a;
    } else {
      var init := b[..|b| - 1];
      assert (a + b)[..|a + b| - 1] == a + init;
      ConcatAppend(a, init);
    }
  }

  /** Processing and joining distributes over concatenation of run lists: runs keep their order. */
  lemma RenderAppend(a: seq<Segment>, b: seq<Segment>)
    ensures Render(a + b) == Render(a) + Render(b)
  {
    assert Parts(a + b) == Parts(a) + Parts(b);
    ConcatAppend(Parts(a), Parts(b));
  }

  lemma RenderSnoc(segs: seq<Segment>, seg: Segment)
    ensures Render(segs + [seg]) == Render(segs) + Process(seg)
  {
    RenderAppend(segs, [seg]);
    assert Parts([seg]) == [Process(seg)];
    assert Concat(Parts([seg])) == Concat([]) + Process(seg);
  }

  /** Processing a run keeps its number of spaces. */
  lemma ProcessSpaces(seg: Segment)
    requires Homogeneous(seg)
    ensures Spaces(Process(seg)) == Spaces(seg.text)
  {
    if seg.kind == Arabic {
      ArabicCharsNoSpaceGlyphs();
      ShapedSpaces(ArabicChars, seg.text);
    }
  }

  /** Non-Arabic runs are emitted unchanged, so a run list without Arabic runs renders to its text. */
  lemma {:induction false} RenderPlain(segs: seq<Segment>)
    requires IsSegmentation(segs)
    requires forall i | 0 <= i < |segs| :: segs[i].kind != Arabic
    ensures Render(segs) == Flatten(segs)
    decreases |segs|
  {
    if segs != [] {
      var init := segs[..|segs| - 1];
      var last := segs[|segs| - 1];
      assert segs == init + [last];
      InitSegmentation(segs);
      RenderPlain(init);
      RenderSnoc(init, last);
      assert Homogeneous(last);
    }
  }

  /** A well-formed run list whose text has no Arabic code point has no Arabic run. */
  lemma NoArabicRun(segs: seq<Segment>, i: nat)
    requires IsSegmentation(segs) && i < |segs|
    requires !ContainsArabic(Flatten(segs))
    ensures segs[i].kind != Arabic
  {
    var k := FlattenAt(segs, i);
    assert Homogeneous(segs[i]);
    assert Classify(Flatten(segs)[k]) == segs[i].kind;
  }

  /**
   * The fast path is only a shortcut: for every text, utf8Glyphs returns
   * what the segment-by-segment path would return.
   */
  lemma FastPathAgrees(text: seq<char>)
    ensures Glyphs(text) == Render(Segments(text))
  {
    if !ContainsArabic(text) {
      var segs := Segments(text);
      SegmentsFlatten(text);
      SegmentsWellFormed(text);
      forall i | 0 <= i < |segs|
        ensures segs[i].kind != Arabic
      {
        NoArabicRun(segs, i);
      }
      RenderPlain(segs);
    }
  }

  lemma {:induction false} RenderSpaces(segs: seq<Segment>)
    requires IsSegmentation(segs)
    ensures Spaces(Render(segs)) == Spaces(Flatten(segs))
    decreases |segs|
  {
    if segs != [] {
      var init := segs[..|segs| - 1];
      var last := segs[|segs| - 1];
      assert segs == init + [last];
      InitSegmentation(segs);
      RenderSpaces(init);
      RenderSnoc(init, last);
      SpacesConcat(Render(init), Process(last));
      SpacesConcat(Flatten(init), last.text);
      FlattenSnoc(init, last);
      ProcessSpaces(last);
    }
  }

  /** utf8Glyphs keeps every space and adds none: the output has as many U+0020 as the input. */
  lemma GlyphsSpaces(text: seq<char>)
    ensures Spaces(Glyphs(text)) == Spaces(text)
  {
    if ContainsArabic(text) {
      SegmentsWellFormed(text);
      SegmentsFlatten(text);
      RenderSpaces(Segments(text));
    }
  }

  /** The runs of a + " " + b are the runs of a, a space run, then the runs of b. */
  lemma SegmentsAtSpace(a: seq<char>, b: seq<char>)
    ensures Segments(a + [' '] + b) == Segments(a) + [Segment(Space, " ")] + Segments(b)
  {
    SegmentsWellFormed(a);
    SegmentsWellFormed(b);
    SegmentsFlatten(a);
    SegmentsFlatten(b);
    SpaceJoin(Segments(a), Segments(b));
    SegmentationUnique(Segments(a) + [Segment(Space, " ")] + Segments(b), a + [' '] + b);
  }

  /**
   * Words are shaped independently: the output for a + " " + b is the output
   * for a, a space, then the output for b; nothing is reordered across a space.
   */
  lemma GlyphsAtSpace(a: seq<char>, b: seq<char>)
    ensures Glyphs(a + [' '] + b) == Glyphs(a) + " " + Glyphs(b)
  {
    var sp := Segment(Space, " ");
    FastPathAgrees(a + [' '] + b);
    FastPathAgrees(a);
    FastPathAgrees(b);
    SegmentsAtSpace(a, b);
    RenderAppend(Segments(a) + [sp], Segments(b));
    RenderSnoc(Segments(a), sp);
  }

  /** A word made only of Arabic-block code points is a single arabic run. */
  lemma ArabicRun(w: seq<char>)
    requires w != [] && forall k | 0 <= k < |w| :: IsArabic(w[k])
    ensures Segments(w) == [Segment(Arabic, w)]
  {
    var seg := Segment(Arabic, w);
    assert Homogeneous(seg);
    assert Flatten([seg]) == Flatten([]) + w;
    SegmentationUnique([seg], w);
  }

  /** A word made only of Arabic-block code points is one run, shaped as a whole. */
  lemma ArabicWord(w: seq<char>)
    requires w != [] && forall k | 0 <= k < |w| :: IsArabic(w[k])
    ensures Glyphs(w) == Shaped(ArabicChars, w)
  {
    var seg := Segment(Arabic, w);
    ArabicRun(w);
    assert IsArabic(w[0]);
    FastPathAgrees(w);
    RenderSnoc([], seg);
    assert [] + [seg] == [seg];
  }

  /** The Latin word and the digits contain no Arabic and are returned as they are. */
  lemma PlainWords()
    ensures Glyphs("Ahmad") == "Ahmad" && Glyphs("2024") == "2024"
  {
    assert !ContainsArabic("Ahmad");
    assert !ContainsArabic("2024");
  }

  /**
   * A mixed-script line: the Latin word and the digits are copied, the
   * spaces are kept, and the Arabic name is shaped in place: alef stays
   * isolated, hah takes its initial form (alef does not join forward), meem
   * its medial form, and the final dal stays isolated.
   */
  lemma MixedLine()
    ensures Glyphs("Ahmad " + ['\U{0627}', '\U{062D}', '\U{0645}', '\U{062F}'] + " 2024")
         == "Ahmad " + ['\U{0627}', '\U{FEA3}', '\U{FEE4}', '\U{062F}'] + " 2024"
  {
    var name := ['\U{0627}', '\U{062D}', '\U{0645}', '\U{062F}'];
    var shaped := ['\U{0627}', '\U{FEA3}', '\U{FEE4}', '\U{062F}'];
    var rest := name + [' '] + "2024";
    assert "Ahmad " + name + " 2024" == "Ahmad" + [' '] + rest;
    GlyphsAtSpace("Ahmad", rest);
    PlainWords();
    NameLine();
    assert "Ahmad" + " " + (shaped + " 2024") == "Ahmad " + shaped + " 2024";
  }

  /** The Arabic name followed by a space and the digits. */
  lemma NameLine()
    ensures Glyphs(['\U{0627}', '\U{062D}', '\U{0645}', '\U{062F}'] + [' '] + "2024")
         == ['\U{0627}', '\U{FEA3}', '\U{FEE4}', '\U{062F}'] + " 2024"
  {
    var name := ['\U{0627}', '\U{062D}', '\U{0645}', '\U{062F}'];
    GlyphsAtSpace(name, "2024");
    PlainWords();
    NameGlyphs();
  }

  /** The Arabic name on its own. */
  lemma NameGlyphs()
    ensures Glyphs(['\U{0627}', '\U{062D}', '\U{0645}', '\U{062F}'])
         == ['\U{0627}', '\U{FEA3}', '\U{FEE4}', '\U{062F}']
  {
    ArabicWord(['\U{0627}', '\U{062D}', '\U{0645}', '\U{062F}']);
    NameShapes();
  }

  /** The name alef, hah, meem, dal: isolated alef, initial hah, medial meem, isolated dal. */
  lemma NameShapes()
    ensures Shaped(ArabicChars, ['\U{0627}', '\U{062D}', '\U{0645}', '\U{062F}'])
         == ['\U{0627}', '\U{FEA3}', '\U{FEE4}', '\U{062F}']
  {
    var s := ['\U{0627}', '\U{062D}', '\U{0645}', '\U{062F}'];
    var t := ArabicChars;
    AlefsAndLam();
    HahMeemDal();
    NonConnectingIsolated(s, 0);
    NonConnectingIsolated(s, 3);
    assert GlyphAt(t, s, 1) == '\U{FEA3}';
    assert GlyphAt(t, s, 2) == '\U{FEE4}';
    assert ShapedFrom(t, s, 4) == [];
    assert ShapedFrom(t, s, 3) == [GlyphAt(t, s, 3)];
    assert ShapedFrom(t, s, 2) == [GlyphAt(t, s, 2)] + ShapedFrom(t, s, 3);
    assert ShapedFrom(t, s, 1) == [GlyphAt(t, s, 1)] + ShapedFrom(t, s, 2);
    assert ShapedFrom(t, s, 0) == [GlyphAt(t, s, 0)] + ShapedFrom(t, s, 1);
  }
}
