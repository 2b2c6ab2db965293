/**
 * The shaper of arabic_glyphs.php (shapeArabicText): every letter with a row
 * in the table is replaced by one of its four presentation forms, chosen from
 * its two immediate neighbours; lam followed by plain alef becomes one
 * ligature glyph; every other code point is copied.
 *
 * The definitions take the table t as a parameter; the source's shaper is
 * the instance t == ArabicChars (ShapeArabicText). The specification Shaped
 * is position-wise: the glyph for position j depends only on s[j - 1], s[j]
 * and s[j + 1] (GlyphAt), and the alef of each lam-alef pair contributes
 * nothing. The method scans left to right and steps over that alef, as the
 * source does, and is proved equal to it.
 */
module Shaper {
  import opened ArabicTable

  /**
   * The previous code point exists, has a row in the table and is not
   * non-connecting (so it joins to the letter at i).
   */
  predicate PrevConnects(t: Table, s: seq<char>, i: nat)
    requires i <= |s|
  {
    i > 0 && s[i - 1] in t.letters && s[i - 1] !in t.nonConnecting && s[i - 1] != ' '
  }

  /**
   * The next code point exists and has a row in the table; a non-connecting
   * next letter still counts.
   */
  predicate NextConnects(t: Table, s: seq<char>, i: nat)
    requires i < |s|
  {
    i < |s| - 1 && s[i + 1] in t.letters && s[i + 1] != ' '
  }

  /** The source's choice of form (0 isolated, 1 final, 2 initial, 3 medial). */
  function FormOf(t: Table, s: seq<char>, i: nat): Form
    requires i < |s|
  {
    if PrevConnects(t, s, i) && NextConnects(t, s, i) && s[i] !in t.nonConnecting then Medial
    else if PrevConnects(t, s, i) && s[i] !in t.nonConnecting then Final
    else if NextConnects(t, s, i) && s[i] !in t.nonConnecting then Initial
    else Isolated
  }

  /** Lam at i immediately followed by plain alef. */
  predicate StartsLigature(s: seq<char>, i: nat)
    requires i < |s|
  {
    s[i] == Lam && i + 1 < |s| && s[i + 1] == Alef
  }

  /** The code point at j is the alef of a lam-alef pair, absorbed into the ligature. */
  predicate Absorbed(s: seq<char>, j: nat)
    requires j <= |s|
  {
    0 < j < |s| && StartsLigature(s, j - 1)
  }

  /** The glyph the source emits for the code point at i when the scan reaches it. */
  function GlyphAt(t: Table, s: seq<char>, i: nat): char
    requires i < |s|
  {
    if s[i] == ' ' || s[i] !in t.letters then s[i]
    else if StartsLigature(s, i) then t.lamAlef.Pick(if PrevConnects(t, s, i) then Final else Isolated)
    else t.letters[s[i]].Pick(FormOf(t, s, i))
  }

  /** The glyphs of positions j.. in order, absorbed alefs left out. */
  function ShapedFrom(t: Table, s: seq<char>, j: nat): seq<char>
    requires j <= |s|
    decreases |s| - j
  {
    if j == |s| then []
    else (if Absorbed(s, j) then [] else [GlyphAt(t, s, j)]) + ShapedFrom(t, s, j + 1)
  }

  /** The shaped text, in storage order. */
  function Shaped(t: Table, s: seq<char>): seq<char>
  {
    ShapedFrom(t, s, 0)
  }

  /** The sequence read backwards (the source's array_reverse). */
  function Reverse(s: seq<char>): (r: seq<char>)
    ensures |r| == |s|
    ensures forall k | 0 <= k < |s| :: r[k] == s[|s| - 1 - k]
  {
    if s == [] then [] else Reverse(s[1..]) + [s[0]]
  }

  /** Reading backwards twice gives the sequence back. */
  lemma ReverseReverse(s: seq<char>)
    ensures Reverse(Reverse(s)) == s
  {
    var r := Reverse(Reverse(s));
    assert forall k | 0 <= k < |s| :: r[k] == s[k];
  }

  /** What shapeArabicText returns for a text and its reverse flag. */
  function Shape(t: Table, s: seq<char>, reverse: bool): seq<char>
  {
    if reverse then Reverse(Shaped(t, s)) else Shaped(t, s)
  }

  /** One step of the scan: the glyph at an unabsorbed i, then the rest after it. */
  lemma ShapedFromStep(t: Table, s: seq<char>, i: nat)
    requires i < |s| && !Absorbed(s, i)
    ensures StartsLigature(s, i) ==> !Absorbed(s, i + 2) && ShapedFrom(t, s, i) == [GlyphAt(t, s, i)] + ShapedFrom(t, s, i + 2)
    ensures !StartsLigature(s, i) ==> !Absorbed(s, i + 1) && ShapedFrom(t, s, i) == [GlyphAt(t, s, i)] + ShapedFrom(t, s, i + 1)
  {
    if StartsLigature(s, i) {
      assert ShapedFrom(t, s, i + 1) == ShapedFrom(t, s, i + 2);
    }
  }

  /** Sequence concatenation is associative; a solver hint for the loop of ShapeWith. */
  lemma AppendAssoc(a: seq<char>, b: seq<char>, c: seq<char>)
    ensures (a + b) + c == a + (b + c)
  {
  }

  /**
   * The source's loop, for a table given as a parameter: an index scan that
   * appends one glyph per step and steps over the alef of a lam-alef pair,
   * then the optional reversal.
   */
  method ShapeWith(t: Table, text: seq<char>, reverse: bool) returns (r: seq<char>)
    requires Lam in t.letters
    ensures r == Shape(t, text, reverse)
  {
    var chars := text;
    var result: seq<char> := [];
    var i := 0;
    while i < |chars|
      invariant 0 <= i <= |chars|
      invariant !Absorbed(chars, i)
      invariant result + ShapedFrom(t, chars, i) == Shaped(t, chars)
      decreases |chars| - i
    {
      var c := chars[i];
      ShapedFromStep(t, chars, i);
      var glyph: char;
      var step: nat;
      if c == ' ' || c !in t.letters {
        glyph, step := c, 1;
      } else if c == Lam && i + 1 < |chars| && chars[i + 1] == Alef {
        var prevConnects := false;
        if i > 0 {
          var prevChar := chars[i - 1];
          if prevChar in t.letters && prevChar !in t.nonConnecting && prevChar != ' ' {
            prevConnects := true;
          }
        }
        var form := if prevConnects then Final else Isolated;
        glyph, step := t.lamAlef.Pick(form), 2;
      } else {
        var prevConnects := false;
        var nextConnects := false;
        if i > 0 {
          var prevChar := chars[i - 1];
          if prevChar in t.letters && prevChar !in t.nonConnecting && prevChar != ' ' {
            prevConnects := true;
          }
        }
        if i < |chars| - 1 {
          var nextChar := chars[i + 1];
          if nextChar in t.letters && nextChar != ' ' {
            nextConnects := true;
          }
        }
        var form := Isolated;
        if prevConnects && nextConnects && c !in t.nonConnecting {
          form := Medial;
        } else if prevConnects && c !in t.nonConnecting {
          form := Final;
        } else if nextConnects && c !in t.nonConnecting {
          form := Initial;
        }
        assert form == FormOf(t, chars, i);
        glyph, step := t.letters[c].Pick(form), 1;
      }
      assert glyph == GlyphAt(t, chars, i);
      assert (step == 2) == StartsLigature(chars, i);
      ghost var rest := ShapedFrom(t, chars, i + step);
      assert ShapedFrom(t, chars, i) == [glyph] + rest;
      AppendAssoc(result, [glyph], rest);
      result := result + [glyph];
      i := i + step;
    }
    if reverse {
      result := Reverse(result);
    }
    r := result;
  }

  /** The source's shapeArabicText: the scan with the source's table. */
  method ShapeArabicText(text: seq<char>, reverse: bool) returns (r: seq<char>)
    ensures r == Shape(ArabicChars, text, reverse)
  {
    AlefsAndLam();
    r := ShapeWith(ArabicChars, text, reverse);
  }

  /** The number of lam-alef pairs in s: lam immediately followed by plain alef. */
  function LamAlefPairs(s: seq<char>): nat
  {
    if |s| < 2 then 0 else (if s[0] == Lam && s[1] == Alef then 1 else 0) + LamAlefPairs(s[1..])
  }

  /** The number of space code points in s. */
  function Spaces(s: seq<char>): nat
  {
    if s == [] then 0 else (if s[0] == ' ' then 1 else 0) + Spaces(s[1..])
  }

  lemma {:induction false} SpacesConcat(a: seq<char>, b: seq<char>)
    ensures Spaces(a + b) == Spaces(a) + Spaces(b)
    decreases |a|
  {
    if a != [] {
      assert (a + b)[1..] == a[1..] + b;
      SpacesConcat(a[1..], b);
    } else {
      assert a + b == b;
    }
  }

  lemma {:induction false} ShapedFromLength(t: Table, s: seq<char>, j: nat)
    requires j <= |s| && !Absorbed(s, j)
    ensures |ShapedFrom(t, s, j)| == |s| - j - LamAlefPairs(s[j..])
    decreases |s| - j
  {
    if j < |s| {
      ShapedFromStep(t, s, j);
      assert s[j..][1..] == s[j + 1..];
      if StartsLigature(s, j) {
        ShapedFromLength(t, s, j + 2);
        assert s[j + 1..][1..] == s[j + 2..];
      } else {
        ShapedFromLength(t, s, j + 1);
      }
    }
  }

  /**
   * The shaped text has one glyph per code point, less one per lam-alef
   * pair: the pair's alef is absorbed into the ligature.
   */
  lemma ShapedLength(t: Table, s: seq<char>)
    ensures |Shaped(t, s)| == |s| - LamAlefPairs(s)
  {
    ShapedFromLength(t, s, 0);
    assert s[0..] == s;
  }

  lemma {:induction false} ShapedFromAt(t: Table, s: seq<char>, lo: nat, j: nat)
    requires lo <= j < |s| && !Absorbed(s, lo) && !Absorbed(s, j)
    ensures 0 <= j - lo - LamAlefPairs(s[lo..j]) < |ShapedFrom(t, s, lo)|
    ensures ShapedFrom(t, s, lo)[j - lo - LamAlefPairs(s[lo..j])] == GlyphAt(t, s, j)
    decreases j - lo
  {
    ShapedFromStep(t, s, lo);
    if lo < j {
      assert s[lo..j][1..] == s[lo + 1..j];
      if StartsLigature(s, lo) {
        assert s[lo + 1..j][1..] == s[lo + 2..j];
        ShapedFromAt(t, s, lo + 2, j);
      } else {
        ShapedFromAt(t, s, lo + 1, j);
      }
    }
  }

  /**
   * Output order follows input order: the glyph of every code point that is
   * not an absorbed alef stands at its own index less the number of
   * lam-alef pairs before it.
   */
  lemma ShapedAt(t: Table, s: seq<char>, j: nat)
    requires j < |s| && !Absorbed(s, j)
    ensures 0 <= j - LamAlefPairs(s[..j]) < |Shaped(t, s)|
    ensures Shaped(t, s)[j - LamAlefPairs(s[..j])] == GlyphAt(t, s, j)
  {
    ShapedFromAt(t, s, 0, j);
    assert s[0..j] == s[..j];
  }

  /** A glyph is a space exactly when its code point is. */
  lemma GlyphSpace(t: Table, s: seq<char>, j: nat)
    requires NoSpaceGlyphs(t) && j < |s|
    ensures GlyphAt(t, s, j) == ' ' <==> s[j] == ' '
  {
    if s[j] != ' ' && s[j] in t.letters && !StartsLigature(s, j) {
      var f := FormOf(t, s, j);
      assert t.letters[s[j]].Pick(f) != ' ' by {
        match f
        case Isolated =>
        case Final =>
        case Initial =>
        case Medial =>
      }
    }
  }

  lemma {:induction false} ShapedFromSpaces(t: Table, s: seq<char>, j: nat)
    requires NoSpaceGlyphs(t) && j <= |s|
    ensures Spaces(ShapedFrom(t, s, j)) == Spaces(s[j..])
    decreases |s| - j
  {
    if j < |s| {
      var piece := if Absorbed(s, j) then [] else [GlyphAt(t, s, j)];
      SpacesConcat(piece, ShapedFrom(t, s, j + 1));
      ShapedFromSpaces(t, s, j + 1);
      assert s[j..][1..] == s[j + 1..];
      GlyphSpace(t, s, j);
    }
  }

  /** Shaping neither drops nor adds a space. */
  lemma ShapedSpaces(t: Table, s: seq<char>)
    requires NoSpaceGlyphs(t)
    ensures Spaces(Shaped(t, s)) == Spaces(s)
  {
    ShapedFromSpaces(t, s, 0);
    assert s[0..] == s;
  }

  /**
   * A code point without a row (a space, a Latin letter, an Arabic
   * diacritic or digit) is copied, is never absorbed, and breaks the joining
   * of both its neighbours.
   */
  lemma PassThrough(t: Table, s: seq<char>, j: nat)
    requires j < |s| && s[j] !in t.letters && Alef in t.letters
    ensures GlyphAt(t, s, j) == s[j] && !Absorbed(s, j)
    ensures j + 1 < |s| ==> !PrevConnects(t, s, j + 1)
    ensures j > 0 ==> !NextConnects(t, s, j - 1)
  {
  }

  /**
   * Lam followed by plain alef becomes one glyph: U+FEFC when the code point
   * before the lam joins to it, U+FEFB otherwise; the alef is absorbed.
   */
  lemma LigatureRule(s: seq<char>, i: nat)
    requires i < |s| && StartsLigature(s, i)
    ensures Absorbed(s, i + 1)
    ensures PrevConnects(ArabicChars, s, i) ==> GlyphAt(ArabicChars, s, i) == '\U{FEFC}'
    ensures !PrevConnects(ArabicChars, s, i) ==> GlyphAt(ArabicChars, s, i) == '\U{FEFB}'
  {
    AlefsAndLam();
  }

  /**
   * Lam followed by an alef with hamza or madda is not a ligature: the lam
   * takes its own initial or medial form and the alef is kept, isolated.
   */
  lemma HamzaAlefNotLigated(s: seq<char>, i: nat)
    requires i + 1 < |s| && s[i] == Lam
    requires s[i + 1] == AlefHamzaAbove || s[i + 1] == AlefHamzaBelow || s[i + 1] == AlefMadda
    ensures !Absorbed(s, i + 1)
    ensures PrevConnects(ArabicChars, s, i) ==> GlyphAt(ArabicChars, s, i) == '\U{FEE0}'
    ensures !PrevConnects(ArabicChars, s, i) ==> GlyphAt(ArabicChars, s, i) == '\U{FEDF}'
    ensures GlyphAt(ArabicChars, s, i + 1) == s[i + 1]
  {
    AlefsAndLam();
    LamRow();
    var t := ArabicChars;
    assert NextConnects(t, s, i) by {
      NonConnectingInTable();
    }
    assert FormOf(t, s, i) == if PrevConnects(t, s, i) then Medial else Initial;
    assert !StartsLigature(s, i);
    NonConnectingIsolated(s, i + 1);
  }

  /**
   * A non-connecting letter always takes form 0, never initial, medial or
   * final, whatever its neighbours, and its glyph is the letter itself. It
   * is emitted at its place in the output unless it is an alef right after
   * lam: that alef is absorbed into the ligature and emits nothing.
   */
  lemma NonConnectingIsolated(s: seq<char>, j: nat)
    requires j < |s| && s[j] in NonConnecting
    ensures FormOf(ArabicChars, s, j) == Isolated
    ensures GlyphAt(ArabicChars, s, j) == s[j]
    ensures Absorbed(s, j) <==> 0 < j && s[j - 1] == Lam && s[j] == Alef
    ensures !Absorbed(s, j) ==> 0 <= j - LamAlefPairs(s[..j]) < |Shaped(ArabicChars, s)|
    ensures !Absorbed(s, j) ==> Shaped(ArabicChars, s)[j - LamAlefPairs(s[..j])] == s[j]
  {
    AlefsAndLam();
    NonConnectingInTable();
    IsolatedIsLetter();
    if !Absorbed(s, j) {
      ShapedAt(ArabicChars, s, j);
    }
  }

  /**
   * Two neighbouring letters with rows, the first joining: the first takes
   * a form that connects forward (initial or medial), the second one that
   * connects backward (final or medial), or stays isolated when it is
   * non-connecting. When the pair is lam followed by plain alef, the first
   * emits a lam-alef ligature glyph instead of its table form and the second
   * is absorbed; otherwise the first emits its table form.
   */
  lemma AdjacentLetters(t: Table, s: seq<char>, i: nat)
    requires i + 1 < |s| && s[i] in t.letters && s[i] !in t.nonConnecting && s[i] != ' '
    requires s[i + 1] in t.letters && s[i + 1] != ' '
    ensures FormOf(t, s, i) == Initial || FormOf(t, s, i) == Medial
    ensures s[i + 1] !in t.nonConnecting ==> FormOf(t, s, i + 1) == Final || FormOf(t, s, i + 1) == Medial
    ensures s[i + 1] in t.nonConnecting ==> FormOf(t, s, i + 1) == Isolated
    ensures !StartsLigature(s, i) ==> !Absorbed(s, i + 1) && GlyphAt(t, s, i) == t.letters[s[i]].Pick(FormOf(t, s, i))
    ensures StartsLigature(s, i) ==> Absorbed(s, i + 1) && (GlyphAt(t, s, i) == t.lamAlef.isolated || GlyphAt(t, s, i) == t.lamAlef.final)
  {
  }

  /** The word lam-alef on its own shapes to the single isolated ligature U+FEFB. */
  lemma LamAlefWord()
    ensures Shaped(ArabicChars, [Lam, Alef]) == ['\U{FEFB}']
  {
    var s := [Lam, Alef];
    AlefsAndLam();
    assert ShapedFrom(ArabicChars, s, 2) == [];
    assert ShapedFrom(ArabicChars, s, 1) == [];
    assert GlyphAt(ArabicChars, s, 0) == '\U{FEFB}';
  }
}
