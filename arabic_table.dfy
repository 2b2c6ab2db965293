/**
 * The constant data of the shaper in arabic_glyphs.php: the letter table
 * (base letter to its four presentation forms), the lam-alef ligature entry
 * and the set of letters that never join to the letter after them.
 */
module ArabicTable {

  /** The four positional forms, in the table's column order 0..3. */
  datatype Form = Isolated | Final | Initial | Medial

  /** One row of the table: [isolated, final, initial, medial]. */
  datatype FormSet = FormSet(isolated: char, final: char, initial: char, medial: char)
  {
    function Pick(f: Form): char
    {
      match f
      case Isolated => isolated
      case Final => final
      case Initial => initial
      case Medial => medial
    }
  }

  const Lam: char := '\U{0644}'
  const Alef: char := '\U{0627}'
  const AlefHamzaAbove: char := '\U{0623}'
  const AlefHamzaBelow: char := '\U{0625}'
  const AlefMadda: char := '\U{0622}'

  /** The Arabic block U+0600..U+06FF, the source's test for "Arabic". */
  predicate IsArabic(c: char)
  {
    '\U{0600}' <= c <= '\U{06FF}'
  }

  /**
   * The single-code-point rows of the letter table, exactly as written,
   * including the medial form of zah (U+0638), which is the ghain medial
   * U+FED0, and hamza (U+0621), whose four forms are all U+0621.
   */
  const Letters: map<char, FormSet> := map[
    '\U{0627}' := FormSet('\U{0627}', '\U{FE8E}', '\U{FE8D}', '\U{FE8E}'),
    '\U{0623}' := FormSet('\U{0623}', '\U{FE84}', '\U{FE83}', '\U{FE84}'),
    '\U{0625}' := FormSet('\U{0625}', '\U{FE88}', '\U{FE87}', '\U{FE88}'),
    '\U{0622}' := FormSet('\U{0622}', '\U{FE82}', '\U{FE81}', '\U{FE82}'),
    '\U{0628}' := FormSet('\U{0628}', '\U{FE90}', '\U{FE91}', '\U{FE92}'),
    '\U{062A}' := FormSet('\U{062A}', '\U{FE96}', '\U{FE97}', '\U{FE98}'),
    '\U{062B}' := FormSet('\U{062B}', '\U{FE9A}', '\U{FE9B}', '\U{FE9C}'),
    '\U{062C}' := FormSet('\U{062C}', '\U{FE9E}', '\U{FE9F}', '\U{FEA0}'),
    '\U{062D}' := FormSet('\U{062D}', '\U{FEA2}', '\U{FEA3}', '\U{FEA4}'),
    '\U{062E}' := FormSet('\U{062E}', '\U{FEA6}', '\U{FEA7}', '\U{FEA8}'),
    '\U{062F}' := FormSet('\U{062F}', '\U{FEAA}', '\U{FEA9}', '\U{FEAA}'),
    '\U{0630}' := FormSet('\U{0630}', '\U{FEAC}', '\U{FEAB}', '\U{FEAC}'),
    '\U{0631}' := FormSet('\U{0631}', '\U{FEAE}', '\U{FEAD}', '\U{FEAE}'),
    '\U{0632}' := FormSet('\U{0632}', '\U{FEB0}', '\U{FEAF}', '\U{FEB0}'),
    '\U{0633}' := FormSet('\U{0633}', '\U{FEB2}', '\U{FEB3}', '\U{FEB4}'),
    '\U{0634}' := FormSet('\U{0634}', '\U{FEB6}', '\U{FEB7}', '\U{FEB8}'),
    '\U{0635}' := FormSet('\U{0635}', '\U{FEBA}', '\U{FEBB}', '\U{FEBC}'),
    '\U{0636}' := FormSet('\U{0636}', '\U{FEBE}', '\U{FEBF}', '\U{FEC0}'),
    '\U{0637}' := FormSet('\U{0637}', '\U{FEC2}', '\U{FEC3}', '\U{FEC4}'),
    '\U{0638}' := FormSet('\U{0638}', '\U{FEC6}', '\U{FEC7}', '\U{FED0}'),
    '\U{0639}' := FormSet('\U{0639}', '\U{FECA}', '\U{FECB}', '\U{FECC}'),
    '\U{063A}' := FormSet('\U{063A}', '\U{FECE}', '\U{FECF}', '\U{FED0}'),
    '\U{0641}' := FormSet('\U{0641}', '\U{FED2}', '\U{FED3}', '\U{FED4}'),
    '\U{0642}' := FormSet('\U{0642}', '\U{FED6}', '\U{FED7}', '\U{FED8}'),
    '\U{0643}' := FormSet('\U{0643}', '\U{FEDA}', '\U{FEDB}', '\U{FEDC}'),
    '\U{0644}' := FormSet('\U{0644}', '\U{FEDE}', '\U{FEDF}', '\U{FEE0}'),
    '\U{0645}' := FormSet('\U{0645}', '\U{FEE2}', '\U{FEE3}', '\U{FEE4}'),
    '\U{0646}' := FormSet('\U{0646}', '\U{FEE6}', '\U{FEE7}', '\U{FEE8}'),
    '\U{0647}' := FormSet('\U{0647}', '\U{FEEA}', '\U{FEEB}', '\U{FEEC}'),
    '\U{0629}' := FormSet('\U{0629}', '\U{FE94}', '\U{FE93}', '\U{FE94}'),
    '\U{0648}' := FormSet('\U{0648}', '\U{FEEE}', '\U{FEED}', '\U{FEEE}'),
    '\U{0624}' := FormSet('\U{0624}', '\U{FE86}', '\U{FE85}', '\U{FE86}'),
    '\U{064A}' := FormSet('\U{064A}', '\U{FEF2}', '\U{FEF3}', '\U{FEF4}'),
    '\U{0649}' := FormSet('\U{0649}', '\U{FEF0}', '\U{FEEF}', '\U{FEF0}'),
    '\U{0626}' := FormSet('\U{0626}', '\U{FE8A}', '\U{FE8B}', '\U{FE8C}'),
    '\U{0621}' := FormSet('\U{0621}', '\U{0621}', '\U{0621}', '\U{0621}')
  ]

  /**
   * The table's two-code-point row for lam followed by plain alef. Its key
   * is a string of two code points, so a lookup by one code point never
   * finds it; it is reached only by the explicit ligature rule.
   */
  const LamAlef: FormSet := FormSet('\U{FEFB}', '\U{FEFC}', '\U{FEFB}', '\U{FEFC}')

  /** Letters that do not join to the following letter. */
  const NonConnecting: set<char> := {
    '\U{0627}', '\U{0623}', '\U{0625}', '\U{0622}', '\U{062F}', '\U{0630}',
    '\U{0631}', '\U{0632}', '\U{0648}', '\U{0624}', '\U{0621}'
  }

  /**
   * The three constants the shaper reads, as one value: $arabicChars (its
   * single-code-point rows and its lam-alef row) and $nonConnecting.
   */
  datatype Table = Table(letters: map<char, FormSet>, nonConnecting: set<char>, lamAlef: FormSet)

  const ArabicChars: Table := Table(Letters, NonConnecting, LamAlef)

  /** No glyph a table can produce is a space, and space has no row. */
  predicate NoSpaceGlyphs(t: Table)
  {
    && ' ' !in t.letters
    && (forall c | c in t.letters :: t.letters[c].isolated != ' ' && t.letters[c].final != ' ')
    && (forall c | c in t.letters :: t.letters[c].initial != ' ' && t.letters[c].medial != ' ')
    && t.lamAlef.isolated != ' ' && t.lamAlef.final != ' '
    && t.lamAlef.initial != ' ' && t.lamAlef.medial != ' '
  }

  /** The rows of the letter table are exactly U+0621..U+063A and U+0641..U+064A. */
  lemma LetterRanges(c: char)
    ensures c in Letters <==> '\U{0621}' <= c <= '\U{063A}' || '\U{0641}' <= c <= '\U{064A}'
  {
  }

  /** Every key of the letter table lies in the Arabic block. */
  lemma KeysAreArabic()
    ensures forall c | c in Letters :: IsArabic(c)
  {
  }

  /** The isolated form of every letter is the letter itself. */
  lemma IsolatedIsLetter()
    ensures forall c | c in Letters :: Letters[c].isolated == c
  {
  }

  /** Every non-connecting letter has a row. */
  lemma NonConnectingInTable()
    ensures forall c | c in NonConnecting :: c in Letters
  {
  }

  /** Lam is a joining letter; plain alef and the three hamza/madda alefs are non-connecting. */
  lemma AlefsAndLam()
    ensures Lam in Letters && Lam !in NonConnecting
    ensures Alef in NonConnecting
    ensures AlefHamzaAbove in NonConnecting && AlefHamzaBelow in NonConnecting && AlefMadda in NonConnecting
  {
  }

  /** The row of lam. */
  lemma LamRow()
    ensures Letters[Lam] == FormSet('\U{0644}', '\U{FEDE}', '\U{FEDF}', '\U{FEE0}')
  {
  }

  /** The rows of hah and meem, and dal as a non-connecting letter. */
  lemma HahMeemDal()
    ensures '\U{062D}' in Letters && Letters['\U{062D}'].initial == '\U{FEA3}'
    ensures '\U{0645}' in Letters && Letters['\U{0645}'].medial == '\U{FEE4}'
    ensures '\U{062D}' !in NonConnecting && '\U{0645}' !in NonConnecting
    ensures '\U{062F}' in NonConnecting
  {
  }

  /** The source's table produces no space glyph. */
  lemma ArabicCharsNoSpaceGlyphs()
    ensures NoSpaceGlyphs(ArabicChars)
  {
    LetterRanges(' ');
    assert forall c | c in Letters :: Letters[c].final != ' ';
    assert forall c | c in Letters :: Letters[c].initial != ' ';
    assert forall c | c in Letters :: Letters[c].medial != ' ';
    IsolatedIsLetter();
  }
}
