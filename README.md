# Arabic glyph shaping for a non-shaping rasterizer

This project is a Dafny model of `ArabicGlyphs`, the text-shaping class in
`arabic_glyphs.php`. Its job is to prepare a line of mixed Arabic and Latin text for a
TrueType rasterizer that cannot shape Arabic. Every letter with a row in the class's
table (the 36 letters U+0621..U+063A and U+0641..U+064A) takes the form for its
position in the word: isolated, final, initial or medial. The isolated form is the
letter itself; for every letter but hamza, the other three are Arabic Presentation
Forms-B code points. Lam followed by plain alef becomes a single ligature glyph. Other Arabic-block code
points, such as U+067E or U+06A9, are copied unchanged, and so is everything else.
The class has three parts, modelled one module each:

- **Segmenter** (`splitTextSegments`). Cuts the text into ordered runs typed arabic,
  other or space. Every U+0020 is its own space run. The other runs are maximal runs of
  Arabic-block (U+0600..U+06FF) code points, or of non-Arabic, non-space code points.
  It is modelled as the method `Segmenter.SplitTextSegments`, proved equal to the left-to-right specification
  `Segments`. `Segments` adds one code point at a time through `Step`. It is then proved
  to be the unique partition of the text with those properties.
- **Shaper** (`shapeArabicText`). An index scan over the code points. It emits one glyph
  per code point and steps over the alef of a lam-alef pair. The letter table, the
  lam-alef row and the non-connecting set are constants in `ArabicTable`, copied exactly
  as written, quirks included. One quirk: the medial form of zah is U+FED0, which is the
  ghain medial. Another: hamza maps to itself in all four forms. The scan is
  `Shaper.ShapeWith`, proved equal to the position-wise specification `Shaped`. In
  `Shaped` the glyph of position j depends only on the code points at j-1, j and j+1,
  and each absorbed alef contributes nothing. The source's own entry point,
  `Shaper.ShapeArabicText`, runs the scan with the source's table.
- **Driver** (`utf8Glyphs`). A text with no Arabic-block code point is returned as it
  is. Otherwise the text is segmented, only the arabic runs are shaped (never
  reversed), and the processed runs are joined back in input order.

Text is a sequence of Unicode code points (`seq<char>`), which matches the source's
UTF-8 code-point split.

The non-connecting set (arabic_glyphs.php:151) is alef, alef with hamza above, alef
with hamza below, alef with madda, dal, thal, reh, zain, waw, waw with hamza, and
hamza. Yeh with hamza above (U+0626) is not in it and joins on both sides. Arabic
typography gives each of these letters its final form after a joining letter,
except hamza, which never joins. In this code every non-isolated form is guarded by
"not non-connecting" (arabic_glyphs.php:205-211), so such a letter always gets
form 0 and its glyph is the letter itself. The one exception to emitting it is an
alef right after lam: that alef is absorbed into the ligature and emits nothing. The
model does what the code does; `Shaper.NonConnectingIsolated` states it.

## Model

| member | source | states |
|---|---|---|
| ArabicTable.LetterRanges | arabic_glyphs.php:109-146 | a code point has a row in the letter table exactly when it lies in U+0621..U+063A or U+0641..U+064A |
| ArabicTable.KeysAreArabic | arabic_glyphs.php:109-146 | every letter with a row lies in the Arabic block U+0600..U+06FF |
| ArabicTable.IsolatedIsLetter | arabic_glyphs.php:109-146 | the isolated form (column 0) of every row is the letter itself |
| ArabicTable.NonConnectingInTable | arabic_glyphs.php:151 | every non-connecting letter has a row in the table |
| ArabicTable.AlefsAndLam | arabic_glyphs.php:111-151 | lam has a row and is a joining letter; plain alef and the hamza/madda alefs are non-connecting |
| ArabicTable.LamRow | arabic_glyphs.php:136 | lam's forms are U+0644, U+FEDE, U+FEDF, U+FEE0 |
| ArabicTable.HahMeemDal | arabic_glyphs.php:119-151 | hah's initial form is U+FEA3, meem's medial form is U+FEE4, both are joining letters; dal is non-connecting |
| ArabicTable.ArabicCharsNoSpaceGlyphs | arabic_glyphs.php:109-148 | no glyph the table can produce, the lam-alef row included, is a space, and space has no row |
| Segmenter.StepFlatten | arabic_glyphs.php:52-89 | one step of the scan appends exactly the current code point to the text held by the runs |
| Segmenter.StepSegmentation | arabic_glyphs.php:52-89 | one step of the scan keeps the runs a partition: non-empty, homogeneous, a space run is " ", neighbouring non-space runs differ in type |
| Segmenter.SegmentsFlatten | arabic_glyphs.php:45-100 | concatenating the texts of a text's runs gives back the text exactly |
| Segmenter.SegmentsWellFormed | arabic_glyphs.php:45-100 | every run is non-empty; every space is its own run " "; arabic runs hold only U+0600..U+06FF; other runs hold neither a space nor an Arabic-block code point; two consecutive non-space runs have different types |
| Segmenter.SpaceJoin | arabic_glyphs.php:54-70 | two partitions joined by a space run form a partition of the two texts joined by a space |
| Segmenter.Unstep | arabic_glyphs.php:75-88 | every non-empty partition is one scan step past a partition of its text less the last code point |
| Segmenter.SegmentationUnique | arabic_glyphs.php:45-100 | any partition with the properties above that concatenates to the text is the one the scan produces |
| Segmenter.SplitTextSegments | arabic_glyphs.php:45-100 | the loop with its open run (current type null or arabic/other) returns the specified runs, which concatenate to the text and form a partition |
| Shaper.Reverse | arabic_glyphs.php:217-219 | array_reverse: same length, element k is element n-1-k of the input |
| Shaper.ReverseReverse | arabic_glyphs.php:217-219 | reversing twice gives the sequence back |
| Shaper.ShapedFromStep | arabic_glyphs.php:157-214 | one scan step: the glyph of an unabsorbed position comes first, then the rest after the current code point or after the lam-alef pair |
| Shaper.ShapeWith | arabic_glyphs.php:154-221 | the index scan, with its skip over the ligature's alef and the optional reversal, returns the position-wise shaping of the text (reversed when asked) |
| Shaper.ShapeArabicText | arabic_glyphs.php:107-222 | shapeArabicText with the source's table returns that shaping |
| Shaper.ShapedFromLength | arabic_glyphs.php:157-214 | the scan from an unabsorbed position emits one glyph per remaining code point, less one per lam-alef pair |
| Shaper.ShapedLength | arabic_glyphs.php:157-214 | the shaped text is as long as the input less the number of lam-alef pairs |
| Shaper.ShapedFromAt | arabic_glyphs.php:157-214 | from an unabsorbed start, the glyph of every unabsorbed position j stands at j less the start less the lam-alef pairs in between |
| Shaper.ShapedAt | arabic_glyphs.php:157-214 | output order is input order: the glyph of every code point that is not an absorbed alef stands at its index less the lam-alef pairs before it |
| Shaper.GlyphSpace | arabic_glyphs.php:161-213 | with a table that has no space glyph, a position's glyph is a space exactly when its code point is |
| Shaper.ShapedFromSpaces | arabic_glyphs.php:157-214 | the scan from any position keeps the number of spaces of the remaining text |
| Shaper.ShapedSpaces | arabic_glyphs.php:157-214 | shaping neither drops nor adds a space |
| Shaper.PassThrough | arabic_glyphs.php:161-164 | a code point without a row is copied unchanged and never absorbed; it breaks the joining of the letter after it and of the letter before it |
| Shaper.LigatureRule | arabic_glyphs.php:167-180 | lam followed by plain alef gives one glyph and absorbs the alef; the glyph is U+FEFC when the code point before the lam joins, U+FEFB otherwise |
| Shaper.HamzaAlefNotLigated | arabic_glyphs.php:167-213 | lam followed by alef with hamza above, hamza below or madda is not a ligature: the alef is kept as itself and the lam takes its initial U+FEDF or medial U+FEE0 form |
| Shaper.NonConnectingIsolated | arabic_glyphs.php:204-213 | a non-connecting letter always gets form 0 and its glyph is itself, whatever its neighbours; it is absorbed exactly when it is an alef right after lam, and otherwise it stands at its index less the lam-alef pairs before it in the output |
| Shaper.AdjacentLetters | arabic_glyphs.php:167-213 | of two neighbouring letters with rows, the first joining, `FormOf` selects initial or medial form for the first, and for the second final or medial when joining, isolated when non-connecting; the first emits its table form, except that lam followed by plain alef takes the ligature branch instead: a lam-alef glyph, with the alef absorbed |
| Shaper.LamAlefWord | arabic_glyphs.php:167-180 | the two-letter word lam, alef shapes to the single glyph U+FEFB |
| ArabicGlyphs.ProcessSegments | arabic_glyphs.php:24-35 | the loop over the runs returns, for each run in order, its shaped text when arabic, " " when space, its text when other |
| ArabicGlyphs.Utf8Glyphs | arabic_glyphs.php:14-39 | utf8Glyphs returns the text itself when it has no Arabic-block code point, and otherwise the processed runs joined in order |
| ArabicGlyphs.ConcatAppend | arabic_glyphs.php:38 | joining with the empty separator distributes over concatenation of part lists |
| ArabicGlyphs.RenderAppend | arabic_glyphs.php:24-38 | processing and joining the runs of two run lists gives the two outputs one after the other: no reordering, no reversal |
| ArabicGlyphs.RenderSnoc | arabic_glyphs.php:24-38 | adding a run at the end adds its processed text at the end of the output |
| ArabicGlyphs.ProcessSpaces | arabic_glyphs.php:26-34 | processing a run keeps its number of spaces |
| ArabicGlyphs.RenderPlain | arabic_glyphs.php:29-34 | other and space runs are emitted unchanged: a partition with no arabic run renders to its own text |
| ArabicGlyphs.NoArabicRun | arabic_glyphs.php:72-73 | a partition whose text has no Arabic-block code point has no arabic run |
| ArabicGlyphs.FastPathAgrees | arabic_glyphs.php:16-18 | the fast path is only a shortcut: for every text the result equals what the run-by-run path gives |
| ArabicGlyphs.RenderSpaces | arabic_glyphs.php:24-38 | the processed, joined runs of a partition have as many spaces as its text |
| ArabicGlyphs.GlyphsSpaces | arabic_glyphs.php:14-39 | the output of utf8Glyphs has exactly as many U+0020 as its input |
| ArabicGlyphs.SegmentsAtSpace | arabic_glyphs.php:54-70 | the runs of a + " " + b are the runs of a, a space run, then the runs of b |
| ArabicGlyphs.GlyphsAtSpace | arabic_glyphs.php:14-39 | words are processed independently: the output for a + " " + b is the output for a, a space, then the output for b |
| ArabicGlyphs.ArabicRun | arabic_glyphs.php:45-100 | a non-empty word of Arabic-block code points is segmented into exactly one arabic run holding the whole word |
| ArabicGlyphs.ArabicWord | arabic_glyphs.php:14-39 | a non-empty word of Arabic-block code points is one run and is shaped as a whole |
| ArabicGlyphs.PlainWords | arabic_glyphs.php:16-18 | "Ahmad" and "2024" contain no Arabic and are returned as they are |
| ArabicGlyphs.NameShapes | arabic_glyphs.php:157-214 | alef, hah, meem, dal shapes to isolated alef U+0627, initial hah U+FEA3, medial meem U+FEE4, isolated dal U+062F |
| ArabicGlyphs.NameGlyphs | arabic_glyphs.php:14-39 | the name alef, hah, meem, dal on its own comes out as U+0627, U+FEA3, U+FEE4, U+062F |
| ArabicGlyphs.NameLine | arabic_glyphs.php:14-39 | the name followed by " 2024" comes out as the shaped name followed by " 2024" |
| ArabicGlyphs.MixedLine | arabic_glyphs.php:14-39 | the line "Ahmad " + alef, hah, meem, dal + " 2024" keeps the Latin word, the spaces and the digits and shapes only the name |

The definitions the contracts above are stated with model these source lines directly:

- `ArabicTable.Letters`, `ArabicTable.LamAlef`: the letter table, arabic_glyphs.php:109-148.
- `ArabicTable.NonConnecting`: the non-connecting set, arabic_glyphs.php:151.
- `ArabicTable.IsArabic`, `Segmenter.Classify`: the run type of a code point, arabic_glyphs.php:53-73.
- `Segmenter.Step`: one pass of the foreach body, arabic_glyphs.php:52-89.
- `Segmenter.Segments`: the whole foreach and the closing of the last run, arabic_glyphs.php:52-97.
- `Shaper.PrevConnects`: the test on the previous code point, arabic_glyphs.php:169-175 and 188-193.
- `Shaper.NextConnects`: the test on the next code point, arabic_glyphs.php:196-201.
- `Shaper.FormOf`: the form selection, arabic_glyphs.php:203-211.
- `Shaper.StartsLigature`: the lam-alef test, arabic_glyphs.php:167.
- `Shaper.GlyphAt`: the glyph emitted for one position (pass-through, ligature or table form), arabic_glyphs.php:161-213.
- `Shaper.Shaped`, `Shaper.Shape`: the emitted glyphs in order and the optional reversal, arabic_glyphs.php:157-221.
- `ArabicGlyphs.ContainsArabic`: the fast-path test, arabic_glyphs.php:16.
- `ArabicGlyphs.Process`: the per-run branch, arabic_glyphs.php:26-34.
- `ArabicGlyphs.Parts`: the `$processedSegments` array, arabic_glyphs.php:24-35.
- `ArabicGlyphs.Render`: the processed runs joined by `implode`, arabic_glyphs.php:24-38.
- `ArabicGlyphs.Concat`: `implode('', …)`, arabic_glyphs.php:38.
- `ArabicGlyphs.Glyphs`: the value utf8Glyphs returns, arabic_glyphs.php:14-39.

## Left out

- UTF-8 decoding. The source splits and tests its input with `preg_split('//u', …)` and
  `preg_match('/…/u', …)`. The model takes the text as a sequence of code points.
  Invalid UTF-8, for which those calls fail, is not modelled.
- `api/certificate.php` is not part of this model. It covers HTTP and JSON handling,
  image drawing and metrics through GD and TrueType, the PDF wrapper, filename cleanup
  and `mb_convert_encoding` detection. These are I/O and foreign library calls.
- `config.php` is not part of this model: it is configuration data with no logic.
- The lam-alef row of the table is keyed by a two-code-point string. It is modelled as
  the separate constant `ArabicTable.LamAlef`, reached only by the ligature rule, which
  is the only way the source can reach it.
- The scan `Shaper.ShapeWith` takes the table as a parameter. The source's shaper is
  the instance `ShapeArabicText`, which passes the constant table, and the general
  properties are proved for any table.
- The model does not return the source's segment records as PHP associative arrays. A
  run is a datatype with a kind and a text, and `null` for "no open run" is `None`.
