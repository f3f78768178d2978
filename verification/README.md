# Cistercian numerals: the rendering engine, modelled in Dafny

The program draws an integer as a row of Cistercian numeral glyphs. Each glyph
has a vertical stem. Its four quadrants show the ones, tens, hundreds and
thousands digit of a value 0..9999, one fixed polyline per nonzero digit.
A larger number is cut into groups of four decimal digits from the right, one
glyph per group, with the most significant group on the left. When the number
is negative, every glyph also gets a horizontal sign bar through its centre.

The project models this engine in two parts:

- **The web service's renderer**, in `main.py`: `draw_cistercian_digit` and
  `generate_cistercian_image`.
- **The batch generator's renderer**, in `cistercian-numeral-generator.py`:
  `draw_cistercian_number`, plus the two-glyph split in
  `generate_cistercian_pngs`.

Geometry is kept in the program's 100×100 design units. A glyph is the
ordered list of line segments that the program's `draw.line` calls produce. An
image is a canvas size plus the list of glyphs pasted onto it, each with its
x offset.

Modules, in dependency order:

- `Wrappers`: the `Result` type used for the out-of-range error.
- `Arith`: powers, decimal digits by repeated division, and the base-10000
  arithmetic the proofs need.
- `Decimal`: models of Python's `str(n)`, `str.zfill`, digit lists and
  `int("...")` parsing.
- `Geometry`: points, segments, the stem and the sign bar, polylines, and the
  two mirror maps of the design grid.
- `StrokeTable`:
  - both copies of the 4×9 stroke table, transcribed entry for entry;
  - proofs of their shape and their mirror symmetry;
  - a proof that the two copies are equal.
- `Glyph`: `draw_cistercian_digit` as the source runs it, and an independent
  reference definition from arithmetic digits.
- `Composer`: `generate_cistercian_image`, with grouping, tiling and sign.
- `Generator`: `draw_cistercian_number` and the batch image of one number.

Notes on how the source behaves:

- The sign bar is drawn at different points. The batch generator draws it
  right after the stem. The service draws it after the quadrant strokes, as
  an extra stroke on each tile (`main.py:196-205`). The two glyphs hold the
  same strokes in a different order; `Generator.DrawNumberNegativeStrokes`
  states this.
- Both renderers read each quadrant's digit as a character of the
  zero-padded decimal text (`str(num).zfill(4)`). `Decimal.PaddedDigit`
  proves that this character is the arithmetic digit (num // 10^i) % 10.
- The stroke table is written out in full in each of the two files. The model
  keeps both copies as written. It proves that the tens, hundreds and
  thousands rows are mirror images of the ones row (`StrokeTable.TableSymmetry`)
  and that the two copies are identical (`StrokeTable.GeneratorTableIdentical`).
- The comment next to `MAX_NUMBER` says "1 trillion - 1". The value is
  10^16 - 1, and the model uses the value.

## Model

| member | source | states |
|---|---|---|
| StrokeTable.TableShape | main.py:71-120 | the table has four quadrant rows of nine polylines each; every polyline has two to four points, all on the 3×4 design grid |
| StrokeTable.TableSymmetry | main.py:71-120 | for every digit 1..9, the tens entry is the ones entry mirrored across the stem; the hundreds entry is it mirrored across the horizontal middle; the thousands entry is it mirrored across both |
| StrokeTable.GeneratorTableIdentical | cistercian-numeral-generator.py:20-69 | the batch generator's copy of the table equals the service's copy entry for entry |
| StrokeTable.EntryInQuadrant | main.py:71-120 | every point of quadrant q's polylines lies in q's half-plane pair; no two consecutive points both lie on the stem line |
| StrokeTable.RowDistinct | main.py:71-120 | within one quadrant, distinct digits have distinct polylines |
| Geometry.Polyline | main.py:139-149 | a polyline of k points is drawn as k - 1 segments, and segment j joins point j to point j + 1 |
| Geometry.PolylineInjective | main.py:139-149 | two polylines of at least two points that draw the same segments are the same point list |
| Decimal.DecimalString | main.py:123 | `str(n)` of a natural number is non-empty, all digits, and has no leading zero unless it is "0" |
| Decimal.DecimalLength | main.py:173-177 | the length of `str(n)` is the number of decimal digits: n < 10^len, and 10^(len-1) <= n when len > 1 |
| Decimal.ZFill | main.py:123 | on unsigned digit text (the only text it is given), `zfill(width)` keeps the text as the suffix, pads with '0' on the left, and is width long unless the text is already longer |
| Decimal.DigitFromRight | main.py:135 | the j-th character from the right of `str(n)` has the value of n's j-th decimal digit |
| Decimal.PaddedDigit | main.py:123-135 | for 0 <= num <= 9999, `int(str(num).zfill(4)[3 - i])` is a digit equal to (num // 10^i) % 10 |
| Decimal.PaddedDigitAt | main.py:123-135 | the same character reading equals the repeated-division digit `DigitAt(num, i)` |
| Decimal.PaddedAllDigits | cistercian-numeral-generator.py:81-85 | for any magnitude, the zero-filled text has at least four characters and all are digits, so the quadrant loop can read indices 0..3 |
| Decimal.DigitList | main.py:173 | `[int(d) for d in str(n)]` has one entry per character, each in 0..9 |
| Decimal.ParseDigitList | main.py:173 | parsing the digit list of n back gives n |
| Decimal.ParseAppend | main.py:188-190 | the value of a concatenated digit list is the value of the left part times 10^len(right) plus the value of the right part |
| Decimal.ParseBound | main.py:188-190 | a list of k digits parses to a value in [0, 10^k) |
| Glyph.QuadrantStrokes | main.py:133-149 | quadrant q draws nothing exactly when its digit is 0; each stroke it draws lies in quadrant q and is neither the stem nor the sign bar |
| Glyph.StrokesInQuadrant | main.py:71-120 | each nonzero table entry draws at least one stroke, and all lie in that entry's quadrant |
| Glyph.DrawDigit | main.py:47-150 | the zfill-driven loop draws the stem, then the ones, tens, hundreds and thousands strokes of num's arithmetic digits, in that order; the stem is first and occurs only there, and the sign bar never occurs |
| Glyph.EmitMatchesDigits | main.py:133-149 | given text whose character 3 - j holds digit j, the per-character loop emits the same strokes as the digit-indexed reference |
| Glyph.QuadrantContent | main.py:133-149 | the strokes of num's glyph that lie in quadrant q are exactly the strokes of num's q-th digit; they are empty exactly when that digit is 0 |
| Glyph.ZeroIsStemOnly | main.py:133-137 | the glyph of 0 is the stem alone |
| Glyph.QuadrantStrokesInjective | main.py:133-138 | within one quadrant, different digits draw different strokes |
| Glyph.DigitsRecombine | main.py:123-135 | the four quadrant digits of num recombine to num |
| Glyph.SameQuadrantsSameValue | main.py:133-149 | two glyphs whose quadrant contents agree in all four quadrants show the same value |
| Glyph.DrawDigitInjective | main.py:47-150 | distinct values 0..9999 get distinct glyphs |
| Glyph.SignBarIgnored | main.py:196-205 | adding the sign bar to a glyph leaves every quadrant's strokes unchanged |
| Glyph.NoSignBar | main.py:125-131 | the glyph of a non-negative value never contains the sign bar |
| Composer.MaxNumberIsSixteenNines | main.py:16 | the bound is 10^16 - 1 |
| Composer.GenerateImage | main.py:167-168 | the result is an error exactly when abs(n) > MAX_NUMBER, and the error names that bound; otherwise the canvas is size high and size × tiles wide, with at least one tile |
| Composer.ChunkDigits | main.py:185-188 | group i is the slice [max(0, L - 4(i + 1)), L - 4i) of the digit list: one to four digits, in their original order |
| Composer.ChunkValue | main.py:188-190 | the parsed value of a group is in 0..9999 |
| Composer.GroupValues | main.py:177-190 | there are (L + 3) // 4 group values, each in 0..9999 |
| Composer.ChunkMatchesArithmetic | main.py:183-190 | the value of group i cut from the digit list is the i-th base-10000 digit of the number |
| Composer.LowGroup | main.py:185-190 | the first group is the number mod 10000 |
| Composer.ChunkAtPow | main.py:183-190 | the i-th base-10000 digit is (m // 10000^i) % 10000 |
| Composer.SameChunksSameNumber | main.py:183-190 | two numbers below 10000^k with the same k base-10000 digits are equal |
| Composer.ComposeChunks | main.py:183-190 | for m < 10000^k, recombining the first k base-10000 digits gives m back |
| Composer.DigitsFit | main.py:167-175 | an accepted number has 1 to 16 digits |
| Composer.GroupCount | main.py:173-177 | an accepted number gets 1 to 4 glyphs, and exactly as many as its base-10000 digits: a < 10000^G and, when G > 1, 10000^(G-1) <= a |
| Composer.GroupCountOne | main.py:177 | 0..9999 needs one glyph |
| Composer.GroupCountTwo | main.py:177 | 10000..99999999 needs two glyphs |
| Composer.ImageTileCount | main.py:177-183 | every accepted number is drawn with 1 to 4 tiles, exactly as many as it has base-10000 digits |
| Composer.TileAt | main.py:183-207 | tile i is pasted at x = size·(G - i - 1) and shows the i-th base-10000 digit of abs(n), with the sign of n |
| Composer.ImageTiles | main.py:183-207 | every tile shows the matching base-10000 digit of abs(n) and carries the sign of n |
| Composer.LayoutPlacement | main.py:180-207 | tiles lie inside the canvas and do not overlap; later tiles lie further left; the first tile touches the right edge and the last touches the left edge |
| Composer.TileSign | main.py:196-205 | a tile shows the sign bar exactly when it is negative |
| Composer.TileQuadrants | main.py:193-205 | stamping the sign bar leaves every quadrant intact: quadrant q of any tile shows exactly the strokes of digit q of its value |
| Composer.SignCoverage | main.py:171-205 | for n < 0 every tile shows the sign bar; for n >= 0 no tile does |
| Composer.ChunksRecompose | main.py:183-207 | reading the values the tiles show as base-10000 digits, the first tile (pasted rightmost) least significant, gives abs(n) back |
| Composer.TileGlyphInjective | main.py:193-205 | two tiles with the same strokes have the same value and sign |
| Composer.ImageInjective | main.py:153-210 | two accepted numbers whose images have the same tiles, glyph for glyph, are equal |
| Composer.SingleGlyphImage | main.py:173-207 | abs(n) <= 9999 gives a canvas of size × size holding one tile of abs(n) at x = 0, with n's sign |
| Composer.ZeroImage | main.py:173-193 | 0 gives one unsigned tile, and that tile is the stem alone |
| Composer.TwoGlyphImage | main.py:177-207 | high·10000 + low with high >= 1 gives a canvas two tiles wide: low at x = size, pasted first, and high at x = 0 |
| Composer.RangeBoundary | main.py:167-168 | ±(10^16 - 1) are accepted, and 10^16 - 1 takes four tiles; ±10^16 are rejected with the bound |
| Generator.DrawNumberAgrees | cistercian-numeral-generator.py:5-101 | for 0..9999 the batch renderer draws exactly the service's glyph |
| Generator.DrawNumberNegative | cistercian-numeral-generator.py:71-85 | for -9999..-1 the batch renderer draws the stem, then the sign bar, then the quadrant strokes of abs(num) |
| Generator.DrawNumberNegativeStrokes | cistercian-numeral-generator.py:71-99 | the same glyph holds exactly the service glyph's strokes plus one sign bar, each as often |
| Generator.EmitReadsFour | cistercian-numeral-generator.py:84-85 | the quadrant loop depends only on the first four characters of the padded text |
| Generator.DrawNumberDropsLastDigit | cistercian-numeral-generator.py:80-85 | when abs(num) >= 10000, only the four leading digits are drawn: dropping the last digit does not change the glyph |
| Generator.BatchImage | cistercian-numeral-generator.py:112-128 | numbers up to 9999 give one piece at x = 0 on a size × size canvas; larger ones give two pieces on a 2·size canvas, at x = 0 and x = size; the left number is >= 1, the right one is 0..9999, and left·10000 + right recombines to num |
| Generator.BatchMatchesComposer | cistercian-numeral-generator.py:112-126 | for 0..99999999 the batch image has the service image's width and height, and its k-th piece is the service's k-th tile from the end (same x, same value, unsigned) |
| Generator.PieceGlyphAgrees | cistercian-numeral-generator.py:113-126 | a batch piece that matches a service tile pastes the same strokes |
| Generator.BatchGlyphsMatch | cistercian-numeral-generator.py:112-126 | every glyph of the batch image of 0..99999999 is the service's glyph for the matching tile |

## Left out

- The HTTP layer of `main.py` is not part of this model. That covers the
  routes, the rate limiter, its response headers and the HTML page; none of
  it computes glyphs.
- PNG encoding, file output, directory creation and progress printing are
  left out. They are I/O.
- PIL rasterisation is left out. That covers the pixel scale factor
  `size / 100`, the floating-point coordinates and the stroke width
  `max(1, int(1.5 * scale))`. A glyph is modelled as its segments in
  100-unit design space. Tile offsets and canvas sizes are modelled in pixels.
- Image size is a natural number. A negative size makes PIL raise, and that
  is PIL's behaviour, not the engine's.
- Glyph.DrawDigit takes values 0..9999 only. For a negative argument the
  source's `draw_cistercian_digit` would read the '-' of `str(num)` and raise
  on `int('-')`. The composer never calls it with one: it always passes
  group values of the magnitude.
- Composer.GenerateImage models the error as a `Failure` value, not a Python
  exception. The message text is reduced to the bound it names.
- Generator.BatchMatchesComposer covers 0..99999999, the range where the
  batch split and the service's grouping coincide.
  - From 10^8 up, the left number has more than four digits, and the batch
    renderer draws only its four leading digits.
    `Generator.DrawNumberDropsLastDigit` states this behaviour; no claim of
    agreement with the service is made there.
  - Negative start values below -9999 are drawn as a single glyph, and the
    same four-leading-digits reading applies to them.
- A glyph decoder is not modelled. The service never reads a glyph back.
  Distinct values get distinct glyphs (`Glyph.DrawDigitInjective`,
  `Composer.ImageInjective`), so no information is lost in the segment
  model. The rasterised PNG can lose it: at size 0 every value gives the
  same empty canvas.
