/**
 * The batch generator's own renderer (draw_cistercian_number) and its
 * two-tile split of large numbers (generate_cistercian_pngs).
 *
 * The generator draws the stem, then the sign bar of a negative number,
 * then the quadrant strokes read from its own copy of the stroke table.
 * Numbers above 9999 are split into num // 10000 on the left and
 * num % 10000 on the right.
 */
module Generator {
  import opened Arith
  import opened Decimal
  import opened Geometry
  import opened StrokeTable
  import opened Glyph
  import opened Composer
  import opened Wrappers

  /**
   * The glyph of number pasted with its left edge at x; the top edge is
   * always 0. The strokes pasted are PieceGlyph of the piece.
   */
  datatype Piece = Piece(x: int, number: int)

  /** A generated image and the pieces pasted onto it, in paste order. */
  datatype Picture = Picture(width: int, height: int, pieces: seq<Piece>)

  /**
   * draw_cistercian_number: the stem, the sign bar when num is negative, then
   * the quadrant loop over str(|num|).zfill(4), which reads characters 3..0
   * whatever the length of the text.
   */
  function DrawNumber(num: int): seq<Segment>
  {
    GeneratorTableIdentical();
    MainTableStrokes(0, 0);
    [Stem] + SignStroke(num < 0) + QuadrantLoop(GeneratorTable, Abs(num))
  }

  /** For 0 <= num <= 9999 the generator draws exactly the service's glyph. */
  lemma DrawNumberAgrees(num: int)
    requires 0 <= num <= 9999
    ensures DrawNumber(num) == DrawDigit(num)
  {
    GeneratorTableIdentical();
  }

  /**
   * For -9999 <= num < 0 the generator draws the same strokes as the service
   * (the glyph of |num| and the sign bar), but with the sign bar second
   * instead of last.
   */
  lemma DrawNumberNegative(num: int)
    requires -9999 <= num < 0
    ensures DrawNumber(num) == [Stem, SignBar] + DrawDigit(-num)[1..]
  {
    var a := -num;
    GeneratorTableIdentical();
    MainTableStrokes(0, 0);
    var rest := QuadrantLoop(MainTable, a);
    assert Abs(num) == a;
    assert DrawNumber(num) == [Stem] + [SignBar] + rest;
    assert DrawDigit(a) == [Stem] + rest;
    SignInserted(DrawNumber(num), DrawDigit(a), rest);
  }

  /** ... and so the two glyphs hold the same strokes, each as often. */
  lemma DrawNumberNegativeStrokes(num: int)
    requires -9999 <= num < 0
    ensures multiset(DrawNumber(num)) == multiset(DrawDigit(-num) + [SignBar])
  {
    DrawNumberNegative(num);
    var g, h := DrawDigit(-num), DrawNumber(num);
    SignMovedSameStrokes(g);
    assert h == [Stem, SignBar] + g[1..];
  }

  /** Inserting the sign bar after the stem of [Stem] + rest. */
  lemma SignInserted(h: seq<Segment>, g: seq<Segment>, rest: seq<Segment>)
    requires h == [Stem] + [SignBar] + rest && g == [Stem] + rest
    ensures h == [Stem, SignBar] + g[1..]
  {
    assert g[1..] == rest;
  }

  /** Moving the sign bar from the end to just after the stem keeps the strokes. */
  lemma SignMovedSameStrokes(g: seq<Segment>)
    requires |g| >= 1 && g[0] == Stem
    ensures multiset([Stem, SignBar] + g[1..]) == multiset(g + [SignBar])
  {
    assert g == [Stem] + g[1..];
    assert [Stem, SignBar] + g[1..] == [Stem] + [SignBar] + g[1..];
  }

  /** The quadrant loop reads only the first four characters of the text. */
  lemma {:induction false} EmitReadsFour(table: seq<seq<seq<Point>>>, s: string, t: string, i: nat)
    requires WellShaped(table) && |s| >= 4 && |t| >= 4 && i <= 4
    requires forall k :: 0 <= k < |s| ==> IsDigitChar(s[k])
    requires forall k :: 0 <= k < |t| ==> IsDigitChar(t[k])
    requires s[..4] == t[..4]
    ensures EmitDigits(table, s, i) == EmitDigits(table, t, i)
    decreases 4 - i
  {
    if i < 4 {
      assert s[3 - i] == s[..4][3 - i] == t[..4][3 - i] == t[3 - i];
      EmitReadsFour(table, s, t, i + 1);
    }
  }

  /** num with its last decimal digit dropped, keeping the sign. */
  function DropLastDigit(num: int): (r: int)
    ensures Abs(r) == Abs(num) / 10 && (r < 0 <==> num <= -10)
  {
    if num < 0 then -(Abs(num) / 10) else num / 10
  }

  /**
   * Above 9999 in magnitude only the four leading digits are drawn: dropping
   * the last digit does not change the glyph.
   */
  lemma DrawNumberDropsLastDigit(num: int)
    requires Abs(num) >= 10000
    ensures DrawNumber(num) == DrawNumber(DropLastDigit(num))
  {
    var a := Abs(num);
    var s := DecimalString(a);
    var t := DecimalString(a / 10);
    AtLeastFourDigits(a / 10);
    assert s == t + [DigitChar(a % 10)];
    assert s[..4] == t[..4];
    PaddedAllDigits(a);
    PaddedAllDigits(a / 10);
    GeneratorTableIdentical();
    MainTableStrokes(0, 0);
    EmitReadsFour(GeneratorTable, ZFill(s, 4), ZFill(t, 4), 0);
  }

  /** The strokes a piece pastes. */
  function PieceGlyph(pc: Piece): seq<Segment>
  {
    DrawNumber(pc.number)
  }

  /**
   * One generated image: a number up to 9999 (negative ones included) is a
   * single glyph; a larger one is num // 10000 at x = 0 and num % 10000 at
   * x = size on a canvas two glyphs wide. The halves recombine to num, and
   * the right one always fits a single glyph.
   */
  function BatchImage(num: int, size: nat): (p: Picture)
    ensures |p.pieces| == (if num <= 9999 then 1 else 2)
    ensures p.height == size && p.width == size * |p.pieces| && p.pieces[0].x == 0
    ensures |p.pieces| == 1 ==> p.pieces[0].number == num
    ensures |p.pieces| == 2 ==>
      && p.pieces[1].x == size
      && 1 <= p.pieces[0].number && 0 <= p.pieces[1].number <= 9999
      && p.pieces[0].number * 10000 + p.pieces[1].number == num
  {
    if num <= 9999 then Picture(size, size, [Piece(0, num)])
    else Picture(2 * size, size, [Piece(0, num / 10000), Piece(size, num % 10000)])
  }

  /**
   * The picture holds the canvas's tiles back to front: same width and
   * height, and its k-th piece has the position and the number of the
   * canvas's k-th tile from the end, none of them negative.
   */
  predicate ReversedTiles(p: Picture, c: Canvas)
  {
    |p.pieces| == |c.tiles| && p.width == c.width && p.height == c.height &&
    forall k :: 0 <= k < |c.tiles| ==>
      var t := c.tiles[|c.tiles| - 1 - k];
      !t.negative && 0 <= t.value <= 9999 && p.pieces[k] == Piece(t.x, t.value)
  }

  /**
   * For 0 <= num <= 99999999 the batch image is the service's image of num:
   * same canvas, same glyphs at the same places, pasted in the opposite order.
   */
  lemma BatchMatchesComposer(num: int, size: nat)
    requires 0 <= num <= 99999999
    ensures GenerateImage(num, size).Success?
    ensures ReversedTiles(BatchImage(num, size), GenerateImage(num, size).value)
  {
    if num <= 9999 {
      SingleGlyphImage(num, size);
    } else {
      TwoGlyphImage(num, size, num / 10000, num % 10000);
    }
  }

  /** A piece standing for a tile pastes the strokes the service draws for it. */
  lemma PieceGlyphAgrees(pc: Piece, t: Tile)
    requires !t.negative && 0 <= t.value <= 9999 && pc == Piece(t.x, t.value)
    ensures PieceGlyph(pc) == TileGlyph(t)
  {
    DrawNumberAgrees(t.value);
    UnsignedTileGlyph(t.x, t.value);
  }

  /** Hence every glyph of the batch image is the service's glyph at that place. */
  lemma BatchGlyphsMatch(num: int, size: nat, k: nat)
    requires 0 <= num <= 99999999 && k < |BatchImage(num, size).pieces|
    ensures GenerateImage(num, size).Success?
    ensures var tiles := GenerateImage(num, size).value.tiles;
      |tiles| == |BatchImage(num, size).pieces| &&
      0 <= tiles[|tiles| - 1 - k].value <= 9999 &&
      PieceGlyph(BatchImage(num, size).pieces[k]) == TileGlyph(tiles[|tiles| - 1 - k])
  {
    BatchMatchesComposer(num, size);
    var tiles := GenerateImage(num, size).value.tiles;
    PieceGlyphAgrees(BatchImage(num, size).pieces[k], tiles[|tiles| - 1 - k]);
  }
}
