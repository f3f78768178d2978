/**
 * Multi-glyph composition of a signed number (generate_cistercian_image).
 *
 * The decimal digits of |n| are cut into groups of four from the right;
 * each group becomes one glyph, the least significant group in the
 * rightmost tile, and every tile of a negative number carries the sign
 * bar. Groups are cut by slicing the digit list exactly as the program
 * does; `ChunkAt` is the arithmetic reference the lemmas compare against.
 */
module Composer {
  import opened Arith
  import opened Decimal
  import opened Geometry
  import opened Glyph
  import opened Wrappers

  /** The largest magnitude accepted: sixteen nines, so at most four glyphs. */
  const MaxNumber: int := 9999999999999999

  lemma MaxNumberIsSixteenNines()
    ensures MaxNumber == Pow(10, 16) - 1
  {
    PowAdd(10, 8, 8);
    PowAdd(10, 4, 4);
  }

  datatype Error = NumberOutOfRange(limit: int)

  /**
   * The glyph of `value` pasted with its left edge at `x` (the top edge is
   * always 0), with the sign bar drawn on it when `negative`.
   */
  datatype Tile = Tile(x: int, value: int, negative: bool)

  /** A canvas and the tiles pasted onto it, in paste order. */
  datatype Canvas = Canvas(width: int, height: int, tiles: seq<Tile>)

  function Abs(n: int): nat
  {
    if n < 0 then -n else n
  }

  predicate AllDigits(ds: seq<int>)
  {
    forall k :: 0 <= k < |ds| ==> 0 <= ds[k] <= 9
  }

  /** Number of glyphs for a number of `len` digits: one per started group of four. */
  function GlyphCount(len: nat): nat
  {
    (len + 3) / 4
  }

  /** Start of group i: `max(0, len - 4 * (i + 1))`. */
  function ChunkStart(len: nat, i: nat): nat
  {
    if len >= 4 * (i + 1) then len - 4 * (i + 1) else 0
  }

  /** The digits of group i, counted from the right end of the digit list. */
  function ChunkDigits(ds: seq<int>, i: nat): (c: seq<int>)
    requires 4 * i < |ds|
    ensures |c| == |ds| - 4 * i - ChunkStart(|ds|, i) && 1 <= |c| <= 4
    ensures forall k :: 0 <= k < |c| ==> c[k] == ds[ChunkStart(|ds|, i) + k]
  {
    ds[ChunkStart(|ds|, i)..|ds| - 4 * i]
  }

  /** The value of group i, read back from its digits as `int(...)` does. */
  function ChunkValue(ds: seq<int>, i: nat): (v: int)
    requires AllDigits(ds) && 4 * i < |ds|
    ensures 0 <= v <= 9999
  {
    var c := ChunkDigits(ds, i);
    ParseBound(c);
    PowTenAtMostFour(|c|);
    ParseDigits(c)
  }

  /** Reference: the i-th base-10000 digit of m. */
  function ChunkAt(m: int, i: nat): (c: int)
    ensures 0 <= c <= 9999
    decreases i
  {
    if i == 0 then m % 10000 else ChunkAt(m / 10000, i - 1)
  }

  /** The first k base-10000 digits of m, least significant first. */
  function ChunksOf(m: int, k: nat): (cs: seq<int>)
    ensures |cs| == k
    ensures forall i :: 0 <= i < k ==> cs[i] == ChunkAt(m, i)
    decreases k
  {
    if k == 0 then [] else [m % 10000] + ChunksOf(m / 10000, k - 1)
  }

  /** Positional value of base-10000 digits, least significant first. */
  function Compose(cs: seq<int>): int
  {
    if cs == [] then 0 else cs[0] + 10000 * Compose(cs[1..])
  }

  function SignStroke(negative: bool): seq<Segment>
  {
    if negative then [SignBar] else []
  }

  /** What a tile shows: the glyph of its value, then the sign bar if negative. */
  function TileGlyph(t: Tile): seq<Segment>
    requires 0 <= t.value <= 9999
  {
    DrawDigit(t.value) + SignStroke(t.negative)
  }

  /** A tile of a non-negative number carries exactly the glyph of its value. */
  lemma UnsignedTileGlyph(x: int, v: int)
    requires 0 <= v <= 9999
    ensures TileGlyph(Tile(x, v, false)) == DrawDigit(v)
  {
    assert DrawDigit(v) + [] == DrawDigit(v);
  }

  /**
   * Pastes the glyph of values[i] at x = size * (G - i - 1) on a canvas G
   * tiles wide, so the first value lands rightmost.
   */
  function Layout(values: seq<int>, negative: bool, size: nat): (c: Canvas)
    ensures |c.tiles| == |values| && c.height == size && c.width == size * |values|
    ensures forall i :: 0 <= i < |values| ==> c.tiles[i].value == values[i] && c.tiles[i].negative == negative
  {
    var count := |values|;
    Canvas(size * count, size, seq(count, i requires 0 <= i < count => Tile(size * (count - i - 1), values[i], negative)))
  }

  /** The value of every group of four digits, least significant group first. */
  function GroupValues(ds: seq<int>): (vs: seq<int>)
    requires AllDigits(ds)
    ensures |vs| == GlyphCount(|ds|)
    ensures forall i :: 0 <= i < |vs| ==> 0 <= vs[i] <= 9999
  {
    var count := GlyphCount(|ds|);
    seq(count, i requires 0 <= i < count => ChunkValue(ds, i))
  }

  /**
   * The composed image of n with tiles of `size` units: an error when |n|
   * exceeds MaxNumber, otherwise one tile per group of four digits.
   */
  function GenerateImage(n: int, size: nat): (r: Result<Canvas, Error>)
    ensures r.Failure? <==> Abs(n) > MaxNumber
    ensures r.Failure? ==> r.error == NumberOutOfRange(MaxNumber)
    ensures r.Success? ==> r.value.height == size && |r.value.tiles| >= 1
    ensures r.Success? ==> r.value.width == size * |r.value.tiles|
  {
    if Abs(n) > MaxNumber then Failure(NumberOutOfRange(MaxNumber))
    else
      Success(Layout(GroupValues(DigitList(Abs(n))), n < 0, size))
  }

  /** Slicing group i out of a digit list agrees with base-10000 arithmetic. */
  lemma {:induction false} ChunkMatchesArithmetic(ds: seq<int>, i: nat)
    requires AllDigits(ds) && 4 * i < |ds|
    ensures ChunkValue(ds, i) == ChunkAt(ParseDigits(ds), i)
    decreases i
  {
    var len := |ds|;
    if i == 0 {
      LowGroup(ds);
    } else {
      var pre := ds[..len - 4];
      var post := ds[len - 4..];
      assert ds == pre + post;
      ParseAppend(pre, post);
      ParseBound(pre);
      ParseBound(post);
      PowTenFour();
      DivModUnique(ParseDigits(ds), 10000, ParseDigits(pre), ParseDigits(post));
      ChunkMatchesArithmetic(pre, i - 1);
      assert ChunkDigits(pre, i - 1) == ChunkDigits(ds, i);
    }
  }

  /** The last group is the value modulo 10000. */
  lemma LowGroup(ds: seq<int>)
    requires AllDigits(ds) && 0 < |ds|
    ensures ChunkValue(ds, 0) == ParseDigits(ds) % 10000
  {
    if |ds| >= 4 {
      LowGroupOfLong(ds);
    } else {
      LowGroupOfShort(ds);
    }
  }

  lemma LowGroupOfLong(ds: seq<int>)
    requires AllDigits(ds) && 4 <= |ds|
    ensures ChunkValue(ds, 0) == ParseDigits(ds) % 10000
  {
    var a := ds[..|ds| - 4];
    var b := ds[|ds| - 4..];
    assert ds == a + b;
    assert ChunkDigits(ds, 0) == b;
    ParseAppend(a, b);
    ParseBound(a);
    ParseBound(b);
    PowTenFour();
    DivModUnique(ParseDigits(ds), 10000, ParseDigits(a), ParseDigits(b));
  }

  lemma LowGroupOfShort(ds: seq<int>)
    requires AllDigits(ds) && 0 < |ds| < 4
    ensures ChunkValue(ds, 0) == ParseDigits(ds) % 10000
  {
    assert ChunkDigits(ds, 0) == ds;
    ParseBound(ds);
    PowTenAtMostFour(|ds|);
    SmallDivMod(ParseDigits(ds), 10000);
  }

  /** Base-10000 digits recompose the number they were taken from. */
  lemma {:induction false} ComposeChunks(m: int, k: nat)
    requires 0 <= m < Pow(10000, k)
    ensures Compose(ChunksOf(m, k)) == m
  {
    if k > 0 {
      var q := m / 10000;
      var cs := ChunksOf(m, k);
      assert cs == [m % 10000] + ChunksOf(q, k - 1);
      assert cs[1..] == ChunksOf(q, k - 1);
      ComposeChunks(q, k - 1);
    }
  }

  /** Numbers within range have between one and sixteen digits. */
  lemma DigitsFit(n: int)
    requires Abs(n) <= MaxNumber
    ensures 1 <= |DigitList(Abs(n))| <= 16
  {
    var len := |DecimalString(Abs(n))|;
    DecimalLength(Abs(n));
    if len > 16 {
      PowMonotone(10, 16, len - 1);
      MaxNumberIsSixteenNines();
    }
  }

  /**
   * The number of groups is the least G >= 1 with a < 10000^G, so at most
   * four for numbers in range.
   */
  lemma GroupCount(a: nat)
    requires a <= MaxNumber
    ensures 1 <= GlyphCount(|DigitList(a)|) <= 4
    ensures a < Pow(10000, GlyphCount(|DigitList(a)|))
    ensures GlyphCount(|DigitList(a)|) > 1 ==> Pow(10000, GlyphCount(|DigitList(a)|) - 1) <= a
  {
    var len := |DecimalString(a)|;
    var count := GlyphCount(len);
    DigitsFit(a);
    DecimalLength(a);
    PowTenThousand(count);
    PowMonotone(10, len, 4 * count);
    if count > 1 {
      PowTenThousand(count - 1);
      PowMonotone(10, 4 * (count - 1), len - 1);
    }
  }

  lemma GroupCountOne(a: nat)
    requires a <= 9999
    ensures GlyphCount(|DigitList(a)|) == 1
  {
    GroupCount(a);
  }

  lemma GroupCountTwo(a: nat)
    requires 10000 <= a <= 99999999
    ensures GlyphCount(|DigitList(a)|) == 2
  {
    GroupCount(a);
  }

  /** The image has one tile per group: the least G >= 1 with |n| < 10000^G. */
  lemma ImageTileCount(n: int, size: nat)
    requires Abs(n) <= MaxNumber
    ensures GenerateImage(n, size).Success?
    ensures 1 <= |GenerateImage(n, size).value.tiles| <= 4
    ensures Abs(n) < Pow(10000, |GenerateImage(n, size).value.tiles|)
    ensures |GenerateImage(n, size).value.tiles| > 1 ==>
              Pow(10000, |GenerateImage(n, size).value.tiles| - 1) <= Abs(n)
  {
    GroupCount(Abs(n));
    assert |GenerateImage(n, size).value.tiles| == GlyphCount(|DigitList(Abs(n))|);
  }

  /**
   * Tile i sits at x = size * (G - i - 1) and shows group i of |n| (counting
   * from the least significant), with the sign bar when n is negative.
   */
  lemma TileAt(n: int, size: nat, i: nat)
    requires Abs(n) <= MaxNumber && i < GlyphCount(|DigitList(Abs(n))|)
    ensures GenerateImage(n, size).Success?
    ensures GenerateImage(n, size).value.tiles[i] ==
      Tile(size * (GlyphCount(|DigitList(Abs(n))|) - i - 1), ChunkAt(Abs(n), i), n < 0)
  {
    var ds := DigitList(Abs(n));
    ParseDigitList(Abs(n));
    ChunkMatchesArithmetic(ds, i);
  }

  /** Every tile of the image draws its group of |n| and carries the sign of n. */
  lemma ImageTiles(n: int, size: nat)
    requires Abs(n) <= MaxNumber
    ensures GenerateImage(n, size).Success?
    ensures forall i :: 0 <= i < |GenerateImage(n, size).value.tiles| ==>
              GenerateImage(n, size).value.tiles[i].value == ChunkAt(Abs(n), i) &&
              GenerateImage(n, size).value.tiles[i].negative == (n < 0)
  {
    var tiles := GenerateImage(n, size).value.tiles;
    forall i | 0 <= i < |tiles|
      ensures tiles[i].value == ChunkAt(Abs(n), i) && tiles[i].negative == (n < 0)
    {
      TileAt(n, size, i);
    }
  }

  /**
   * Tiles lie side by side inside the canvas without overlapping, the first
   * value (least significant group) rightmost and the last one at x = 0.
   */
  lemma LayoutPlacement(values: seq<int>, negative: bool, size: nat)
    requires |values| >= 1
    ensures var c := Layout(values, negative, size);
      forall i :: 0 <= i < |c.tiles| ==> 0 <= c.tiles[i].x && c.tiles[i].x + size <= c.width
    ensures var c := Layout(values, negative, size);
      forall i, j :: 0 <= i < j < |c.tiles| ==> c.tiles[j].x + size <= c.tiles[i].x
    ensures var c := Layout(values, negative, size);
      c.tiles[0].x + size == c.width && c.tiles[|c.tiles| - 1].x == 0
  {
    var c := Layout(values, negative, size);
    var count := |values|;
    forall i | 0 <= i < count
      ensures 0 <= c.tiles[i].x && c.tiles[i].x + size <= c.width
    {
      assert c.tiles[i].x == size * (count - i - 1);
      MulLeft(size, 0, count - i - 1);
      MulStep(size, count - i - 1);
      MulLeft(size, count - i, count);
    }
    forall i, j | 0 <= i < j < count
      ensures c.tiles[j].x + size <= c.tiles[i].x
    {
      assert c.tiles[i].x == size * (count - i - 1);
      assert c.tiles[j].x == size * (count - j - 1);
      MulStep(size, count - j - 1);
      MulLeft(size, count - j, count - i - 1);
    }
    assert c.tiles[0].x == size * (count - 1);
    MulStep(size, count - 1);
  }

  /** A tile shows the sign bar exactly when it is marked negative. */
  lemma TileSign(t: Tile)
    requires 0 <= t.value <= 9999
    ensures SignBar in TileGlyph(t) <==> t.negative
  {
    NoSignBar(t.value);
    if t.negative {
      assert TileGlyph(t)[|DrawDigit(t.value)|] == SignBar;
    }
  }

  /**
   * The sign bar stamped on a tile does not disturb its quadrants: quadrant
   * q of any tile shows exactly the strokes of the q-th digit of its value.
   */
  lemma TileQuadrants(t: Tile, q: nat)
    requires 0 <= t.value <= 9999 && q < 4
    ensures QuadrantPart(TileGlyph(t), q) == QuadrantStrokes(q, DigitAt(t.value, q))
  {
    SignBarIgnored(DrawDigit(t.value), t.negative, q);
    QuadrantContent(t.value, q);
  }

  /** Every tile of the image shows the sign bar exactly when n is negative. */
  lemma SignCoverage(n: int, size: nat)
    requires Abs(n) <= MaxNumber
    ensures GenerateImage(n, size).Success?
    ensures forall i :: 0 <= i < |GenerateImage(n, size).value.tiles| ==>
              0 <= GenerateImage(n, size).value.tiles[i].value <= 9999 &&
              (SignBar in TileGlyph(GenerateImage(n, size).value.tiles[i]) <==> n < 0)
  {
    var tiles := GenerateImage(n, size).value.tiles;
    forall i | 0 <= i < |tiles|
      ensures 0 <= tiles[i].value <= 9999 && (SignBar in TileGlyph(tiles[i]) <==> n < 0)
    {
      TileAt(n, size, i);
      TileSign(tiles[i]);
    }
  }

  /** The values shown by a row of tiles, in paste order. */
  function TileValues(ts: seq<Tile>): (vs: seq<int>)
    ensures |vs| == |ts| && forall i :: 0 <= i < |ts| ==> vs[i] == ts[i].value
  {
    seq(|ts|, i requires 0 <= i < |ts| => ts[i].value)
  }

  /**
   * The values the tiles show, read as base-10000 digits with the first
   * tile least significant (it is pasted rightmost), recompose |n| exactly.
   */
  lemma ChunksRecompose(n: int, size: nat)
    requires Abs(n) <= MaxNumber
    ensures GenerateImage(n, size).Success?
    ensures Compose(TileValues(GenerateImage(n, size).value.tiles)) == Abs(n)
  {
    ImageTileCount(n, size);
    ImageTiles(n, size);
    var ts := GenerateImage(n, size).value.tiles;
    ComposeChunks(Abs(n), |ts|);
    assert TileValues(ts) == ChunksOf(Abs(n), |ts|);
  }

  /** The i-th base-10000 digit of m is (m / 10000^i) % 10000. */
  lemma {:induction false} ChunkAtPow(m: nat, i: nat)
    ensures ChunkAt(m, i) == (m / Pow(10000, i)) % 10000
  {
    if i > 0 {
      ChunkAtPow(m / 10000, i - 1);
      DivDiv(m, 10000, Pow(10000, i - 1));
    }
  }

  lemma DropSuffix<T>(a: seq<T>, b: seq<T>, s: seq<T>)
    requires a + s == b + s
    ensures a == b
  {
    assert a == (a + s)[..|a|];
    assert b == (b + s)[..|b|];
  }

  /** Two tiles that look the same hold the same value and sign. */
  lemma TileGlyphInjective(t1: Tile, t2: Tile)
    requires 0 <= t1.value <= 9999 && 0 <= t2.value <= 9999
    requires TileGlyph(t1) == TileGlyph(t2)
    ensures t1.value == t2.value && t1.negative == t2.negative
  {
    TileSign(t1);
    TileSign(t2);
    DropSuffix(DrawDigit(t1.value), DrawDigit(t2.value), SignStroke(t1.negative));
    DrawDigitInjective(t1.value, t2.value);
  }

  /**
   * The picture determines the number: when two numbers give images with
   * the same tiles showing the same glyphs, the numbers are equal.
   */
  lemma ImageInjective(n1: int, n2: int, size: nat)
    requires GenerateImage(n1, size).Success? && GenerateImage(n2, size).Success?
    requires |GenerateImage(n1, size).value.tiles| == |GenerateImage(n2, size).value.tiles|
    requires forall i :: 0 <= i < |GenerateImage(n1, size).value.tiles| ==>
      0 <= GenerateImage(n1, size).value.tiles[i].value <= 9999 &&
      0 <= GenerateImage(n2, size).value.tiles[i].value <= 9999 &&
      TileGlyph(GenerateImage(n1, size).value.tiles[i]) == TileGlyph(GenerateImage(n2, size).value.tiles[i])
    ensures n1 == n2
  {
    var t1 := GenerateImage(n1, size).value.tiles;
    var t2 := GenerateImage(n2, size).value.tiles;
    var count := |t1|;
    forall i | 0 <= i < count
      ensures ChunkAt(Abs(n1), i) == ChunkAt(Abs(n2), i) && (n1 < 0) == (n2 < 0)
    {
      TileAt(n1, size, i);
      TileAt(n2, size, i);
      TileGlyphInjective(t1[i], t2[i]);
    }
    TileAt(n1, size, 0);
    TileAt(n2, size, 0);
    ImageTileCount(n1, size);
    ImageTileCount(n2, size);
    SameChunksSameNumber(Abs(n1), Abs(n2), count);
  }

  /** Two numbers below 10000^k with the same k base-10000 digits are equal. */
  lemma SameChunksSameNumber(a: nat, b: nat, k: nat)
    requires a < Pow(10000, k) && b < Pow(10000, k)
    requires forall i :: 0 <= i < k ==> ChunkAt(a, i) == ChunkAt(b, i)
    ensures a == b
  {
    assert ChunksOf(a, k) == ChunksOf(b, k);
    ComposeChunks(a, k);
    ComposeChunks(b, k);
  }

  /** A number of at most four digits is one tile at x = 0. */
  lemma SingleGlyphImage(n: int, size: nat)
    requires Abs(n) <= 9999
    ensures GenerateImage(n, size) == Success(Canvas(size, size, [Tile(0, Abs(n), n < 0)]))
  {
    GroupCountOne(Abs(n));
    TileAt(n, size, 0);
    SmallDivMod(Abs(n), 10000);
    var c := GenerateImage(n, size).value;
    MulCongruent(size, GlyphCount(|DigitList(Abs(n))|) - 0 - 1, 0);
    assert c.tiles == [c.tiles[0]];
  }

  /** Zero is one tile showing the bare stem. */
  lemma ZeroImage(size: nat)
    ensures GenerateImage(0, size).Success?
    ensures GenerateImage(0, size).value.tiles == [Tile(0, 0, false)]
    ensures TileGlyph(Tile(0, 0, false)) == [Stem]
  {
    SingleGlyphImage(0, size);
    ZeroIsStemOnly();
  }

  /**
   * A number of five to eight digits, |n| = high * 10000 + low, is two
   * tiles: the low group at x = size and the high group at x = 0.
   */
  lemma TwoGlyphImage(n: int, size: nat, high: nat, low: nat)
    requires 1 <= high <= 9999 && low <= 9999 && Abs(n) == high * 10000 + low
    ensures GenerateImage(n, size) ==
      Success(Canvas(2 * size, size, [Tile(size, low, n < 0), Tile(0, high, n < 0)]))
  {
    DivModUnique(Abs(n), 10000, high, low);
    GroupCountTwo(Abs(n));
    TileAt(n, size, 0);
    TileAt(n, size, 1);
    SmallDivMod(high, 10000);
    assert ChunkAt(Abs(n), 1) == high;
    var c := GenerateImage(n, size).value;
    MulCongruent(size, GlyphCount(|DigitList(Abs(n))|) - 0 - 1, 1);
    MulCongruent(size, GlyphCount(|DigitList(Abs(n))|) - 1 - 1, 0);
    assert c.tiles == [c.tiles[0], c.tiles[1]];
  }

  /** MaxNumber itself is accepted and fills four tiles; one more is refused, in either sign. */
  lemma RangeBoundary(size: nat)
    ensures GenerateImage(MaxNumber, size).Success?
    ensures |GenerateImage(MaxNumber, size).value.tiles| == 4
    ensures GenerateImage(-MaxNumber, size).Success?
    ensures GenerateImage(MaxNumber + 1, size) == Failure(NumberOutOfRange(MaxNumber))
    ensures GenerateImage(-MaxNumber - 1, size) == Failure(NumberOutOfRange(MaxNumber))
  {
    ImageTileCount(MaxNumber, size);
    var count := |GenerateImage(MaxNumber, size).value.tiles|;
    if count < 4 {
      assert false;
    }
  }

}
