/**
 * The stroke table: for each quadrant (0 ones, 1 tens, 2 hundreds,
 * 3 thousands) and each digit 1..9 (at index digit - 1), the polyline drawn
 * for that digit, in the 100 x 100 glyph space. The renderer of the web
 * service and the batch generator each carry their own copy of the table;
 * both are transcribed here as written, and the lemmas below establish that
 * they agree and that the four quadrants are mirror images of the ones.
 */
module StrokeTable {
  import opened Geometry

  /** The table of the web service's renderer. */
  const MainTable: seq<seq<seq<Point>>> := [
    // Ones
    [
      [Point(50, 10), Point(70, 10)],
      [Point(50, 30), Point(70, 30)],
      [Point(50, 10), Point(70, 30)],
      [Point(50, 30), Point(70, 10)],
      [Point(50, 10), Point(70, 10), Point(50, 30)],
      [Point(70, 10), Point(70, 30)],
      [Point(50, 10), Point(70, 10), Point(70, 30)],
      [Point(50, 30), Point(70, 30), Point(70, 10)],
      [Point(50, 10), Point(70, 10), Point(70, 30), Point(50, 30)]
    ],
    // Tens
    [
      [Point(50, 10), Point(30, 10)],
      [Point(50, 30), Point(30, 30)],
      [Point(50, 10), Point(30, 30)],
      [Point(50, 30), Point(30, 10)],
      [Point(50, 10), Point(30, 10), Point(50, 30)],
      [Point(30, 10), Point(30, 30)],
      [Point(50, 10), Point(30, 10), Point(30, 30)],
      [Point(50, 30), Point(30, 30), Point(30, 10)],
      [Point(50, 10), Point(30, 10), Point(30, 30), Point(50, 30)]
    ],
    // Hundreds
    [
      [Point(50, 90), Point(70, 90)],
      [Point(50, 70), Point(70, 70)],
      [Point(50, 90), Point(70, 70)],
      [Point(50, 70), Point(70, 90)],
      [Point(50, 90), Point(70, 90), Point(50, 70)],
      [Point(70, 90), Point(70, 70)],
      [Point(50, 90), Point(70, 90), Point(70, 70)],
      [Point(50, 70), Point(70, 70), Point(70, 90)],
      [Point(50, 90), Point(70, 90), Point(70, 70), Point(50, 70)]
    ],
    // Thousands
    [
      [Point(50, 90), Point(30, 90)],
      [Point(50, 70), Point(30, 70)],
      [Point(50, 90), Point(30, 70)],
      [Point(50, 70), Point(30, 90)],
      [Point(50, 90), Point(30, 90), Point(50, 70)],
      [Point(30, 90), Point(30, 70)],
      [Point(50, 90), Point(30, 90), Point(30, 70)],
      [Point(50, 70), Point(30, 70), Point(30, 90)],
      [Point(50, 90), Point(30, 90), Point(30, 70), Point(50, 70)]
    ]
  ]

  /** The table of the batch generator. */
  const GeneratorTable: seq<seq<seq<Point>>> := [
    // Ones
    [
      [Point(50, 10), Point(70, 10)],
      [Point(50, 30), Point(70, 30)],
      [Point(50, 10), Point(70, 30)],
      [Point(50, 30), Point(70, 10)],
      [Point(50, 10), Point(70, 10), Point(50, 30)],
      [Point(70, 10), Point(70, 30)],
      [Point(50, 10), Point(70, 10), Point(70, 30)],
      [Point(50, 30), Point(70, 30), Point(70, 10)],
      [Point(50, 10), Point(70, 10), Point(70, 30), Point(50, 30)]
    ],
    // Tens
    [
      [Point(50, 10), Point(30, 10)],
      [Point(50, 30), Point(30, 30)],
      [Point(50, 10), Point(30, 30)],
      [Point(50, 30), Point(30, 10)],
      [Point(50, 10), Point(30, 10), Point(50, 30)],
      [Point(30, 10), Point(30, 30)],
      [Point(50, 10), Point(30, 10), Point(30, 30)],
      [Point(50, 30), Point(30, 30), Point(30, 10)],
      [Point(50, 10), Point(30, 10), Point(30, 30), Point(50, 30)]
    ],
    // Hundreds
    [
      [Point(50, 90), Point(70, 90)],
      [Point(50, 70), Point(70, 70)],
      [Point(50, 90), Point(70, 70)],
      [Point(50, 70), Point(70, 90)],
      [Point(50, 90), Point(70, 90), Point(50, 70)],
      [Point(70, 90), Point(70, 70)],
      [Point(50, 90), Point(70, 90), Point(70, 70)],
      [Point(50, 70), Point(70, 70), Point(70, 90)],
      [Point(50, 90), Point(70, 90), Point(70, 70), Point(50, 70)]
    ],
    // Thousands
    [
      [Point(50, 90), Point(30, 90)],
      [Point(50, 70), Point(30, 70)],
      [Point(50, 90), Point(30, 70)],
      [Point(50, 70), Point(30, 90)],
      [Point(50, 90), Point(30, 90), Point(50, 70)],
      [Point(30, 90), Point(30, 70)],
      [Point(50, 90), Point(30, 90), Point(30, 70)],
      [Point(50, 70), Point(30, 70), Point(30, 90)],
      [Point(50, 90), Point(30, 90), Point(30, 70), Point(50, 70)]
    ]
  ]

  /** The points the table may use: x in {30, 50, 70}, y in {10, 30, 70, 90}. */
  predicate OnGrid(p: Point)
  {
    (p.x == 30 || p.x == 50 || p.x == 70) && (p.y == 10 || p.y == 30 || p.y == 70 || p.y == 90)
  }

  /** The points of quadrant q: on the stem or on q's side of it, and in q's half. */
  predicate InQuadrant(p: Point, q: nat)
  {
    && (if q % 2 == 0 then p.x == 50 || p.x == 70 else p.x == 30 || p.x == 50)
    && (if q < 2 then p.y == 10 || p.y == 30 else p.y == 70 || p.y == 90)
  }

  /** The polyline of digit d (1..9) in quadrant q (0..3). */
  function Strokes(q: nat, d: nat): seq<Point>
    requires q < 4 && 1 <= d <= 9
  {
    TableShape();
    MainTable[q][d - 1]
  }

  /**
   * The shape of the table: four quadrants of nine entries, each entry a
   * polyline of 2 to 4 grid points, hence 1 to 3 strokes.
   */
  lemma TableShape()
    ensures |MainTable| == 4
    ensures forall q :: 0 <= q < 4 ==> |MainTable[q]| == 9
    ensures forall q, k :: 0 <= q < 4 && 0 <= k < 9 ==> 2 <= |MainTable[q][k]| <= 4
    ensures forall q, k, j :: 0 <= q < 4 && 0 <= k < 9 && 0 <= j < |MainTable[q][k]| ==> OnGrid(MainTable[q][k][j])
  {
  }

  /**
   * The tens strokes are the ones strokes mirrored across the stem, the
   * hundreds strokes the ones strokes mirrored across the middle line, and the
   * thousands strokes the ones strokes mirrored across both, for every digit.
   */
  lemma TableSymmetry(d: nat)
    requires 1 <= d <= 9
    ensures Strokes(1, d) == MirrorAll(Strokes(0, d), AcrossStem)
    ensures Strokes(2, d) == MirrorAll(Strokes(0, d), AcrossMiddle)
    ensures Strokes(3, d) == MirrorAll(MirrorAll(Strokes(0, d), AcrossStem), AcrossMiddle)
  {
    var ones := Strokes(0, d);
    var flipped := MirrorAll(ones, AcrossStem);
    assert 2 <= |ones| <= 4;
    MirrorElementwise(ones, Strokes(1, d), AcrossStem);
    MirrorElementwise(ones, Strokes(2, d), AcrossMiddle);
    MirrorElementwise(flipped, Strokes(3, d), AcrossMiddle);
  }

  /** A sequence that mirrors another point by point is its mirror image. */
  lemma MirrorElementwise(ps: seq<Point>, qs: seq<Point>, axis: Axis)
    requires |qs| == |ps|
    requires forall k :: 0 <= k < |ps| ==> qs[k] == Mirror(ps[k], axis)
    ensures qs == MirrorAll(ps, axis)
  {
  }

  /** The generator's copy of the table is the service's table, entry by entry. */
  lemma GeneratorTableIdentical()
    ensures GeneratorTable == MainTable
  {
  }

  /**
   * Every point of a quadrant's entry lies in that quadrant, and no two
   * consecutive points both lie on the stem line x = 50, so no stroke runs
   * along the stem.
   */
  lemma EntryInQuadrant(q: nat, d: nat)
    requires q < 4 && 1 <= d <= 9
    ensures forall j :: 0 <= j < |Strokes(q, d)| ==> InQuadrant(Strokes(q, d)[j], q)
    ensures forall j :: 0 <= j < |Strokes(q, d)| - 1 ==> Strokes(q, d)[j].x != 50 || Strokes(q, d)[j + 1].x != 50
  {
  }

  /** Within one quadrant, different digits have different polylines. */
  lemma RowDistinct(q: nat, d1: nat, d2: nat)
    requires q < 4 && 1 <= d1 <= 9 && 1 <= d2 <= 9
    requires Strokes(q, d1) == Strokes(q, d2)
    ensures d1 == d2
  {
  }
}
