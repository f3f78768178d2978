/**
 * Glyph geometry in the renderer's abstract 100 x 100 coordinate space
 * (x to the right, y downwards). Every draw.line call of the renderer is one
 * Segment here; the scaling to pixels is not part of this model.
 */
module Geometry {

  datatype Point = Point(x: int, y: int)

  /** One straight stroke between two points. */
  datatype Segment = Segment(start: Point, stop: Point)

  /** The central vertical stem every glyph carries. */
  const Stem: Segment := Segment(Point(50, 10), Point(50, 90))

  /** The horizontal centre bar that marks a negative number. */
  const SignBar: Segment := Segment(Point(30, 50), Point(70, 50))

  /**
   * The strokes emitted for a polyline: one segment per pair of consecutive
   * points, in order, so k points give k - 1 segments.
   */
  function Polyline(pts: seq<Point>): (segs: seq<Segment>)
    ensures |pts| >= 1 ==> |segs| == |pts| - 1
    ensures |pts| == 0 ==> segs == []
    ensures forall j :: 0 <= j < |segs| ==> segs[j] == Segment(pts[j], pts[j + 1])
  {
    if |pts| < 2 then [] else [Segment(pts[0], pts[1])] + Polyline(pts[1..])
  }

  /** A polyline of at least two points can be read back from its strokes. */
  lemma PolylineInjective(ps: seq<Point>, qs: seq<Point>)
    requires |ps| >= 2 && |qs| >= 2
    requires Polyline(ps) == Polyline(qs)
    ensures ps == qs
  {
    var segs := Polyline(ps);
    assert |ps| == |qs|;
    forall k | 0 <= k < |ps|
      ensures ps[k] == qs[k]
    {
      if k == 0 {
        assert segs[0].start == ps[0] && segs[0].start == qs[0];
      } else {
        assert segs[k - 1].stop == ps[k] && segs[k - 1].stop == qs[k];
      }
    }
  }

  /** The two mirror lines of a glyph: the stem (x = 50) and the mid-line (y = 50). */
  datatype Axis = AcrossStem | AcrossMiddle

  function Mirror(p: Point, axis: Axis): (m: Point)
    ensures axis == AcrossStem ==> m.y == p.y && m.x + p.x == 100
    ensures axis == AcrossMiddle ==> m.x == p.x && m.y + p.y == 100
  {
    match axis
    case AcrossStem => Point(100 - p.x, p.y)
    case AcrossMiddle => Point(p.x, 100 - p.y)
  }

  function MirrorAll(ps: seq<Point>, axis: Axis): (ms: seq<Point>)
    ensures |ms| == |ps|
    ensures forall k :: 0 <= k < |ps| ==> ms[k] == Mirror(ps[k], axis)
  {
    if |ps| == 0 then [] else [Mirror(ps[0], axis)] + MirrorAll(ps[1..], axis)
  }

  /**
   * The quadrant a stroke lies in, by where its midpoint falls: 0 (ones) right
   * of the stem and above the middle, 1 (tens) left and above, 2 (hundreds)
   * right and below, 3 (thousands) left and below.
   */
  function QuadrantOf(s: Segment): (q: nat)
    ensures q < 4
    ensures q % 2 == 0 <==> s.start.x + s.stop.x > 100
    ensures q < 2 <==> s.start.y + s.stop.y < 100
  {
    (if s.start.x + s.stop.x > 100 then 0 else 1) + (if s.start.y + s.stop.y < 100 then 0 else 2)
  }
}
