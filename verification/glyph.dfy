/**
 * The single-glyph renderer of the web service: a value 0..9999 becomes the
 * ordered list of strokes it draws — the stem, then for each quadrant
 * (ones, tens, hundreds, thousands) whose decimal digit is nonzero, the
 * strokes of that digit's polyline. Distinct values give distinct glyphs,
 * and each quadrant's strokes determine that quadrant's digit.
 */
module Glyph {
  import opened Arith
  import opened Decimal
  import opened Geometry
  import opened StrokeTable

  /**
   * The strokes quadrant q shows for digit d: nothing for 0, otherwise the
   * table polyline. They all lie in quadrant q and are never the stem or the
   * sign bar.
   */
  function QuadrantStrokes(q: nat, d: int): (segs: seq<Segment>)
    requires q < 4 && 0 <= d <= 9
    ensures segs == [] <==> d == 0
    ensures forall k :: 0 <= k < |segs| ==> QuadrantOf(segs[k]) == q && segs[k] != Stem && segs[k] != SignBar
  {
    if d == 0 then [] else StrokesInQuadrant(q, d); Polyline(Strokes(q, d))
  }

  /** Each stroke of a table polyline lies in its quadrant, off the stem and the sign bar. */
  lemma StrokesInQuadrant(q: nat, d: nat)
    requires q < 4 && 1 <= d <= 9
    ensures Polyline(Strokes(q, d)) != []
    ensures forall k :: 0 <= k < |Polyline(Strokes(q, d))| ==>
      var s := Polyline(Strokes(q, d))[k];
      QuadrantOf(s) == q && s != Stem && s != SignBar
  {
    var pts := Strokes(q, d);
    var segs := Polyline(pts);
    EntryInQuadrant(q, d);
    TableShape();
    forall k | 0 <= k < |segs|
      ensures QuadrantOf(segs[k]) == q && segs[k] != Stem && segs[k] != SignBar
    {
      assert segs[k] == Segment(pts[k], pts[k + 1]);
      assert InQuadrant(pts[k], q) && InQuadrant(pts[k + 1], q);
    }
  }

  /** A table with four rows of nine entries, as both copies in the source are. */
  predicate WellShaped(table: seq<seq<seq<Point>>>)
  {
    |table| == 4 && forall q :: 0 <= q < 4 ==> |table[q]| == 9
  }

  /**
   * The per-digit loop of the renderer, from quadrant i on: digit i is the
   * character at index 3 - i of the zero-padded text; a zero is skipped,
   * otherwise the polyline table[i][digit - 1] is emitted stroke by stroke.
   */
  function EmitDigits(table: seq<seq<seq<Point>>>, s: string, i: nat): seq<Segment>
    requires WellShaped(table) && |s| >= 4 && i <= 4
    requires forall k :: 0 <= k < |s| ==> IsDigitChar(s[k])
    decreases 4 - i
  {
    if i == 4 then []
    else
      var digit := CharValue(s[3 - i]);
      (if digit == 0 then [] else Polyline(table[i][digit - 1])) + EmitDigits(table, s, i + 1)
  }

  /**
   * draw_cistercian_digit for 0 <= num <= 9999: the stem, then the strokes of
   * each quadrant for the matching decimal digit of num, ones first. The stem
   * occurs once, at the front, and no stroke is the sign bar.
   */
  function DrawDigit(num: nat): (glyph: seq<Segment>)
    requires 0 <= num <= 9999
    ensures glyph == [Stem] + QuadrantStrokes(0, DigitAt(num, 0)) + QuadrantStrokes(1, DigitAt(num, 1))
                            + QuadrantStrokes(2, DigitAt(num, 2)) + QuadrantStrokes(3, DigitAt(num, 3))
    ensures glyph[0] == Stem
    ensures forall k :: 1 <= k < |glyph| ==> glyph[k] != Stem && glyph[k] != SignBar
  {
    var padded := ZFill(DecimalString(num), 4);
    MainTableStrokes(num, 0);
    PaddedText(num);
    EmitMatchesDigits(MainTable, num, padded, 0);
    ReferenceStrokesUnrolled(num);
    DigitStrokesClean(num, 0);
    [Stem] + QuadrantLoop(MainTable, num)
  }

  /** The quadrant loop over the four-character zero-padded text of n. */
  function QuadrantLoop(table: seq<seq<seq<Point>>>, n: nat): seq<Segment>
    requires WellShaped(table)
  {
    PaddedAllDigits(n);
    EmitDigits(table, ZFill(DecimalString(n), 4), 0)
  }

  /** The reference strokes of all four quadrants, written out, with the stem in front. */
  lemma ReferenceStrokesUnrolled(num: nat)
    ensures [Stem] + DigitStrokesFrom(num, 0)
         == [Stem] + QuadrantStrokes(0, DigitAt(num, 0)) + QuadrantStrokes(1, DigitAt(num, 1))
                   + QuadrantStrokes(2, DigitAt(num, 2)) + QuadrantStrokes(3, DigitAt(num, 3))
  {
    var a, b, c, d := QuadrantStrokes(0, DigitAt(num, 0)), QuadrantStrokes(1, DigitAt(num, 1)),
                      QuadrantStrokes(2, DigitAt(num, 2)), QuadrantStrokes(3, DigitAt(num, 3));
    assert DigitStrokesFrom(num, 3) == d;
    assert DigitStrokesFrom(num, 2) == c + d;
    assert DigitStrokesFrom(num, 1) == b + (c + d);
    assert DigitStrokesFrom(num, 0) == a + (b + (c + d));
    ConcatAssociates([Stem], a, b, c, d);
  }

  /** No quadrant stroke is the stem or the sign bar. */
  lemma {:induction false} DigitStrokesClean(num: nat, i: nat)
    requires i <= 4
    ensures forall k :: 0 <= k < |DigitStrokesFrom(num, i)| ==>
      DigitStrokesFrom(num, i)[k] != Stem && DigitStrokesFrom(num, i)[k] != SignBar
    decreases 4 - i
  {
    if i < 4 {
      DigitStrokesClean(num, i + 1);
      var head := QuadrantStrokes(i, DigitAt(num, i));
      var rest := DigitStrokesFrom(num, i + 1);
      assert DigitStrokesFrom(num, i) == head + rest;
      forall k | 0 <= k < |head + rest|
        ensures (head + rest)[k] != Stem && (head + rest)[k] != SignBar
      {
        if k >= |head| {
          assert (head + rest)[k] == rest[k - |head|];
        }
      }
    }
  }

  lemma ConcatAssociates<T>(s: seq<T>, a: seq<T>, b: seq<T>, c: seq<T>, d: seq<T>)
    ensures s + (a + (b + (c + d))) == s + a + b + c + d
  {
  }

  /** The reference strokes of quadrants i..3 of num, by arithmetic digits. */
  function DigitStrokesFrom(num: nat, i: nat): seq<Segment>
    requires i <= 4
    decreases 4 - i
  {
    if i == 4 then [] else QuadrantStrokes(i, DigitAt(num, i)) + DigitStrokesFrom(num, i + 1)
  }

  /** The same reference strokes, for an arbitrary well-shaped table. */
  function TableStrokesFrom(table: seq<seq<seq<Point>>>, num: nat, i: nat): seq<Segment>
    requires WellShaped(table) && i <= 4
    decreases 4 - i
  {
    if i == 4 then []
    else
      var d := DigitAt(num, i);
      (if d == 0 then [] else Polyline(table[i][d - 1])) + TableStrokesFrom(table, num, i + 1)
  }

  /** The text-based digit loop emits the strokes of the arithmetic digits. */
  lemma {:induction false} EmitMatchesDigits(table: seq<seq<seq<Point>>>, num: nat, s: string, i: nat)
    requires WellShaped(table) && |s| == 4 && i <= 4
    requires forall k :: 0 <= k < |s| ==> IsDigitChar(s[k])
    requires forall j :: 0 <= j < 4 ==> CharValue(s[3 - j]) == DigitAt(num, j)
    ensures EmitDigits(table, s, i) == TableStrokesFrom(table, num, i)
    decreases 4 - i
  {
    if i < 4 {
      assert CharValue(s[3 - i]) == DigitAt(num, i);
      EmitMatchesDigits(table, num, s, i + 1);
    }
  }

  /** The zero-padded text of num carries its four decimal digits. */
  lemma PaddedText(num: nat)
    requires 0 <= num <= 9999
    ensures |ZFill(DecimalString(num), 4)| == 4
    ensures forall k :: 0 <= k < 4 ==> IsDigitChar(ZFill(DecimalString(num), 4)[k])
    ensures forall j :: 0 <= j < 4 ==> CharValue(ZFill(DecimalString(num), 4)[3 - j]) == DigitAt(num, j)
  {
    AtMostFourDigits(num);
    forall j | 0 <= j < 4
      ensures IsDigitChar(ZFill(DecimalString(num), 4)[3 - j])
      ensures CharValue(ZFill(DecimalString(num), 4)[3 - j]) == DigitAt(num, j)
    {
      PaddedDigitAt(num, j);
    }
    var s := ZFill(DecimalString(num), 4);
    forall k | 0 <= k < 4
      ensures IsDigitChar(s[k])
    {
      assert s[k] == s[3 - (3 - k)];
    }
  }

  /** For the service's table the reference strokes are the quadrant strokes. */
  lemma {:induction false} MainTableStrokes(num: nat, i: nat)
    requires i <= 4
    ensures WellShaped(MainTable)
    ensures TableStrokesFrom(MainTable, num, i) == DigitStrokesFrom(num, i)
    decreases 4 - i
  {
    TableShape();
    if i < 4 {
      MainTableStrokes(num, i + 1);
    }
  }

  /** The strokes of a glyph that belong to quadrant q: neither the stem nor the sign bar. */
  predicate InPart(s: Segment, q: nat)
  {
    s != Stem && s != SignBar && QuadrantOf(s) == q
  }

  /** The strokes of g in quadrant q, in drawing order. */
  function QuadrantPart(g: seq<Segment>, q: nat): (part: seq<Segment>)
    ensures |part| <= |g|
    ensures forall k :: 0 <= k < |part| ==> InPart(part[k], q)
  {
    if g == [] then [] else (if InPart(g[0], q) then [g[0]] else []) + QuadrantPart(g[1..], q)
  }

  /** The quadrant part holds exactly the strokes of g that lie in quadrant q. */
  lemma {:induction false} QuadrantPartMembers(g: seq<Segment>, q: nat, s: Segment)
    ensures s in QuadrantPart(g, q) <==> s in g && InPart(s, q)
  {
    if g != [] {
      QuadrantPartMembers(g[1..], q, s);
      assert g == [g[0]] + g[1..];
    }
  }

  lemma {:induction false} QuadrantPartAppend(a: seq<Segment>, b: seq<Segment>, q: nat)
    ensures QuadrantPart(a + b, q) == QuadrantPart(a, q) + QuadrantPart(b, q)
  {
    if a != [] {
      assert (a + b)[1..] == a[1..] + b;
      QuadrantPartAppend(a[1..], b, q);
    } else {
      assert a + b == b;
    }
  }

  /** Strokes that all lie in quadrant q' are kept whole by q', dropped by any other q. */
  lemma {:induction false} QuadrantPartUniform(segs: seq<Segment>, q': nat, q: nat)
    requires forall k :: 0 <= k < |segs| ==> InPart(segs[k], q')
    ensures QuadrantPart(segs, q) == if q == q' then segs else []
  {
    if segs != [] {
      QuadrantPartUniform(segs[1..], q', q);
      if q == q' {
        assert segs == [segs[0]] + segs[1..];
      }
    }
  }

  /**
   * What a rendered glyph shows in quadrant q is exactly the table polyline
   * of the q-th decimal digit, and nothing when that digit is zero.
   */
  lemma QuadrantContent(num: nat, q: nat)
    requires num <= 9999 && q < 4
    ensures QuadrantPart(DrawDigit(num), q) == QuadrantStrokes(q, DigitAt(num, q))
    ensures QuadrantPart(DrawDigit(num), q) == [] <==> DigitAt(num, q) == 0
  {
    var a, b := QuadrantStrokes(0, DigitAt(num, 0)), QuadrantStrokes(1, DigitAt(num, 1));
    var c, d := QuadrantStrokes(2, DigitAt(num, 2)), QuadrantStrokes(3, DigitAt(num, 3));
    PartOfFourQuadrants(a, b, c, d, q);
    assert [a, b, c, d][q] == QuadrantStrokes(q, DigitAt(num, q));
  }

  /** Filtering the stem followed by four per-quadrant stroke lists picks out list q. */
  lemma PartOfFourQuadrants(a: seq<Segment>, b: seq<Segment>, c: seq<Segment>, d: seq<Segment>, q: nat)
    requires q < 4
    requires forall k :: 0 <= k < |a| ==> InPart(a[k], 0)
    requires forall k :: 0 <= k < |b| ==> InPart(b[k], 1)
    requires forall k :: 0 <= k < |c| ==> InPart(c[k], 2)
    requires forall k :: 0 <= k < |d| ==> InPart(d[k], 3)
    ensures QuadrantPart([Stem] + a + b + c + d, q) == [a, b, c, d][q]
  {
    PartOfConcatenation(a, b, c, d, q);
    var pa, pb, pc, pd := QuadrantPart(a, q), QuadrantPart(b, q), QuadrantPart(c, q), QuadrantPart(d, q);
    QuadrantPartUniform(a, 0, q);
    QuadrantPartUniform(b, 1, q);
    QuadrantPartUniform(c, 2, q);
    QuadrantPartUniform(d, 3, q);
    OnlyOneNonEmpty(pa, pb, pc, pd, [a, b, c, d], q);
  }

  /** Filtering distributes over the stem and the four lists. */
  lemma PartOfConcatenation(a: seq<Segment>, b: seq<Segment>, c: seq<Segment>, d: seq<Segment>, q: nat)
    ensures QuadrantPart([Stem] + a + b + c + d, q)
         == [] + QuadrantPart(a, q) + QuadrantPart(b, q) + QuadrantPart(c, q) + QuadrantPart(d, q)
  {
    var x1 := [Stem] + a;
    var x2 := x1 + b;
    var x3 := x2 + c;
    QuadrantPartAppend([Stem], a, q);
    QuadrantPartAppend(x1, b, q);
    QuadrantPartAppend(x2, c, q);
    QuadrantPartAppend(x3, d, q);
    assert QuadrantPart([Stem], q) == [];
  }

  lemma OnlyOneNonEmpty(pa: seq<Segment>, pb: seq<Segment>, pc: seq<Segment>, pd: seq<Segment>,
                        parts: seq<seq<Segment>>, q: nat)
    requires |parts| == 4 && q < 4
    requires pa == (if q == 0 then parts[0] else [])
    requires pb == (if q == 1 then parts[1] else [])
    requires pc == (if q == 2 then parts[2] else [])
    requires pd == (if q == 3 then parts[3] else [])
    ensures [] + pa + pb + pc + pd == parts[q]
  {
    if q == 0 {
      assert [] + pa + pb + pc + pd == pa;
    } else if q == 1 {
      assert [] + pa + pb + pc + pd == pb;
    } else if q == 2 {
      assert [] + pa + pb + pc + pd == pc;
    } else {
      assert [] + pa + pb + pc + pd == pd;
    }
  }

  /** A glyph of 0 is the bare stem. */
  lemma ZeroIsStemOnly()
    ensures DrawDigit(0) == [Stem]
  {
    var g := DrawDigit(0);
    assert DigitAt(0, 0) == 0 && DigitAt(0, 1) == 0 && DigitAt(0, 2) == 0 && DigitAt(0, 3) == 0;
  }

  /** Different digits of one quadrant draw different strokes. */
  lemma QuadrantStrokesInjective(q: nat, d1: int, d2: int)
    requires q < 4 && 0 <= d1 <= 9 && 0 <= d2 <= 9
    requires QuadrantStrokes(q, d1) == QuadrantStrokes(q, d2)
    ensures d1 == d2
  {
    if d1 != 0 && d2 != 0 {
      TableShape();
      PolylineInjective(Strokes(q, d1), Strokes(q, d2));
      RowDistinct(q, d1, d2);
    }
  }

  /** A value 0..9999 is the sum of its four decimal digits at their places. */
  lemma DigitsRecombine(num: nat)
    requires num <= 9999
    ensures num == DigitAt(num, 0) + 10 * DigitAt(num, 1) + 100 * DigitAt(num, 2) + 1000 * DigitAt(num, 3)
  {
    var t := num / 10;
    var h := t / 10;
    var k := h / 10;
    assert DigitAt(num, 1) == t % 10;
    assert DigitAt(num, 2) == h % 10;
    assert DigitAt(num, 3) == k % 10;
    assert k < 10;
  }

  /**
   * A glyph determines its value: two values whose glyphs show the same
   * strokes in every quadrant are equal, whatever else (a sign bar) the
   * glyphs carry.
   */
  lemma SameQuadrantsSameValue(a: nat, b: nat, ga: seq<Segment>, gb: seq<Segment>)
    requires a <= 9999 && b <= 9999
    requires forall q :: 0 <= q < 4 ==> QuadrantPart(ga, q) == QuadrantPart(DrawDigit(a), q)
    requires forall q :: 0 <= q < 4 ==> QuadrantPart(gb, q) == QuadrantPart(DrawDigit(b), q)
    requires forall q :: 0 <= q < 4 ==> QuadrantPart(ga, q) == QuadrantPart(gb, q)
    ensures a == b
  {
    forall q | 0 <= q < 4
      ensures DigitAt(a, q) == DigitAt(b, q)
    {
      QuadrantContent(a, q);
      QuadrantContent(b, q);
      QuadrantStrokesInjective(q, DigitAt(a, q), DigitAt(b, q));
    }
    DigitsRecombine(a);
    DigitsRecombine(b);
  }

  /** Different values draw different glyphs. */
  lemma DrawDigitInjective(a: nat, b: nat)
    requires a <= 9999 && b <= 9999
    requires DrawDigit(a) == DrawDigit(b)
    ensures a == b
  {
    SameQuadrantsSameValue(a, b, DrawDigit(a), DrawDigit(b));
  }

  /** An appended sign bar does not change what any quadrant shows. */
  lemma SignBarIgnored(g: seq<Segment>, signed: bool, q: nat)
    ensures QuadrantPart(g + (if signed then [SignBar] else []), q) == QuadrantPart(g, q)
  {
    var sign: seq<Segment> := if signed then [SignBar] else [];
    QuadrantPartAppend(g, sign, q);
    assert QuadrantPart(sign, q) == [];
  }

  /** A glyph alone never contains the sign bar. */
  lemma NoSignBar(num: nat)
    requires num <= 9999
    ensures SignBar !in DrawDigit(num)
  {
  }
}
