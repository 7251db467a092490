// What the two halves of a filled circle paint when they are stretched downwards, as the filled
// rounded rectangle asks for.
module GfxTallHalves {
  import opened CInt
  import opened Panel
  import opened Spans
  import opened GfxCircleShape
  import opened GfxCircleTimes
  import opened GfxCircles
  import opened GfxCirclePixels

  // ----- offsets

  /** How far a row is from the nearest centre, when the lower one is `delta` rows down. */
  function Squeeze(b: int, delta: int): int {
    Max(0, Max(-b, b - delta))
  }

  /** The halves asked for of the disc, pulled apart vertically by `delta` rows.  The circle of
      radius 1 reaches its own central column. */
  predicate InHalves(r: int, right: bool, left: bool, delta: int, p: Point) {
    && ((right && p.x >= 1) || (left && p.x <= -1) || (p.x == 0 && r == 1 && (right || left)))
    && InDisc(r, p.x, Squeeze(p.y, delta))
  }

  /** A column that starts `half` rows above the centre and ends half + delta rows below it. */
  predicate InTall(x: int, half: int, delta: int, p: Point) {
    p.x == x && -half <= p.y <= half + delta
  }

  lemma TallIsSqueezed(x: int, half: int, delta: int, p: Point)
    requires half >= 0
    ensures InTall(x, half, delta, p) <==> InColumn(x, half, Point(p.x, Squeeze(p.y, delta)))
  {
  }

  /** One of the octant's columns on the sides asked for covers p. */
  predicate InHalvesOf(o: Point, right: bool, left: bool, delta: int, p: Point) {
    || (right && (InTall(o.x, o.y, delta, p) || InTall(o.y, o.x, delta, p)))
    || (left && (InTall(-o.x, o.y, delta, p) || InTall(-o.y, o.x, delta, p)))
  }

  lemma Squeezed(o: Point, right: bool, left: bool, delta: int, p: Point)
    requires 0 < o.x && 0 <= o.y && InHalvesOf(o, right, left, delta, p)
    ensures InColumnsOf(o, Point(p.x, Squeeze(p.y, delta)))
  {
    TallIsSqueezed(o.x, o.y, delta, p);
    TallIsSqueezed(o.y, o.x, delta, p);
    TallIsSqueezed(-o.x, o.y, delta, p);
    TallIsSqueezed(-o.y, o.x, delta, p);
  }

  /** What an octant offset covers is in the halves. */
  lemma HalvesSound(r: int, o: Point, right: bool, left: bool, delta: int, p: Point)
    requires 0 <= r && o in Octant(r, 0, r) && InHalvesOf(o, right, left, delta, p)
    ensures InHalves(r, right, left, delta, p)
  {
    StartOnWalk(r);
    OctantSound(r, 0, r, o);
    DiscCoversOutline(r, o.x, o.y);
    Squeezed(o, right, left, delta, p);
    ColumnInDisc(r, o, Point(p.x, Squeeze(p.y, delta)));
    if p.x == 0 {
      OctantFlat(r, 0, r, o);
      OnlyRadiusOne(r);
    }
  }

  lemma OnlyRadiusOne(r: int)
    requires 0 <= r && Octant(r, 0, r) != [] && MidpointOutside(r, 1, 1)
    ensures r == 1
  {
    if r > 1 { SquareOrder(1, r); }
  }

  /** Every offset of the halves is covered. */
  lemma HalvesComplete(r: int, right: bool, left: bool, delta: int, p: Point) returns (o: Point)
    requires 0 <= r && InHalves(r, right, left, delta, p)
    ensures o in Octant(r, 0, r) && InHalvesOf(o, right, left, delta, p)
  {
    var b := Squeeze(p.y, delta);
    if p.x == 0 {
      assert Octant(r, 0, r)[0] == Point(1, 0);
      o := Point(1, 0);
      DiscCoversOutline(r, p.x, b);
    } else {
      DiscIsSymmetric(r, p.x, b);
      o := ReachesColumn(r, Abs(p.x), b);
      StartOnWalk(r);
      OctantSound(r, 0, r, o);
    }
    TallIsSqueezed(o.x, o.y, delta, p);
    TallIsSqueezed(o.y, o.x, delta, p);
    TallIsSqueezed(-o.x, o.y, delta, p);
    TallIsSqueezed(-o.y, o.x, delta, p);
  }

  // ----- pixels

  lemma TallTouches(x0: int16, y0: int16, a: int, half: int, delta: int, p: Point)
    requires -0x4000 < a < 0x4000 && 0 <= half < 0x4000 && -1 <= 2 * half + delta < 0x7FFF && Visible(p)
    ensures Touches(ColumnAt(x0, y0, a, half, delta), p) <==> InTall(a, half, delta, Offset(x0, y0, p))
    ensures ColumnAt(x0, y0, a, half, delta).h >= 0
  {
    WrapIsHarmless(x0, a, p.x);
  }

  /** The calls of an octant offset, on the sides asked for. */
  lemma HalvesOfHit(x0: int16, y0: int16, r: int, o: Point, cornername: bv8, delta: int, p: Point)
    requires 0 <= r < 0x4000 && -1 <= delta && 2 * r + delta < 0x7FFF && o in Octant(r, 0, r) && Visible(p)
    ensures AnyTouches(ColumnsOf(x0, y0, o, cornername, delta), p)
       <==> InHalvesOf(o, cornername & 1 != 0, cornername & 2 != 0, delta, Offset(x0, y0, p))
    ensures HeightsFit(ColumnsOf(x0, y0, o, cornername, delta))
  {
    var right, left := cornername & 1 != 0, cornername & 2 != 0;
    StartOnWalk(r);
    OctantSound(r, 0, r, o);
    DiscCoversOutline(r, o.x, o.y);
    HalfHit(right, x0, y0, o.x, o.y, o.x, o.y, delta, p);
    HalfHit(left, x0, y0, -o.x, -o.y, o.x, o.y, delta, p);
    InBoth(Half(right, x0, y0, o.x, o.y, o.x, o.y, delta), Half(left, x0, y0, -o.x, -o.y, o.x, o.y, delta), p);
  }

  lemma HalfHit(asked: bool, x0: int16, y0: int16, a: int, b: int, x: int, y: int, delta: int, p: Point)
    requires -0x4000 < a < 0x4000 && -0x4000 < b < 0x4000 && 0 <= x < 0x4000 && 0 <= y < 0x4000 && Visible(p)
    requires -1 <= 2 * x + delta < 0x7FFF && -1 <= 2 * y + delta < 0x7FFF
    ensures var cols, t := Half(asked, x0, y0, a, b, x, y, delta), Offset(x0, y0, p);
            && (AnyTouches(cols, p) <==> asked && (InTall(a, y, delta, t) || InTall(b, x, delta, t)))
            && HeightsFit(cols)
  {
    TallTouches(x0, y0, a, y, delta, p);
    TallTouches(x0, y0, b, x, delta, p);
    var cols := Half(asked, x0, y0, a, b, x, y, delta);
    if asked { assert cols[0] in cols && cols[1] in cols; }
  }

  predicate AnyTouches(cols: seq<Column>, p: Point) {
    exists col :: col in cols && Touches(col, p)
  }

  predicate HeightsFit(cols: seq<Column>) {
    forall col :: col in cols ==> col.h >= 0
  }

  lemma InBoth(a: seq<Column>, b: seq<Column>, p: Point)
    ensures AnyTouches(a + b, p) <==> AnyTouches(a, p) || AnyTouches(b, p)
    ensures HeightsFit(a) && HeightsFit(b) ==> HeightsFit(a + b)
  {
    forall col ensures col in a + b <==> col in a || col in b {
    }
  }

  predicate AnyCovers(os: seq<Point>, right: bool, left: bool, delta: int, p: Point) {
    exists o :: o in os && InHalvesOf(o, right, left, delta, p)
  }

  lemma CoversLast(init: seq<Point>, last: Point, right: bool, left: bool, delta: int, p: Point)
    ensures AnyCovers(init + [last], right, left, delta, p)
       <==> AnyCovers(init, right, left, delta, p) || InHalvesOf(last, right, left, delta, p)
  {
    assert last in init + [last];
    forall o ensures o in init + [last] <==> o in init || o == last {
    }
  }

  lemma {:induction false} AllHalvesHit(x0: int16, y0: int16, r: int, os: seq<Point>, cornername: bv8, delta: int,
                                        p: Point)
    requires 0 <= r < 0x4000 && -1 <= delta && 2 * r + delta < 0x7FFF && Visible(p)
    requires forall o :: o in os ==> o in Octant(r, 0, r)
    ensures var cols := AllColumns(x0, y0, os, cornername, delta);
            HeightsFit(cols)
            && (AnyTouches(cols, p)
                <==> AnyCovers(os, cornername & 1 != 0, cornername & 2 != 0, delta, Offset(x0, y0, p)))
  {
    if os != [] {
      var init, last := os[..|os| - 1], os[|os| - 1];
      assert os == init + [last] && last in os;
      AllHalvesHit(x0, y0, r, init, cornername, delta, p);
      HalvesOfHit(x0, y0, r, last, cornername, delta, p);
      InBoth(AllColumns(x0, y0, init, cornername, delta), ColumnsOf(x0, y0, last, cornername, delta), p);
      CoversLast(init, last, cornername & 1 != 0, cornername & 2 != 0, delta, Offset(x0, y0, p));
    }
  }

  lemma HalvesHit(x0: int16, y0: int16, r: int, cornername: bv8, delta: int, p: Point)
    requires 0 <= r < 0x4000 && -1 <= delta && 2 * r + delta < 0x7FFF && Visible(p)
    ensures var cols := AllColumns(x0, y0, Octant(r, 0, r), cornername, delta);
            HeightsFit(cols)
            && (AnyTouches(cols, p)
                <==> InHalves(r, cornername & 1 != 0, cornername & 2 != 0, delta, Offset(x0, y0, p)))
  {
    var right, left, t := cornername & 1 != 0, cornername & 2 != 0, Offset(x0, y0, p);
    AllHalvesHit(x0, y0, r, Octant(r, 0, r), cornername, delta, p);
    CoveredExactly(r, right, left, delta, t);
  }

  lemma CoveredExactly(r: int, right: bool, left: bool, delta: int, p: Point)
    requires 0 <= r
    ensures AnyCovers(Octant(r, 0, r), right, left, delta, p) <==> InHalves(r, right, left, delta, p)
  {
    if InHalves(r, right, left, delta, p) {
      var o := HalvesComplete(r, right, left, delta, p);
    }
    if o :| o in Octant(r, 0, r) && InHalvesOf(o, right, left, delta, p) {
      HalvesSound(r, o, right, left, delta, p);
    }
  }

  /** fillCircleHelper in BLACK or WHITE paints exactly the stretched halves asked for by bits 0
      (right) and 1 (left) of the corner mask, in every rotation. */
  lemma HalvesLit(buf: Frame, rot: Rotation, x0: int16, y0: int16, r: int, cornername: bv8, delta: int, c: uint16,
                  q: Point)
    requires 0 <= r < 0x4000 && -1 <= delta && 2 * r + delta < 0x7FFF && c < INVERSE && OnPanel(q)
    ensures var t := Offset(x0, y0, FromPanel(rot, q));
            Lit(FastColumns(buf, rot, AllColumns(x0, y0, Octant(r, 0, r), cornername, delta), c), q)
            == if InHalves(r, cornername & 1 != 0, cornername & 2 != 0, delta, t) then c == WHITE else Lit(buf, q)
  {
    HalvesHit(x0, y0, r, cornername, delta, FromPanel(rot, q));
    FastColumnsLit(buf, rot, AllColumns(x0, y0, Octant(r, 0, r), cornername, delta), c, q);
  }
}
