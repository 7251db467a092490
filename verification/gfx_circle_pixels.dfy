// Which screen pixels the circle routines paint, for every centre and rotation.
module GfxCirclePixels {
  import opened CInt
  import opened Panel
  import opened Spans
  import opened GfxCircleShape
  import opened GfxCircleTimes
  import opened GfxDiscTimes
  import opened GfxCircles

  /** No 16-bit conversion can bring a pixel that is off the screen back onto it. */
  lemma WrapIsHarmless(x0: int16, a: int, k: int)
    requires -0x4000 <= a <= 0x4000 && 0 <= k < WIDTH
    ensures Wrap16(x0 + a) == k <==> x0 + a == k
  {
  }

  function Offset(x0: int16, y0: int16, p: Point): Point {
    Point(p.x - x0, p.y - y0)
  }

  predicate Visible(p: Point) {
    0 <= p.x < WIDTH && 0 <= p.y < WIDTH
  }

  lemma {:induction false} AllAtHits(x0: int16, y0: int16, os: seq<Point>, p: Point)
    requires Visible(p) && Small(os)
    ensures Hits(AllAt(x0, y0, os), p) == Hits(os, Offset(x0, y0, p))
  {
    if os != [] {
      var init, last := os[..|os| - 1], os[|os| - 1];
      assert os == init + [last];
      AllAtHits(x0, y0, init, p);
      AllAtConcat(x0, y0, init, [last]);
      assert AllAt(x0, y0, [last]) == [At(x0, y0, last)];
      HitsSnoc(AllAt(x0, y0, init), At(x0, y0, last), p);
      WrapIsHarmless(x0, last.x, p.x);
      WrapIsHarmless(y0, last.y, p.y);
    }
  }

  predicate Small(os: seq<Point>) {
    forall i :: 0 <= i < |os| ==> Abs(os[i].x) <= 0x4000 && Abs(os[i].y) <= 0x4000
  }

  lemma OffsetsAreSmall(r: int)
    requires 0 <= r <= 0x4000
    ensures Small(OutlineOffsets(r))
  {
    var os := OutlineOffsets(r);
    forall i | 0 <= i < |os| ensures Abs(os[i].x) <= 0x4000 && Abs(os[i].y) <= 0x4000 {
      OutlineIsExact(r, os[i]);
      DiscCoversOutline(r, os[i].x, os[i].y);
    }
  }

  lemma OutlineHits(x0: int16, y0: int16, r: int, p: Point)
    requires 0 <= r <= 0x4000 && Visible(p)
    ensures Hits(CirclePoints(x0, y0, r), p) == Hits(OutlineOffsets(r), Offset(x0, y0, p))
  {
    OffsetsAreSmall(r);
    AllAtHits(x0, y0, OutlineOffsets(r), p);
  }

  /** drawCircle paints exactly the pixels within half a pixel of the circle, in every rotation:
      `Times` is positive there.  With INVERSE those plotted an even number of times stay. */
  lemma CircleLit(buf: Frame, rot: Rotation, x0: int16, y0: int16, r: int, c: uint16, q: Point)
    requires 0 <= r <= 0x4000 && OnPanel(q)
    ensures Lit(PlotAll(buf, rot, CirclePoints(x0, y0, r), c), q)
         == var t := Offset(x0, y0, FromPanel(rot, q));
            Paint(c, Lit(buf, q), Times(r, t.x, t.y))
  {
    var t := Offset(x0, y0, FromPanel(rot, q));
    PlotAllLit(buf, rot, CirclePoints(x0, y0, r), c, q);
    OutlineHits(x0, y0, r, FromPanel(rot, q));
    OutlineTimes(r, t);
  }

  // ----- the filled circle

  predicate Touches(col: Column, p: Point) {
    p.x == col.x && col.y <= p.y < col.y + col.h
  }

  lemma {:induction false} FastColumnsLit(buf: Frame, rot: Rotation, cols: seq<Column>, c: uint16, q: Point)
    requires c < INVERSE && OnPanel(q)
    requires forall col :: col in cols ==> col.h >= 0
    ensures Lit(FastColumns(buf, rot, cols, c), q)
         == if exists col :: col in cols && Touches(col, FromPanel(rot, q)) then c == WHITE else Lit(buf, q)
  {
    if cols != [] {
      var init, last, p := cols[..|cols| - 1], cols[|cols| - 1], FromPanel(rot, q);
      assert cols == init + [last];
      FastColumnsLit(buf, rot, init, c, q);
      var before := FastColumns(buf, rot, init, c);
      FastVExact(rot, last.x, last.y, last.h, c);
      PlotAllLit(before, rot, VRun(last.x, last.y, last.h), c, q);
      VRunCount(last.x, last.y, last.h, p);
      assert last in cols;
      assert forall col :: col in cols <==> col in init || col == last;
    }
  }

  lemma ColumnTouches(x0: int16, y0: int16, a: int, half: int, p: Point)
    requires -0x4000 < a < 0x4000 && 0 <= half < 0x4000 && Visible(p)
    ensures Touches(ColumnAt(x0, y0, a, half, 0), p) <==> InColumn(a, half, Offset(x0, y0, p))
    ensures ColumnAt(x0, y0, a, half, 0).h >= 0
  {
    WrapIsHarmless(x0, a, p.x);
  }

  lemma {:induction false} InAllColumns(x0: int16, y0: int16, os: seq<Point>, col: Column)
    ensures col in AllColumns(x0, y0, os, 3, 0) <==> exists o :: o in os && col in ColumnsOf(x0, y0, o, 3, 0)
  {
    if os != [] {
      var init, last := os[..|os| - 1], os[|os| - 1];
      assert os == init + [last];
      InAllColumns(x0, y0, init, col);
    }
  }

  lemma ColumnsOfHit(x0: int16, y0: int16, r: int, o: Point, p: Point)
    requires 0 <= r < 0x4000 && o in Octant(r, 0, r) && Visible(p)
    ensures (exists col :: col in ColumnsOf(x0, y0, o, 3, 0) && Touches(col, p)) <==> InColumnsOf(o, Offset(x0, y0, p))
    ensures forall col :: col in ColumnsOf(x0, y0, o, 3, 0) ==> col.h >= 0
  {
    StartOnWalk(r);
    OctantSound(r, 0, r, o);
    DiscCoversOutline(r, o.x, o.y);
    ColumnTouches(x0, y0, o.x, o.y, p);
    ColumnTouches(x0, y0, o.y, o.x, p);
    ColumnTouches(x0, y0, -o.x, o.y, p);
    ColumnTouches(x0, y0, -o.y, o.x, p);
    assert ColumnsOf(x0, y0, o, 3, 0)
        == [ColumnAt(x0, y0, o.x, o.y, 0), ColumnAt(x0, y0, o.y, o.x, 0),
            ColumnAt(x0, y0, -o.x, o.y, 0), ColumnAt(x0, y0, -o.y, o.x, 0)];
    var cols := ColumnsOf(x0, y0, o, 3, 0);
    assert cols[0] in cols && cols[1] in cols && cols[2] in cols && cols[3] in cols;
  }

  lemma InDiscColumns(x0: int16, y0: int16, r: int, col: Column)
    ensures col in DiscColumns(x0, y0, r) <==>
              col == ColumnAt(x0, y0, 0, r, 0) || exists o :: o in Octant(r, 0, r) && col in ColumnsOf(x0, y0, o, 3, 0)
  {
    InAllColumns(x0, y0, Octant(r, 0, r), col);
  }

  /** A touching column of the disc, for an offset that is painted. */
  lemma PaintedIsTouched(x0: int16, y0: int16, r: int, p: Point) returns (col: Column)
    requires 0 <= r < 0x4000 && Visible(p) && Painted(r, Offset(x0, y0, p))
    ensures col in DiscColumns(x0, y0, r) && Touches(col, p)
  {
    if InColumn(0, r, Offset(x0, y0, p)) {
      col := ColumnAt(x0, y0, 0, r, 0);
      ColumnTouches(x0, y0, 0, r, p);
    } else {
      var o :| o in Octant(r, 0, r) && InColumnsOf(o, Offset(x0, y0, p));
      ColumnsOfHit(x0, y0, r, o, p);
      col :| col in ColumnsOf(x0, y0, o, 3, 0) && Touches(col, p);
      InDiscColumns(x0, y0, r, col);
    }
  }

  lemma TouchedIsPainted(x0: int16, y0: int16, r: int, p: Point, col: Column)
    requires 0 <= r < 0x4000 && Visible(p) && col in DiscColumns(x0, y0, r)
    ensures col.h >= 0 && (Touches(col, p) ==> Painted(r, Offset(x0, y0, p)))
  {
    InDiscColumns(x0, y0, r, col);
    if col == ColumnAt(x0, y0, 0, r, 0) {
      ColumnTouches(x0, y0, 0, r, p);
    } else {
      var o :| o in Octant(r, 0, r) && col in ColumnsOf(x0, y0, o, 3, 0);
      ColumnsOfHit(x0, y0, r, o, p);
    }
  }

  lemma DiscHits(x0: int16, y0: int16, r: int, p: Point)
    requires 0 <= r < 0x4000 && Visible(p)
    ensures (exists col :: col in DiscColumns(x0, y0, r) && Touches(col, p)) <==> Painted(r, Offset(x0, y0, p))
    ensures forall col :: col in DiscColumns(x0, y0, r) ==> col.h >= 0
  {
    forall col | col in DiscColumns(x0, y0, r)
      ensures col.h >= 0 && (Touches(col, p) ==> Painted(r, Offset(x0, y0, p)))
    {
      TouchedIsPainted(x0, y0, r, p, col);
    }
    if Painted(r, Offset(x0, y0, p)) { var col := PaintedIsTouched(x0, y0, r, p); }
  }

  /** fillCircle in BLACK or WHITE paints exactly the disc: a solid, symmetric shape that
      contains the outline. */
  lemma DiscLit(buf: Frame, rot: Rotation, x0: int16, y0: int16, r: int, c: uint16, q: Point)
    requires 0 <= r < 0x4000 && c < INVERSE && OnPanel(q)
    ensures Lit(FastColumns(buf, rot, DiscColumns(x0, y0, r), c), q)
         == var t := Offset(x0, y0, FromPanel(rot, q));
            if InDisc(r, t.x, t.y) then c == WHITE else Lit(buf, q)
  {
    var p := FromPanel(rot, q);
    DiscHits(x0, y0, r, p);
    DiscIsExact(r, Offset(x0, y0, p));
    FastColumnsLit(buf, rot, DiscColumns(x0, y0, r), c, q);
  }

  // ----- how often the columns cover a pixel

  function TouchCount(cols: seq<Column>, p: Point): nat {
    if cols == [] then 0 else TouchCount(cols[..|cols| - 1], p) + Once(Touches(cols[|cols| - 1], p))
  }

  lemma TouchSnoc(cols: seq<Column>, col: Column, p: Point)
    ensures TouchCount(cols + [col], p) == TouchCount(cols, p) + Once(Touches(col, p))
  {
    assert (cols + [col])[..|cols|] == cols;
  }

  lemma {:induction false} TouchConcat(a: seq<Column>, b: seq<Column>, p: Point)
    ensures TouchCount(a + b, p) == TouchCount(a, p) + TouchCount(b, p)
    decreases |b|
  {
    if b == [] {
      assert a + b == a;
    } else {
      var init := b[..|b| - 1];
      TouchConcat(a, init, p);
      assert (a + b)[..|a + b| - 1] == a + init;
    }
  }

  lemma TouchFour(a: Column, b: Column, c: Column, d: Column, p: Point)
    ensures TouchCount([a, b, c, d], p)
         == Once(Touches(a, p)) + Once(Touches(b, p)) + Once(Touches(c, p)) + Once(Touches(d, p))
  {
    assert [a, b, c, d] == [] + [a] + [b] + [c] + [d];
    TouchSnoc([], a, p);
    TouchSnoc([] + [a], b, p);
    TouchSnoc([] + [a] + [b], c, p);
    TouchSnoc([] + [a] + [b] + [c], d, p);
  }

  /** A run of columns changes a pixel as often as it covers it. */
  lemma {:induction false} FastColumnsTimes(buf: Frame, rot: Rotation, cols: seq<Column>, c: uint16, q: Point)
    requires c <= INVERSE && OnPanel(q)
    requires forall col :: col in cols ==> col.h >= 0
    ensures Lit(FastColumns(buf, rot, cols, c), q)
         == Paint(c, Lit(buf, q), TouchCount(cols, FromPanel(rot, q)))
  {
    if cols != [] {
      var init, last := cols[..|cols| - 1], cols[|cols| - 1];
      assert cols == init + [last];
      FastColumnsTimes(buf, rot, init, c, q);
      assert last in cols;
      OneColumnLit(FastColumns(buf, rot, init, c), rot, last, c, q);
      var p := FromPanel(rot, q);
      PaintAgain(c, Lit(buf, q), TouchCount(init, p), Once(Touches(last, p)));
    }
  }

  lemma OneColumnLit(buf: Frame, rot: Rotation, col: Column, c: uint16, q: Point)
    requires c <= INVERSE && OnPanel(q) && col.h >= 0
    ensures Lit(FastV(buf, rot, col.x, col.y, col.h, c), q)
         == Paint(c, Lit(buf, q), Once(Touches(col, FromPanel(rot, q))))
  {
    FastVExact(rot, col.x, col.y, col.h, c);
    PlotAllLit(buf, rot, VRun(col.x, col.y, col.h), c, q);
    VRunCount(col.x, col.y, col.h, FromPanel(rot, q));
  }

  lemma ColumnsOfTimes(x0: int16, y0: int16, r: int, o: Point, p: Point)
    requires 0 <= r < 0x4000 && o in Octant(r, 0, r) && Visible(p)
    ensures TouchCount(ColumnsOf(x0, y0, o, 3, 0), p) == ColumnTimes(o, Offset(x0, y0, p))
  {
    StartOnWalk(r);
    OctantSound(r, 0, r, o);
    DiscCoversOutline(r, o.x, o.y);
    ColumnTouches(x0, y0, o.x, o.y, p);
    ColumnTouches(x0, y0, o.y, o.x, p);
    ColumnTouches(x0, y0, -o.x, o.y, p);
    ColumnTouches(x0, y0, -o.y, o.x, p);
    var a, b := ColumnAt(x0, y0, o.x, o.y, 0), ColumnAt(x0, y0, o.y, o.x, 0);
    var c, d := ColumnAt(x0, y0, -o.x, o.y, 0), ColumnAt(x0, y0, -o.y, o.x, 0);
    assert ColumnsOf(x0, y0, o, 3, 0) == [a, b, c, d];
    TouchFour(a, b, c, d, p);
  }

  lemma {:induction false} AllColumnsTimes(x0: int16, y0: int16, r: int, os: seq<Point>, p: Point)
    requires 0 <= r < 0x4000 && Visible(p) && forall o :: o in os ==> o in Octant(r, 0, r)
    ensures TouchCount(AllColumns(x0, y0, os, 3, 0), p) == OctantTimes(os, Offset(x0, y0, p))
  {
    if os != [] {
      var init, last := os[..|os| - 1], os[|os| - 1];
      assert os == init + [last];
      AllColumnsTimes(x0, y0, r, init, p);
      assert last in os;
      ColumnsOfTimes(x0, y0, r, last, p);
      TouchConcat(AllColumns(x0, y0, init, 3, 0), ColumnsOf(x0, y0, last, 3, 0), p);
    }
  }

  lemma DiscColumnsTimes(x0: int16, y0: int16, r: int, p: Point)
    requires 0 <= r < 0x4000 && Visible(p)
    ensures var t := Offset(x0, y0, p);
            TouchCount(DiscColumns(x0, y0, r), p) == DiscTimes(r, t.x, t.y)
  {
    DiscCovers(r, Offset(x0, y0, p));
    var centre := ColumnAt(x0, y0, 0, r, 0);
    ColumnTouches(x0, y0, 0, r, p);
    AllColumnsTimes(x0, y0, r, Octant(r, 0, r), p);
    TouchConcat([centre], AllColumns(x0, y0, Octant(r, 0, r), 3, 0), p);
    assert [centre][..0] == [];
  }

  /** fillCircle in each of the three colours: DiscTimes is positive exactly on the disc, and
      with INVERSE the pixels covered an even number of times stay as they were. */
  lemma DiscLitTimes(buf: Frame, rot: Rotation, x0: int16, y0: int16, r: int, c: uint16, q: Point)
    requires 0 <= r < 0x4000 && c <= INVERSE && OnPanel(q)
    ensures Lit(FastColumns(buf, rot, DiscColumns(x0, y0, r), c), q)
         == var t := Offset(x0, y0, FromPanel(rot, q));
            Paint(c, Lit(buf, q), DiscTimes(r, t.x, t.y))
  {
    var p := FromPanel(rot, q);
    DiscHits(x0, y0, r, p);
    FastColumnsTimes(buf, rot, DiscColumns(x0, y0, r), c, q);
    DiscColumnsTimes(x0, y0, r, p);
  }

  // ----- outline and disc together

  lemma OutlineInDisc(x0: int16, y0: int16, r: int, p: Point)
    requires 0 <= r <= 0x4000 && Visible(p) && p in CirclePoints(x0, y0, r)
    ensures var t := Offset(x0, y0, p);
            InDisc(r, t.x, t.y)
  {
    var t := Offset(x0, y0, p);
    HitsIn(CirclePoints(x0, y0, r), p);
    OutlineHits(x0, y0, r, p);
    HitsIn(OutlineOffsets(r), t);
    OutlineIsExact(r, t);
    DiscCoversOutline(r, t.x, t.y);
  }

  lemma DiscLitOnOutline(buf: Frame, rot: Rotation, x0: int16, y0: int16, r: int, c: uint16, q: Point)
    requires 0 <= r < 0x4000 && c < INVERSE && OnPanel(q) && FromPanel(rot, q) in CirclePoints(x0, y0, r)
    ensures Lit(FastColumns(buf, rot, DiscColumns(x0, y0, r), c), q) == (c == WHITE)
  {
    OutlineInDisc(x0, y0, r, FromPanel(rot, q));
    DiscLit(buf, rot, x0, y0, r, c, q);
  }

  /** Points that already have the colour can be drawn again. */
  lemma RedrawChangesNothing(buf: Frame, rot: Rotation, pts: seq<Point>, c: uint16)
    requires c < INVERSE
    requires forall q :: OnPanel(q) && FromPanel(rot, q) in pts ==> Lit(buf, q) == (c == WHITE)
    ensures PlotAll(buf, rot, pts, c) == buf
  {
    forall q | OnPanel(q) ensures Lit(PlotAll(buf, rot, pts, c), q) == Lit(buf, q) {
      PlotAllLit(buf, rot, pts, c, q);
      HitsIn(pts, FromPanel(rot, q));
    }
    SamePixels(PlotAll(buf, rot, pts, c), buf);
  }

  /** Drawing the outline over the disc of the same circle changes nothing. */
  lemma OutlineOverDisc(buf: Frame, rot: Rotation, x0: int16, y0: int16, r: int, c: uint16)
    requires 0 <= r < 0x4000 && c < INVERSE
    ensures var disc := FastColumns(buf, rot, DiscColumns(x0, y0, r), c);
            PlotAll(disc, rot, CirclePoints(x0, y0, r), c) == disc
  {
    var disc := FastColumns(buf, rot, DiscColumns(x0, y0, r), c);
    forall q | OnPanel(q) && FromPanel(rot, q) in CirclePoints(x0, y0, r) ensures Lit(disc, q) == (c == WHITE) {
      DiscLitOnOutline(buf, rot, x0, y0, r, c, q);
    }
    RedrawChangesNothing(disc, rot, CirclePoints(x0, y0, r), c);
  }
}
