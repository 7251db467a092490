// How often the filled circle covers each of its pixels, which decides what INVERSE does to it.
module GfxDiscTimes {
  import opened CInt
  import opened Panel
  import opened GfxCircleShape
  import opened GfxCircleTimes

  // ----- in closed form

  /** The octant visits (x, y): near the circle and above the diagonal, or one step below it. */
  predicate OctantAt(r: int, x: int, y: int) {
    || (x <= y && NearCircle(r, x, y))
    || (x == y + 1 && NearCircle(r, y, x) && MidpointOutside(r, x, x))
  }

  /** The octant visits column x. */
  predicate ColumnReached(r: int, x: int) {
    InDisc(r, x, x) || OctantAt(r, x, x - 1)
  }

  /** How many offsets of row y the octant visits from column lo to column hi. */
  function Steps(r: int, y: int, lo: int, hi: int): nat
    decreases Max(hi - lo + 1, 0)
  {
    if hi < lo then 0 else Steps(r, y, lo, hi - 1) + if OctantAt(r, hi, y) then 1 else 0
  }

  /** The column at distance x from the centre is drawn once for the octant's visit to that
      column, and once more, with half height k, for each of its visits (k, x) to row x; the
      central column is drawn first, and twice for each visit to row 0. */
  function DiscTimes(r: int, a: int, b: int): nat {
    var (x, y) := (Abs(a), Abs(b));
    if !InDisc(r, a, b) then 0
    else if x == 0 then 1 + 2 * Steps(r, x, Max(y, 1), x + 1)
    else (if ColumnReached(r, x) then 1 else 0) + Steps(r, x, Max(y, 1), x + 1)
  }

  // ----- by the columns of the octant

  function Once(covered: bool): nat { if covered then 1 else 0 }

  /** How many of the four columns drawn for an octant offset cover p. */
  function ColumnTimes(o: Point, p: Point): nat {
    Once(InColumn(o.x, o.y, p)) + Once(InColumn(o.y, o.x, p))
    + Once(InColumn(-o.x, o.y, p)) + Once(InColumn(-o.y, o.x, p))
  }

  function OctantTimes(os: seq<Point>, p: Point): nat {
    if os == [] then 0 else OctantTimes(os[..|os| - 1], p) + ColumnTimes(os[|os| - 1], p)
  }

  // ----- counting offsets in a box

  predicate InBox(o: Point, x0: int, x1: int, y0: int, y1: int) {
    x0 <= o.x <= x1 && y0 <= o.y <= y1
  }

  function Box(os: seq<Point>, x0: int, x1: int, y0: int, y1: int): nat {
    if os == [] then 0
    else Box(os[..|os| - 1], x0, x1, y0, y1) + Once(InBox(os[|os| - 1], x0, x1, y0, y1))
  }

  lemma {:induction false} BoxConcat(a: seq<Point>, b: seq<Point>, x0: int, x1: int, y0: int, y1: int)
    ensures Box(a + b, x0, x1, y0, y1) == Box(a, x0, x1, y0, y1) + Box(b, x0, x1, y0, y1)
    decreases |b|
  {
    if b == [] {
      assert a + b == a;
    } else {
      var init := b[..|b| - 1];
      BoxConcat(a, init, x0, x1, y0, y1);
      assert (a + b)[..|a + b| - 1] == a + init;
    }
  }

  lemma {:induction false} BoxIn(os: seq<Point>, x0: int, x1: int, y0: int, y1: int)
    ensures Box(os, x0, x1, y0, y1) > 0 <==> exists o :: o in os && InBox(o, x0, x1, y0, y1)
  {
    if os != [] {
      var init, last := os[..|os| - 1], os[|os| - 1];
      assert os == init + [last];
      BoxIn(init, x0, x1, y0, y1);
    }
  }

  lemma {:induction false} BoxRow(os: seq<Point>, lo: int, hi: int, y: int)
    ensures lo <= hi ==> Box(os, lo, hi, y, y) == Box(os, lo, hi - 1, y, y) + Hits(os, Point(hi, y))
    ensures hi < lo ==> Box(os, lo, hi, y, y) == 0
  {
    if os != [] { BoxRow(os[..|os| - 1], lo, hi, y); }
  }

  // ----- the octant's rows and columns

  lemma OctantExactly(r: int, o: Point)
    requires 0 <= r && 1 <= o.x && 0 <= o.y
    ensures o in Octant(r, 0, r) <==> OctantAt(r, o.x, o.y)
  {
    StartOnWalk(r);
    if o in Octant(r, 0, r) {
      OctantSound(r, 0, r, o);
      if o.y < o.x { OctantFlat(r, 0, r, o); }
    }
    if o.x <= o.y {
      if NearCircle(r, o.x, o.y) {
        if r < o.y { SquareOrder(r, o.y); }
        ReachesOutline(r, 0, r, o.x, o.y);
      }
    } else if OctantAt(r, o.x, o.y) {
      VisitsBelowDiagonal(r, o);
    }
  }

  lemma VisitsBelowDiagonal(r: int, o: Point)
    requires 0 <= r && 0 <= o.y && o.x == o.y + 1 && OctantAt(r, o.x, o.y)
    ensures o in Octant(r, 0, r)
  {
    StartOnWalk(r);
    if o.y > 0 {
      if r < o.x { SquareOrder(r, o.x); }
      ReachesOutline(r, 0, r, o.y, o.x);
    }
    FlatMember(r, o.y, o.x);
  }

  lemma {:induction false} RowOfOctant(r: int, y: int, lo: int, hi: int)
    requires 0 <= r && 0 <= y && 1 <= lo
    ensures Box(Octant(r, 0, r), lo, hi, y, y) == Steps(r, y, lo, hi)
    decreases Max(hi - lo + 1, 0)
  {
    BoxRow(Octant(r, 0, r), lo, hi, y);
    if lo <= hi {
      RowOfOctant(r, y, lo, hi - 1);
      StartOnWalk(r);
      OctantOnce(r, 0, r, Point(hi, y));
      OctantExactly(r, Point(hi, y));
    }
  }

  lemma {:induction false} ColumnVisitedOnce(r: int, x: int, y: int, a: int, lo: int, hi: int)
    requires OnWalk(r, x, y)
    ensures Box(Octant(r, x, y), a, a, lo, hi) <= 1
    decreases Max(y - x, 0)
  {
    if x < y {
      var first := Point(x + 1, NextY(r, x, y));
      var rest := Octant(r, first.x, first.y);
      WalkStep(r, x, y);
      ColumnVisitedOnce(r, first.x, first.y, a, lo, hi);
      assert [first][..0] == [];
      BoxConcat([first], rest, a, a, lo, hi);
      BoxIn(rest, a, a, lo, hi);
      forall o | o in rest ensures x + 1 < o.x { OctantSound(r, first.x, first.y, o); }
    }
  }

  lemma ColumnOfOctant(r: int, x: int, y: int)
    requires 0 <= r && 1 <= x && 0 <= y && InDisc(r, x, y)
    ensures Box(Octant(r, 0, r), x, x, y, r) == Once(ColumnReached(r, x))
  {
    var os := Octant(r, 0, r);
    StartOnWalk(r);
    ColumnVisitedOnce(r, 0, r, x, y, r);
    BoxIn(os, x, x, y, r);
    if ColumnReached(r, x) {
      var o := VisitToColumn(r, x, y);
    } else {
      forall o | o in os ensures !InBox(o, x, x, y, r) {
        if o.x == x { VisitedColumn(r, o); }
      }
    }
  }

  lemma VisitToColumn(r: int, x: int, y: int) returns (o: Point)
    requires 0 <= r && 1 <= x && 0 <= y && InDisc(r, x, y) && ColumnReached(r, x)
    ensures o in Octant(r, 0, r) && o.x == x && y <= o.y <= r
  {
    StartOnWalk(r);
    if InDisc(r, x, x) || x <= y {
      o := ReachesSteepColumn(r, 0, r, x, Max(x, y));
      OctantSound(r, 0, r, o);
    } else {
      o := Point(x, x - 1);
      OctantExactly(r, o);
      OctantSound(r, 0, r, o);
    }
  }

  /** Where the octant visits a column, that column is one it reaches. */
  lemma VisitedColumn(r: int, o: Point)
    requires 0 <= r && o in Octant(r, 0, r)
    ensures ColumnReached(r, o.x)
  {
    StartOnWalk(r);
    OctantSound(r, 0, r, o);
    OctantExactly(r, o);
    if o.x <= o.y {
      DiscCoversOutline(r, o.x, o.y);
      DiscIsSolid(r, o.x, o.y, o.x);
    }
  }

  // ----- both counts agree

  lemma ColumnTimesInBoxes(o: Point, p: Point, r: int)
    requires 0 < o.x <= o.y + 1 <= r + 1
    ensures ColumnTimes(o, p)
         == Once(InBox(o, Abs(p.x), Abs(p.x), Abs(p.y), r))
            + (if p.x == 0 then 2 else 1) * Once(InBox(o, Max(Abs(p.y), 1), Abs(p.x) + 1, Abs(p.x), Abs(p.x)))
  {
  }

  lemma {:induction false} OctantTimesInBoxes(os: seq<Point>, p: Point, r: int)
    requires forall o :: o in os ==> 0 < o.x <= o.y + 1 <= r + 1
    ensures OctantTimes(os, p)
         == Box(os, Abs(p.x), Abs(p.x), Abs(p.y), r)
            + (if p.x == 0 then 2 else 1) * Box(os, Max(Abs(p.y), 1), Abs(p.x) + 1, Abs(p.x), Abs(p.x))
  {
    if os != [] {
      var init, last := os[..|os| - 1], os[|os| - 1];
      assert os == init + [last];
      OctantTimesInBoxes(init, p, r);
      ColumnTimesInBoxes(last, p, r);
    }
  }

  lemma {:induction false} NotCovered(os: seq<Point>, p: Point)
    requires forall o :: o in os ==> !InColumnsOf(o, p)
    ensures OctantTimes(os, p) == 0
  {
    if os != [] {
      var init, last := os[..|os| - 1], os[|os| - 1];
      assert os == init + [last];
      NotCovered(init, p);
      assert last in os;
    }
  }

  lemma OctantShape(r: int, o: Point)
    requires 0 <= r && o in Octant(r, 0, r)
    ensures 0 < o.x <= o.y + 1 <= r + 1
  {
    StartOnWalk(r);
    OctantSound(r, 0, r, o);
    if o.y < o.x { OctantFlat(r, 0, r, o); }
  }

  /** The central column and those of the octant cover every offset exactly so often. */
  lemma DiscCovers(r: int, p: Point)
    requires 0 <= r
    ensures Once(InColumn(0, r, p)) + OctantTimes(Octant(r, 0, r), p) == DiscTimes(r, p.x, p.y)
  {
    var os := Octant(r, 0, r);
    DiscIsExact(r, p);
    if !InDisc(r, p.x, p.y) {
      NotCovered(os, p);
    } else {
      forall o | o in os ensures 0 < o.x <= o.y + 1 <= r + 1 { OctantShape(r, o); }
      OctantTimesInBoxes(os, p, r);
      RowOfOctant(r, Abs(p.x), Max(Abs(p.y), 1), Abs(p.x) + 1);
      if p.x == 0 { CentralColumn(r, p); } else { SideColumn(r, p); }
    }
  }

  lemma CentralColumn(r: int, p: Point)
    requires 0 <= r && p.x == 0 && InDisc(r, p.x, p.y)
    ensures InColumn(0, r, p)
    ensures Box(Octant(r, 0, r), 0, 0, Abs(p.y), r) == 0
  {
    DiscCoversOutline(r, p.x, p.y);
    BoxIn(Octant(r, 0, r), 0, 0, Abs(p.y), r);
    forall o | o in Octant(r, 0, r) ensures 0 < o.x { OctantShape(r, o); }
  }

  lemma SideColumn(r: int, p: Point)
    requires 0 <= r && p.x != 0 && InDisc(r, p.x, p.y)
    ensures Box(Octant(r, 0, r), Abs(p.x), Abs(p.x), Abs(p.y), r) == Once(ColumnReached(r, Abs(p.x)))
  {
    DiscIsSymmetric(r, p.x, p.y);
    ColumnOfOctant(r, Abs(p.x), Abs(p.y));
  }

  /** An offset is covered exactly when it is in the disc. */
  lemma DiscTimesPositive(r: int, p: Point)
    requires 0 <= r
    ensures DiscTimes(r, p.x, p.y) > 0 <==> InDisc(r, p.x, p.y)
  {
    DiscIsExact(r, p);
    DiscCovers(r, p);
    if InDisc(r, p.x, p.y) && !InColumn(0, r, p) {
      var o :| o in Octant(r, 0, r) && InColumnsOf(o, p);
      CoveredOnce(Octant(r, 0, r), o, p);
    }
  }

  lemma {:induction false} CoveredOnce(os: seq<Point>, o: Point, p: Point)
    requires o in os && InColumnsOf(o, p)
    ensures OctantTimes(os, p) > 0
  {
    var init, last := os[..|os| - 1], os[|os| - 1];
    assert os == init + [last];
    if o != last { CoveredOnce(init, o, p); }
  }
}
