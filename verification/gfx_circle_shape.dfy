// The midpoint circle: the offsets its loop visits, and exactly which offsets make up the
// outline and the filled disc.
module GfxCircleShape {
  import opened CInt
  import opened Panel

  /** The midpoint (x, y - 1/2) lies outside the circle of radius r. */
  predicate MidpointOutside(r: int, x: int, y: int) {
    x * x + y * y - y - r * r >= 0
  }

  function NextY(r: int, x: int, y: int): int {
    if MidpointOutside(r, x + 1, y) then y - 1 else y
  }

  /** The offsets of one octant that are still to come after (x, y). */
  function Octant(r: int, x: int, y: int): seq<Point>
    decreases Max(y - x, 0)
  {
    if x < y then [Point(x + 1, NextY(r, x, y))] + Octant(r, x + 1, NextY(r, x, y)) else []
  }

  // ----- what the walk keeps

  /** (x, y) is within half a pixel of the circle, above the diagonal or just past it. */
  ghost predicate OnWalk(r: int, x: int, y: int) {
    && 0 <= x && 0 <= y <= r && x <= y + 1
    && r * r - x * x <= y * y + y
    && (x < y ==> y * y - y < r * r - x * x)
  }

  lemma WalkStep(r: int, x: int, y: int)
    requires OnWalk(r, x, y) && x < y
    ensures OnWalk(r, x + 1, NextY(r, x, y))
    ensures NearCircle(r, x + 1, NextY(r, x, y))
  {
    var y' := NextY(r, x, y);
    assert (x + 1) * (x + 1) == x * x + 2 * x + 1;
    assert (y - 1) * (y - 1) == y * y - 2 * y + 1;
  }

  /** Within half a pixel of the circle: (m - 1/2)^2 < r^2 - (the other square) <= (m + 1/2)^2
      for the larger coordinate m, in integers.  The centre counts for r = 0 only. */
  predicate NearCircle(r: int, a: int, b: int) {
    var m := Max(Abs(a), Abs(b));
    -m <= a * a + b * b - r * r < Max(1, m)
  }

  /** Inside the circle, or within half a pixel of it. */
  predicate InDisc(r: int, a: int, b: int) {
    a * a + b * b < r * r + Max(1, Max(Abs(a), Abs(b)))
  }

  lemma {:induction false} OctantSound(r: int, x: int, y: int, o: Point)
    requires OnWalk(r, x, y) && o in Octant(r, x, y)
    ensures x < o.x && 0 <= o.y <= r && NearCircle(r, o.x, o.y)
    decreases Max(y - x, 0)
  {
    WalkStep(r, x, y);
    var y' := NextY(r, x, y);
    if o != Point(x + 1, y') {
      OctantSound(r, x + 1, y', o);
    }
  }

  // ----- squares

  lemma SquareOrder(a: int, b: int)
    requires 0 <= a < b
    ensures a * a + a <= b * b - b
  {
    assert (b - a - 1) * (a + b) >= 0;
    assert (b - a - 1) * (a + b) == b * b - b - (a * a + a);
  }

  // ----- nothing is missed

  /** A column left of the diagonal is reached, at least as high as the disc there. */
  lemma {:induction false} ReachesSteepColumn(r: int, x: int, y: int, a: int, b: int) returns (o: Point)
    requires OnWalk(r, x, y) && x < a <= b && InDisc(r, a, b)
    ensures o in Octant(r, x, y) && o.x == a && o.y >= b
    decreases y - x
  {
    assert b * b - b < r * r - a * a;
    assert a * a > x * x by { SquareOrder(x, a); }
    if y < b { SquareOrder(y, b); }
    WalkStep(r, x, y);
    o := Point(x + 1, NextY(r, x, y));
    if o.x < a {
      o := ReachesSteepColumn(r, o.x, o.y, a, b);
    } else if o.y < b {
      SquareOrder(o.y, b);
    }
  }

  /** A column right of the diagonal is reached, as the mirror image of a row of the octant
      or as a column of it. */
  lemma {:induction false} ReachesFlatColumn(r: int, x: int, y: int, a: int, b: int) returns (o: Point)
    requires OnWalk(r, x, y) && x < y && 0 <= b < a <= y && x < a && InDisc(r, a, b)
    requires x == 0 || x < b || y != a
    requires x == 0 ==> y == r
    ensures o in Octant(r, x, y) && ((o.x == a && o.y >= b) || (o.y == a && o.x >= b))
    decreases y - x
  {
    assert a * a - a < r * r - b * b;
    WalkStep(r, x, y);
    o := Point(x + 1, NextY(r, x, y));
    if (o.y == a && o.x >= b) || (o.x == a && o.y >= b) {
      return;
    }
    if o.y < a {
      // the row of height a has just been left, so the step came from (x, a)
      if x < b {
        assert o.x * o.x <= b * b by { if o.x < b { SquareOrder(o.x, b); } }
        SquareOrder(o.y, a);
      }
      assert false;
    }
    o := ReachesFlatColumn(r, o.x, o.y, a, b);
  }

  /** Every offset of the outline above the diagonal is visited. */
  lemma ReachesOutline(r: int, x: int, y: int, a: int, b: int)
    requires OnWalk(r, x, y) && x < a <= b && NearCircle(r, a, b)
    ensures Point(a, b) in Octant(r, x, y)
  {
    var o := ReachesSteepColumn(r, x, y, a, b);
    OctantSound(r, x, y, o);
    if o.y > b { SquareOrder(b, o.y); }
  }

  // ----- the whole outline and the whole disc, as offsets from the centre

  /** The eight mirror images of an offset, in the order they are drawn. */
  function Mirrors(o: Point): seq<Point> {
    [Point(o.x, o.y), Point(-o.x, o.y), Point(o.x, -o.y), Point(-o.x, -o.y),
     Point(o.y, o.x), Point(-o.y, o.x), Point(o.y, -o.x), Point(-o.y, -o.x)]
  }

  function AllMirrors(os: seq<Point>): seq<Point> {
    if os == [] then [] else AllMirrors(os[..|os| - 1]) + Mirrors(os[|os| - 1])
  }

  function Poles(r: int): seq<Point> {
    [Point(0, r), Point(0, -r), Point(r, 0), Point(-r, 0)]
  }

  function OutlineOffsets(r: int): seq<Point> {
    Poles(r) + AllMirrors(Octant(r, 0, r))
  }

  lemma {:induction false} InAllMirrors(os: seq<Point>, p: Point)
    ensures p in AllMirrors(os) <==> exists o :: o in os && p in Mirrors(o)
  {
    if os != [] {
      var init, last := os[..|os| - 1], os[|os| - 1];
      assert os == init + [last];
      InAllMirrors(init, p);
    }
  }

  lemma StartOnWalk(r: int)
    requires 0 <= r
    ensures OnWalk(r, 0, r)
  {
  }

  lemma SquareOfAbs(a: int)
    ensures a * a == Abs(a) * Abs(a)
  {
  }

  lemma MirrorsKeepDistance(r: int, o: Point, p: Point)
    requires p in Mirrors(o)
    ensures NearCircle(r, p.x, p.y) <==> NearCircle(r, o.x, o.y)
  {
    SquareOfAbs(p.x);
    SquareOfAbs(p.y);
    SquareOfAbs(o.x);
    SquareOfAbs(o.y);
  }

  lemma PolesAreNear(r: int, p: Point)
    requires 0 <= r && p in Poles(r)
    ensures NearCircle(r, p.x, p.y)
  {
  }

  lemma MirrorsAreNear(r: int, p: Point)
    requires 0 <= r && p in AllMirrors(Octant(r, 0, r))
    ensures NearCircle(r, p.x, p.y)
  {
    var os := Octant(r, 0, r);
    InAllMirrors(os, p);
    var o :| o in os && p in Mirrors(o);
    StartOnWalk(r);
    OctantSound(r, 0, r, o);
    MirrorsKeepDistance(r, o, p);
  }

  lemma OutlineSound(r: int, p: Point)
    requires 0 <= r && p in OutlineOffsets(r)
    ensures NearCircle(r, p.x, p.y)
  {
    if p in Poles(r) { PolesAreNear(r, p); } else { MirrorsAreNear(r, p); }
  }

  lemma OutlineComplete(r: int, p: Point)
    requires 0 <= r && NearCircle(r, p.x, p.y)
    ensures p in OutlineOffsets(r)
  {
    var a, b := Min(Abs(p.x), Abs(p.y)), Max(Abs(p.x), Abs(p.y));
    SquareOfAbs(p.x);
    SquareOfAbs(p.y);
    assert NearCircle(r, a, b);
    if a == 0 {
      if b < r { SquareOrder(b, r); }
      if r < b { SquareOrder(r, b); }
      assert p in Poles(r);
    } else {
      StartOnWalk(r);
      if r < b { SquareOrder(r, b); }
      ReachesOutline(r, 0, r, a, b);
      assert p in Mirrors(Point(a, b));
      InAllMirrors(Octant(r, 0, r), p);
    }
  }

  /** The outline is exactly the set of offsets within half a pixel of the circle. */
  lemma OutlineIsExact(r: int, p: Point)
    requires 0 <= r
    ensures p in OutlineOffsets(r) <==> NearCircle(r, p.x, p.y)
  {
    if p in OutlineOffsets(r) { OutlineSound(r, p); }
    if NearCircle(r, p.x, p.y) { OutlineComplete(r, p); }
  }

  // ----- the filled circle

  /** A column of the filled circle: offset `x`, from -half to half. */
  predicate InColumn(x: int, half: int, p: Point) {
    p.x == x && -half <= p.y <= half
  }

  predicate InColumnsOf(o: Point, p: Point) {
    InColumn(o.x, o.y, p) || InColumn(o.y, o.x, p) || InColumn(-o.x, o.y, p) || InColumn(-o.y, o.x, p)
  }

  lemma ReachesColumn(r: int, a: int, b: int) returns (o: Point)
    requires 0 <= r && 0 < a && 0 <= b && InDisc(r, a, b)
    ensures o in Octant(r, 0, r) && ((o.x == a && o.y >= b) || (o.y == a && o.x >= b))
  {
    StartOnWalk(r);
    if r < a { SquareOrder(r, a); }
    if a <= b {
      o := ReachesSteepColumn(r, 0, r, a, b);
    } else {
      o := ReachesFlatColumn(r, 0, r, a, b);
    }
  }

  /** Columns have no gaps: towards the axis nothing leaves the disc. */
  lemma DiscIsSolid(r: int, a: int, b: int, b': int)
    requires InDisc(r, a, b) && Abs(b') <= Abs(b)
    ensures InDisc(r, a, b')
  {
    SquareOfAbs(b);
    SquareOfAbs(b');
    if Abs(b') < Abs(b) { SquareOrder(Abs(b'), Abs(b)); }
  }

  lemma DiscIsSymmetric(r: int, a: int, b: int)
    ensures InDisc(r, a, b) <==> InDisc(r, Abs(a), Abs(b))
    ensures InDisc(r, a, b) <==> InDisc(r, b, a)
  {
    SquareOfAbs(a);
    SquareOfAbs(b);
  }

  lemma ColumnInDisc(r: int, o: Point, p: Point)
    requires 0 <= o.x && 0 <= o.y && InDisc(r, o.x, o.y) && InColumnsOf(o, p)
    ensures InDisc(r, p.x, p.y)
  {
    DiscIsSymmetric(r, o.x, o.y);
    DiscIsSymmetric(r, p.x, p.y);
    if Abs(p.x) == o.x && Abs(p.y) <= o.y {
      DiscIsSolid(r, o.x, o.y, Abs(p.y));
    } else {
      DiscIsSolid(r, o.y, o.x, Abs(p.y));
    }
  }

  predicate Painted(r: int, p: Point) {
    InColumn(0, r, p) || exists o :: o in Octant(r, 0, r) && InColumnsOf(o, p)
  }

  /** The columns drawn for the octant, with the central one, cover exactly the disc. */
  lemma DiscIsExact(r: int, p: Point)
    requires 0 <= r
    ensures Painted(r, p) <==> InDisc(r, p.x, p.y)
  {
    StartOnWalk(r);
    if InColumn(0, r, p) {
      ColumnInDisc(r, Point(0, r), p);
    } else if o :| o in Octant(r, 0, r) && InColumnsOf(o, p) {
      OctantSound(r, 0, r, o);
      ColumnInDisc(r, o, p);
    } else if InDisc(r, p.x, p.y) {
      DiscIsSymmetric(r, p.x, p.y);
      if p.x == 0 {
        SquareOrder(r, Abs(p.y));
      } else {
        var o := ReachesColumn(r, Abs(p.x), Abs(p.y));
        assert InColumnsOf(o, p);
      }
    }
  }

  /** The disc covers the outline and stays within the radius. */
  lemma DiscCoversOutline(r: int, a: int, b: int)
    requires 0 <= r
    ensures NearCircle(r, a, b) ==> InDisc(r, a, b)
    ensures InDisc(r, a, b) ==> Abs(a) <= r && Abs(b) <= r && (r >= 1 ==> a * a + b * b < r * r + r)
  {
    SquareOfAbs(a);
    SquareOfAbs(b);
    if r < Abs(a) { SquareOrder(r, Abs(a)); }
    if r < Abs(b) { SquareOrder(r, Abs(b)); }
  }
}
