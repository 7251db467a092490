// Adafruit_GFX straight lines, drawn on the SSD1306 display.
module GfxLines {
  import opened CInt
  import opened Panel
  import opened Ssd1306

  // ----- the line, in closed form

  /** How far the minor coordinate has moved after i of dx steps along the major one:
      i*dy/dx rounded to the nearest integer. */
  function Rise(dx: int, dy: int, i: int): (k: int)
    requires 0 <= dy <= dx && 0 <= i
  {
    if dx == 0 then 0 else (i * dy + dx - 1 - dx / 2) / dx
  }

  /** A line turned so that it is walked along its longer axis in increasing order. */
  datatype Walk = Walk(steep: bool, major: int, minor: int, dx: int, dy: int, down: bool) {
    function At(i: nat): Point
      requires 0 <= dy <= dx
    {
      var k := if down then Rise(dx, dy, i) else -Rise(dx, dy, i);
      if steep then Point(minor + k, major + i) else Point(major + i, minor + k)
    }
  }

  function WalkOf(x0: int, y0: int, x1: int, y1: int): (w: Walk)
    ensures 0 <= w.dy <= w.dx == Max(Abs(x1 - x0), Abs(y1 - y0))
  {
    var steep := Abs(y1 - y0) > Abs(x1 - x0);
    var (a0, b0, a1, b1) := if steep then (y0, x0, y1, x1) else (x0, y0, x1, y1);
    var (c0, d0, c1, d1) := if a0 > a1 then (a1, b1, a0, b0) else (a0, b0, a1, b1);
    Walk(steep, c0, d0, c1 - c0, Abs(d1 - d0), d0 < d1)
  }

  function LinePoints(x0: int, y0: int, x1: int, y1: int): (pts: seq<Point>)
    ensures |pts| == Max(Abs(x1 - x0), Abs(y1 - y0)) + 1
  {
    var w := WalkOf(x0, y0, x1, y1);
    seq(w.dx + 1, i requires 0 <= i <= w.dx => w.At(i))
  }

  // ----- rounding

  /** The running error term of the loop after i steps. */
  function ErrAt(dx: int, dy: int, i: int): (e: int)
    requires 0 <= dy <= dx && 0 <= i
  {
    if dx == 0 then 0 else dx / 2 - i * dy + Rise(dx, dy, i) * dx
  }

  lemma ErrRange(dx: int, dy: int, i: int)
    requires 0 <= dy <= dx && 0 < dx && 0 <= i
    ensures 0 <= ErrAt(dx, dy, i) < dx
  {
    var n := i * dy + dx - 1 - dx / 2;
    assert n == n / dx * dx + n % dx;
  }

  lemma RiseUnique(dx: int, dy: int, i: int, k: int)
    requires 0 <= dy <= dx && 0 < dx && 0 <= i
    requires 0 <= dx / 2 - i * dy + k * dx < dx
    ensures k == Rise(dx, dy, i)
  {
    QuotientIsUnique(i * dy + dx - 1 - dx / 2, dx, k);
  }

  /** The displacement is i*dy/dx rounded to the nearest integer, halves downwards. */
  lemma RoundsHalfDown(dx: int, dy: int, i: int, k: int)
    requires 0 <= dy <= dx && 0 < dx && 0 <= i
    ensures k == Rise(dx, dy, i) <==> -dx <= 2 * (k * dx - i * dy) < dx
  {
    ErrRange(dx, dy, i);
    if -dx <= 2 * (k * dx - i * dy) < dx { RiseUnique(dx, dy, i, k); }
  }

  /** One Bresenham step: the sign of the reduced error decides whether the minor coordinate
      moves, and adding dx then restores the error term. */
  lemma ErrStep(dx: int, dy: int, i: int)
    requires 0 <= dy <= dx && 0 < dx && 0 <= i
    ensures var turn := ErrAt(dx, dy, i) - dy < 0;
            && ErrAt(dx, dy, i + 1) == ErrAt(dx, dy, i) - dy + (if turn then dx else 0)
            && Rise(dx, dy, i + 1) == Rise(dx, dy, i) + if turn then 1 else 0
  {
    ErrRange(dx, dy, i);
    var k := Rise(dx, dy, i);
    var k' := k + if ErrAt(dx, dy, i) - dy < 0 then 1 else 0;
    assert (i + 1) * dy == i * dy + dy;
    assert (k + 1) * dx == k * dx + dx;
    RiseUnique(dx, dy, i + 1, k');
  }

  lemma RiseEnds(dx: int, dy: int)
    requires 0 <= dy <= dx
    ensures Rise(dx, dy, 0) == 0 && Rise(dx, dy, dx) == dy
  {
    if dx > 0 {
      RiseUnique(dx, dy, 0, 0);
      assert dy * dx == dx * dy;
      RiseUnique(dx, dy, dx, dy);
    }
  }

  lemma {:induction false} RiseMonotone(dx: int, dy: int, i: int, j: int)
    requires 0 <= dy <= dx && 0 <= i <= j
    ensures Rise(dx, dy, i) <= Rise(dx, dy, j)
    decreases j - i
  {
    if i < j && dx > 0 {
      ErrStep(dx, dy, j - 1);
      RiseMonotone(dx, dy, i, j - 1);
    }
  }

  lemma RiseBounds(dx: int, dy: int, i: int)
    requires 0 <= dy <= dx && 0 <= i <= dx
    ensures 0 <= Rise(dx, dy, i) <= dy
  {
    RiseEnds(dx, dy);
    RiseMonotone(dx, dy, 0, i);
    RiseMonotone(dx, dy, i, dx);
  }

  /** Bresenham's recurrence: minor displacement and error term, by additions only. */
  function Bresenham(dx: int, dy: int, i: nat): (int, int)
    decreases i
  {
    if i == 0 then (0, TruncDiv(dx, 2))
    else
      var (k, err) := Bresenham(dx, dy, i - 1);
      if err - dy < 0 then (k + 1, err - dy + dx) else (k, err - dy)
  }

  /** The recurrence computes the rounded quotient, and its error term stays in [0, dx). */
  lemma {:induction false} BresenhamRounds(dx: int, dy: int, i: nat)
    requires 0 <= dy <= dx && i <= dx
    ensures Bresenham(dx, dy, i) == (Rise(dx, dy, i), ErrAt(dx, dy, i))
    ensures 0 <= Bresenham(dx, dy, i).0 <= dy && 0 <= Bresenham(dx, dy, i).1 <= Max(dx - 1, 0)
  {
    RiseBounds(dx, dy, i);
    RiseEnds(dx, dy);
    if dx > 0 {
      ErrRange(dx, dy, i);
      if i > 0 {
        BresenhamRounds(dx, dy, i - 1);
        ErrStep(dx, dy, i - 1);
      }
    }
  }

  // ----- drawLine

  /** The coordinate differences fit in 16 bits, and so does one step past the far end. */
  predicate LineFits(x0: int16, y0: int16, x1: int16, y1: int16) {
    var w := WalkOf(x0, y0, x1, y1);
    w.dx < 0x8000 && w.major + w.dx < 0x7FFF
  }

  lemma LineFollowsBresenham(xa: int, ya: int, xb: int, yb: int, ystep: int)
    requires (ystep == 1) == WalkOf(xa, ya, xb, yb).down
    ensures var w, pts := WalkOf(xa, ya, xb, yb), LinePoints(xa, ya, xb, yb);
            forall i: nat :: i <= w.dx ==> OnWalk(pts, i, w.steep, w.major, w.minor, w.dx, w.dy, ystep)
  {
    var w, pts := WalkOf(xa, ya, xb, yb), LinePoints(xa, ya, xb, yb);
    forall i: nat | i <= w.dx ensures OnWalk(pts, i, w.steep, w.major, w.minor, w.dx, w.dy, ystep) {
      BresenhamRounds(w.dx, w.dy, i);
      assert pts[i] == w.At(i);
    }
  }

  /** Bresenham's incremental loop plots exactly the rounded line, in walking order. */
  method DrawLine(d: Display, xa: int16, ya: int16, xb: int16, yb: int16, color: uint16)
    requires d.Valid() && LineFits(xa, ya, xb, yb)
    modifies d.buffer
    ensures d.Valid()
    ensures d.Pixels() == PlotAll(old(d.Pixels()), d.rotation, LinePoints(xa, ya, xb, yb), color)
  {
    var x0, y0, x1, y1 := xa, ya, xb, yb;
    var steep := Abs(y1 - y0) > Abs(x1 - x0);
    if steep {
      x0, y0 := y0, x0;
      x1, y1 := y1, x1;
    }
    if x0 > x1 {
      x0, x1 := x1, x0;
      y0, y1 := y1, y0;
    }
    var dx, dy := Wrap16(x1 - x0), Wrap16(Abs(y1 - y0));
    var ystep: int16 := if y0 < y1 then 1 else -1;
    assert WalkOf(xa, ya, xb, yb) == Walk(steep, x0, y0, dx, dy, ystep == 1);
    LineFollowsBresenham(xa, ya, xb, yb, ystep);
    WalkLine(d, steep, x0, y0, x1, dx, dy, ystep, y1, color, LinePoints(xa, ya, xb, yb));
  }

  function WalkPoint(steep: bool, x: int, y: int, i: int, rise: int, ystep: int): Point {
    var m := if ystep == 1 then y + rise else y - rise;
    if steep then Point(m, x + i) else Point(x + i, m)
  }

  ghost predicate OnWalk(pts: seq<Point>, i: nat, steep: bool, x: int, y: int, dx: int, dy: int, ystep: int) {
    var (rise, err) := Bresenham(dx, dy, i);
    && i < |pts| && pts[i] == WalkPoint(steep, x, y, i, rise, ystep)
    && 0 <= rise <= dy && 0 <= err <= dx
  }

  /** The error update of the loop, and the step to the side when the error has run out. */
  method Turn(dx: int16, dy: int16, ystep: int16, ya: int16, erra: int16, ghost i: nat)
    returns (y: int16, err: int16)
    requires 0 <= dy <= dx && 0 <= erra <= dx && erra == Bresenham(dx, dy, i).1
    ensures err == Bresenham(dx, dy, i + 1).1
    ensures y == if Bresenham(dx, dy, i + 1).0 == Bresenham(dx, dy, i).0 then ya else Wrap16(ya + ystep)
  {
    y, err := ya, Wrap16(erra - dy);
    if err < 0 {
      y := Wrap16(y + ystep);
      err := Wrap16(err + dx);
    }
  }

  /** The plotting loop of drawLine. */
  method WalkLine(d: Display, steep: bool, xa: int16, ya: int16, x1: int16, dx: int16, dy: int16,
                  ystep: int16, ghost y1: int16, color: uint16, ghost pts: seq<Point>)
    requires d.Valid() && 0 <= dy <= dx && (ystep == 1 || ystep == -1)
    requires x1 == xa + dx < 0x7FFF && y1 == ya + (if ystep == 1 then dy else -dy)
    requires |pts| == dx + 1
    requires forall i: nat :: i <= dx ==> OnWalk(pts, i, steep, xa, ya, dx, dy, ystep)
    modifies d.buffer
    ensures d.Valid()
    ensures d.Pixels() == PlotAll(old(d.Pixels()), d.rotation, pts, color)
  {
    ghost var was := d.Pixels();
    var x0: int16, y0: int16 := xa, ya;
    var err: int16 := Wrap16(TruncDiv(dx, 2));
    ghost var i: nat, k := 0, 0;
    while x0 <= x1
      invariant i <= dx + 1 && x0 == xa + i
      invariant i <= dx ==> (k, err) == Bresenham(dx, dy, i) && y0 == ya + (if ystep == 1 then k else -k)
      invariant d.Valid() && d.Pixels() == PlotAll(was, d.rotation, pts[..i], color)
      decreases x1 - x0
    {
      assert OnWalk(pts, i, steep, xa, ya, dx, dy, ystep);
      if steep {
        d.DrawNext(y0, x0, color, was, pts, i);
      } else {
        d.DrawNext(x0, y0, color, was, pts, i);
      }
      assert i < dx ==> OnWalk(pts, i + 1, steep, xa, ya, dx, dy, ystep);
      y0, err := Turn(dx, dy, ystep, y0, err, i);
      k := Bresenham(dx, dy, i + 1).0;
      x0 := Wrap16(x0 + 1);
      i := i + 1;
    }
    assert pts[..i] == pts;
  }

  // ----- what the drawn line looks like

  /** No point of the line is drawn twice. */
  lemma LineCount(x0: int, y0: int, x1: int, y1: int, p: Point)
    ensures var pts := LinePoints(x0, y0, x1, y1);
            Hits(pts, p) == if p in pts then 1 else 0
  {
    HitsDistinct(LinePoints(x0, y0, x1, y1), p);
  }

  lemma LineStartsAndEnds(x0: int, y0: int, x1: int, y1: int)
    ensures var pts := LinePoints(x0, y0, x1, y1);
            multiset{pts[0], pts[|pts| - 1]} == multiset{Point(x0, y0), Point(x1, y1)}
  {
    var w := WalkOf(x0, y0, x1, y1);
    RiseEnds(w.dx, w.dy);
  }

  /** Neighbouring points of the line touch: they differ by one along the longer axis and by
      at most one along the other. */
  lemma LineIsConnected(x0: int, y0: int, x1: int, y1: int, i: nat)
    requires i < Max(Abs(x1 - x0), Abs(y1 - y0))
    ensures var pts := LinePoints(x0, y0, x1, y1);
            var (p, q) := (pts[i], pts[i + 1]);
            if Abs(y1 - y0) > Abs(x1 - x0) then q.y == p.y + 1 && Abs(q.x - p.x) <= 1
            else q.x == p.x + 1 && Abs(q.y - p.y) <= 1
  {
    var w := WalkOf(x0, y0, x1, y1);
    ErrStep(w.dx, w.dy, i);
  }

  /** Where point i of the line lies, along (a of da) and across (b of db) its longer axis,
      relative to the end point given first. */
  lemma OffsetOnLine(x0: int, y0: int, x1: int, y1: int, i: nat)
    requires i <= Max(Abs(x1 - x0), Abs(y1 - y0))
    ensures var w, p := WalkOf(x0, y0, x1, y1), LinePoints(x0, y0, x1, y1)[i];
            var k := Rise(w.dx, w.dy, i);
            var (a, b, da, db) := if w.steep then (p.y - y0, p.x - x0, y1 - y0, x1 - x0)
                                  else (p.x - x0, p.y - y0, x1 - x0, y1 - y0);
            if da >= 0 then a == i && da == w.dx && (b, db) == (if w.down then (k, w.dy) else (-k, -w.dy))
            else a == i - w.dx && da == -w.dx
                 && (b, db) == (if w.down then (k - w.dy, -w.dy) else (w.dy - k, w.dy))
  {
  }

  lemma CrossProduct(a: int, b: int, da: int, db: int, i: int, k: int, dx: int, dy: int)
    requires || ((a, da) == (i, dx) && ((b, db) == (k, dy) || (b, db) == (-k, -dy)))
             || ((a, da) == (i - dx, -dx) && ((b, db) == (k - dy, -dy) || (b, db) == (dy - k, dy)))
    ensures Abs(a * db - b * da) == Abs(k * dx - i * dy)
  {
    if a == i && da == dx {
      if b == k && db == dy {
        assert a * db - b * da == i * dy - k * dx;
      } else if b == -k && db == -dy {
        assert a * db == -(i * dy) && b * da == -(k * dx);
      }
    } else if b == k - dy && db == -dy {
      assert a * db == dx * dy - i * dy && b * da == dx * dy - k * dx;
    } else {
      assert a * db == i * dy - dx * dy && b * da == k * dx - dx * dy;
    }
  }

  /** Every drawn pixel is within half a pixel of the ideal line through the end points. */
  lemma LineIsWithinHalfAPixel(x0: int, y0: int, x1: int, y1: int, i: nat)
    requires i <= Max(Abs(x1 - x0), Abs(y1 - y0))
    ensures var p := LinePoints(x0, y0, x1, y1)[i];
            2 * Abs((p.x - x0) * (y1 - y0) - (p.y - y0) * (x1 - x0)) <= Max(Abs(x1 - x0), Abs(y1 - y0))
  {
    var w, p := WalkOf(x0, y0, x1, y1), LinePoints(x0, y0, x1, y1)[i];
    var k := Rise(w.dx, w.dy, i);
    RoundingError(w.dx, w.dy, i);
    OffsetOnLine(x0, y0, x1, y1, i);
    if w.steep {
      CrossProduct(p.y - y0, p.x - x0, y1 - y0, x1 - x0, i, k, w.dx, w.dy);
    } else {
      CrossProduct(p.x - x0, p.y - y0, x1 - x0, y1 - y0, i, k, w.dx, w.dy);
    }
  }

  lemma RoundingError(dx: int, dy: int, i: int)
    requires 0 <= dy <= dx && 0 <= i <= dx
    ensures 2 * Abs(Rise(dx, dy, i) * dx - i * dy) <= dx
  {
    if dx > 0 { ErrRange(dx, dy, i); }
  }

  lemma LineStaysInItsBox(x0: int, y0: int, x1: int, y1: int, i: nat)
    requires i <= Max(Abs(x1 - x0), Abs(y1 - y0))
    ensures var p := LinePoints(x0, y0, x1, y1)[i];
            Min(x0, x1) <= p.x <= Max(x0, x1) && Min(y0, y1) <= p.y <= Max(y0, y1)
  {
    var w := WalkOf(x0, y0, x1, y1);
    RiseBounds(w.dx, w.dy, i);
  }

  /** The same pixels are drawn whichever end point is given first. */
  lemma LineIsUndirected(x0: int, y0: int, x1: int, y1: int)
    ensures LinePoints(x0, y0, x1, y1) == LinePoints(x1, y1, x0, y0)
  {
    if x0 == x1 && y0 == y1 {
    } else {
      var w := WalkOf(x0, y0, x1, y1);
      assert w.dy > 0 ==> w == WalkOf(x1, y1, x0, y0);
    }
  }
}
