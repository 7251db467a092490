// Adafruit_GFX circles on the SSD1306 display: the incremental midpoint loops.
module GfxCircles {
  import opened CInt
  import opened Panel
  import opened Spans
  import opened Ssd1306
  import opened GfxCircleShape

  /** The pixel at an offset from the centre, after conversion to 16 bits. */
  function At(x0: int16, y0: int16, o: Point): Point {
    Point(Wrap16(x0 + o.x), Wrap16(y0 + o.y))
  }

  function AllAt(x0: int16, y0: int16, os: seq<Point>): seq<Point> {
    seq(|os|, i requires 0 <= i < |os| => At(x0, y0, os[i]))
  }

  lemma AllAtConcat(x0: int16, y0: int16, a: seq<Point>, b: seq<Point>)
    ensures AllAt(x0, y0, a + b) == AllAt(x0, y0, a) + AllAt(x0, y0, b)
  {
  }

  function CirclePoints(x0: int16, y0: int16, r: int): seq<Point> {
    AllAt(x0, y0, OutlineOffsets(r))
  }

  /** For a negative radius only the four poles are plotted, each once. */
  lemma NegativeRadius(x0: int16, y0: int16, r: int)
    requires r < 0
    ensures CirclePoints(x0, y0, r)
         == [At(x0, y0, Point(0, r)), At(x0, y0, Point(0, -r)), At(x0, y0, Point(r, 0)), At(x0, y0, Point(-r, 0))]
  {
    assert Octant(r, 0, r) == [];
    assert OutlineOffsets(r) == Poles(r);
  }

  // ----- the accumulators

  /** `f` is the midpoint polynomial of the next column and the two `ddF` are its first
      differences; while the loop runs none of them leaves 16 bits. */
  ghost predicate Accumulated(r: int, x: int, y: int, f: int, ddFx: int, ddFy: int) {
    && f == (x + 1) * (x + 1) + y * y - y - r * r
    && ddFx == 2 * x + 1 && ddFy == -2 * y
    && OnWalk(r, x, y)
  }

  lemma AccumulatorRange(r: int, x: int, y: int, f: int, ddFx: int, ddFy: int)
    requires Accumulated(r, x, y, f, ddFx, ddFy) && x < y
    ensures 2 * x + 1 - 2 * y <= f <= 2 * x
    ensures f >= 0 <==> MidpointOutside(r, x + 1, y)
  {
    assert (x + 1) * (x + 1) == x * x + 2 * x + 1;
  }

  lemma AccumulatorStep(r: int, x: int, y: int, f: int, ddFx: int, ddFy: int)
    requires Accumulated(r, x, y, f, ddFx, ddFy) && x < y
    ensures f >= 0 ==> Accumulated(r, x + 1, y - 1, f + (ddFy + 2) + (ddFx + 2), ddFx + 2, ddFy + 2)
    ensures f < 0 ==> Accumulated(r, x + 1, y, f + (ddFx + 2), ddFx + 2, ddFy)
    ensures NextY(r, x, y) == if f >= 0 then y - 1 else y
  {
    AccumulatorRange(r, x, y, f, ddFx, ddFy);
    WalkStep(r, x, y);
    assert (x + 2) * (x + 2) == (x + 1) * (x + 1) + 2 * x + 3;
    assert (y - 1) * (y - 1) == y * y - 2 * y + 1;
  }

  // ----- drawCircle

  /** Four of the eight mirror images. */
  function Four(a: int, b: int): seq<Point> {
    [Point(a, b), Point(-a, b), Point(a, -b), Point(-a, -b)]
  }

  method PlotFour(d: Display, x0: int16, y0: int16, a: int, b: int, color: uint16)
    requires d.Valid()
    modifies d.buffer
    ensures d.Valid()
    ensures d.Pixels() == PlotAll(old(d.Pixels()), d.rotation, AllAt(x0, y0, Four(a, b)), color)
  {
    ghost var was, pts := d.Pixels(), AllAt(x0, y0, Four(a, b));
    d.DrawNext(Wrap16(x0 + a), Wrap16(y0 + b), color, was, pts, 0);
    d.DrawNext(Wrap16(x0 - a), Wrap16(y0 + b), color, was, pts, 1);
    d.DrawNext(Wrap16(x0 + a), Wrap16(y0 - b), color, was, pts, 2);
    d.DrawNext(Wrap16(x0 - a), Wrap16(y0 - b), color, was, pts, 3);
    assert pts[..4] == pts;
  }

  lemma MirrorsAreTwoFours(was: Frame, rot: Rotation, x0: int16, y0: int16, x: int, y: int, c: uint16)
    ensures PlotAll(PlotAll(was, rot, AllAt(x0, y0, Four(x, y)), c), rot, AllAt(x0, y0, Four(y, x)), c)
         == PlotAll(was, rot, AllAt(x0, y0, Mirrors(Point(x, y))), c)
  {
    assert Mirrors(Point(x, y)) == Four(x, y) + Four(y, x);
    AllAtConcat(x0, y0, Four(x, y), Four(y, x));
    PlotAllConcat(was, rot, AllAt(x0, y0, Four(x, y)), AllAt(x0, y0, Four(y, x)), c);
  }

  /** The eight drawPixel calls of one loop iteration. */
  method PlotMirrors(d: Display, x0: int16, y0: int16, x: int, y: int, color: uint16)
    requires d.Valid()
    modifies d.buffer
    ensures d.Valid()
    ensures d.Pixels() == PlotAll(old(d.Pixels()), d.rotation, AllAt(x0, y0, Mirrors(Point(x, y))), color)
  {
    MirrorsAreTwoFours(d.Pixels(), d.rotation, x0, y0, x, y, color);
    PlotFour(d, x0, y0, x, y, color);
    PlotFour(d, x0, y0, y, x, color);
  }

  /** The pixels of the loop so far: the poles and the mirror images of `done`. */
  ghost function SoFar(x0: int16, y0: int16, r: int, done: seq<Point>): seq<Point> {
    AllAt(x0, y0, Poles(r) + AllMirrors(done))
  }

  lemma SoFarStep(buf: Frame, rot: Rotation, x0: int16, y0: int16, r: int, done: seq<Point>, o: Point, c: uint16)
    ensures PlotAll(buf, rot, SoFar(x0, y0, r, done + [o]), c)
         == PlotAll(PlotAll(buf, rot, SoFar(x0, y0, r, done), c), rot, AllAt(x0, y0, Mirrors(o)), c)
  {
    assert (done + [o])[..|done|] == done;
    assert Poles(r) + AllMirrors(done + [o]) == Poles(r) + AllMirrors(done) + Mirrors(o);
    AllAtConcat(x0, y0, Poles(r) + AllMirrors(done), Mirrors(o));
    PlotAllConcat(buf, rot, SoFar(x0, y0, r, done), AllAt(x0, y0, Mirrors(o)), c);
  }

  /** The accumulator updates that open each iteration of the circle loops. */
  method Accumulate(ghost r: int, x0: int16, y0: int16, f0: int16, ddFx0: int16, ddFy0: int16)
    returns (x: int16, y: int16, f: int16, ddFx: int16, ddFy: int16)
    requires Accumulated(r, x0, y0, f0, ddFx0, ddFy0) && x0 < y0 && r <= 0x4000
    ensures Accumulated(r, x, y, f, ddFx, ddFy)
    ensures x == x0 + 1 && y == NextY(r, x0, y0)
  {
    AccumulatorRange(r, x0, y0, f0, ddFx0, ddFy0);
    AccumulatorStep(r, x0, y0, f0, ddFx0, ddFy0);
    x, y, f, ddFx, ddFy := x0, y0, f0, ddFx0, ddFy0;
    if f >= 0 {
      y := Wrap16(y - 1);
      ddFy := Wrap16(ddFy + 2);
      f := Wrap16(f + ddFy);
    }
    x := Wrap16(x + 1);
    ddFx := Wrap16(ddFx + 2);
    f := Wrap16(f + ddFx);
  }

  lemma OctantUnfolds(r: int, x: int, y: int, o: Point, done: seq<Point>)
    requires x < y && o == Point(x + 1, NextY(r, x, y))
    ensures done + [o] + Octant(r, o.x, o.y) == done + Octant(r, x, y)
  {
  }

  /** The same updates, as progress through the octant. */
  method Step(ghost r: int, x0: int16, y0: int16, f0: int16, ddFx0: int16, ddFy0: int16, ghost done: seq<Point>)
    returns (x: int16, y: int16, f: int16, ddFx: int16, ddFy: int16)
    requires Accumulated(r, x0, y0, f0, ddFx0, ddFy0) && x0 < y0 && r <= 0x4000
    ensures Accumulated(r, x, y, f, ddFx, ddFy) && x == x0 + 1 && y <= y0
    ensures done + [Point(x, y)] + Octant(r, x, y) == done + Octant(r, x0, y0)
  {
    x, y, f, ddFx, ddFy := Accumulate(r, x0, y0, f0, ddFx0, ddFy0);
    OctantUnfolds(r, x0, y0, Point(x, y), done);
  }

  /** The drawPixel calls of an iteration that reaches (x, y), after those for `done`. */
  method PlotOffset(d: Display, x0: int16, y0: int16, ghost r: int, x: int, y: int, color: uint16,
                    ghost was: Frame, ghost done: seq<Point>)
    requires d.Valid() && d.Pixels() == PlotAll(was, d.rotation, SoFar(x0, y0, r, done), color)
    modifies d.buffer
    ensures d.Valid() && d.Pixels() == PlotAll(was, d.rotation, SoFar(x0, y0, r, done + [Point(x, y)]), color)
  {
    SoFarStep(was, d.rotation, x0, y0, r, done, Point(x, y), color);
    PlotMirrors(d, x0, y0, x, y, color);
  }

  method PlotPoles(d: Display, x0: int16, y0: int16, r: int16, color: uint16)
    requires d.Valid()
    modifies d.buffer
    ensures d.Valid() && d.Pixels() == PlotAll(old(d.Pixels()), d.rotation, SoFar(x0, y0, r, []), color)
  {
    ghost var was, poles := d.Pixels(), SoFar(x0, y0, r, []);
    d.DrawNext(x0, Wrap16(y0 + r), color, was, poles, 0);
    d.DrawNext(x0, Wrap16(y0 - r), color, was, poles, 1);
    d.DrawNext(Wrap16(x0 + r), y0, color, was, poles, 2);
    d.DrawNext(Wrap16(x0 - r), y0, color, was, poles, 3);
    assert poles[..4] == poles;
  }

  /** One iteration of the loop: the accumulators, then the pixels of the offset reached. */
  method NextOffset(d: Display, x0: int16, y0: int16, ghost r: int, xa: int16, ya: int16, fa: int16,
                    ddFxa: int16, ddFya: int16, color: uint16, ghost was: Frame, ghost done: seq<Point>)
    returns (x: int16, y: int16, f: int16, ddFx: int16, ddFy: int16, ghost done': seq<Point>)
    requires Accumulated(r, xa, ya, fa, ddFxa, ddFya) && xa < ya && r <= 0x4000
    requires d.Valid() && d.Pixels() == PlotAll(was, d.rotation, SoFar(x0, y0, r, done), color)
    modifies d.buffer
    ensures Accumulated(r, x, y, f, ddFx, ddFy) && x == xa + 1 && y <= ya
    ensures done' + Octant(r, x, y) == done + Octant(r, xa, ya)
    ensures d.Valid() && d.Pixels() == PlotAll(was, d.rotation, SoFar(x0, y0, r, done'), color)
  {
    x, y, f, ddFx, ddFy := Step(r, xa, ya, fa, ddFxa, ddFya, done);
    PlotOffset(d, x0, y0, r, x, y, color, was, done);
    done' := done + [Point(x, y)];
  }

  /** For every centre and every radius up to the largest whose double fits in 16 bits. */
  method DrawCircle(d: Display, x0: int16, y0: int16, r: int16, color: uint16)
    requires d.Valid() && r <= 0x4000
    modifies d.buffer
    ensures d.Valid()
    ensures d.Pixels() == PlotAll(old(d.Pixels()), d.rotation, CirclePoints(x0, y0, r), color)
  {
    ghost var was, done: seq<Point> := d.Pixels(), [];
    var f: int16 := Wrap16(1 - r);
    var ddFx: int16 := 1;
    var ddFy: int16 := Wrap16(-2 * r);
    var x: int16, y: int16 := 0, r;
    PlotPoles(d, x0, y0, r, color);
    while x < y
      invariant r >= 0 ==> Accumulated(r, x, y, f, ddFx, ddFy)
      invariant r < 0 ==> y < x
      invariant done + Octant(r, x, y) == Octant(r, 0, r)
      invariant d.Valid() && d.Pixels() == PlotAll(was, d.rotation, SoFar(x0, y0, r, done), color)
      decreases y - x
    {
      x, y, f, ddFx, ddFy, done := NextOffset(d, x0, y0, r, x, y, f, ddFx, ddFy, color, was, done);
    }
    assert done == Octant(r, 0, r);
  }

  // ----- fillCircle

  /** One drawFastVLine call. */
  datatype Column = Column(x: int16, y: int16, h: int16)

  function FastColumns(buf: Frame, rot: Rotation, cols: seq<Column>, c: uint16): Frame {
    if cols == [] then buf
    else
      var last := cols[|cols| - 1];
      FastV(FastColumns(buf, rot, cols[..|cols| - 1], c), rot, last.x, last.y, last.h, c)
  }

  function ColumnAt(x0: int16, y0: int16, a: int, half: int, delta: int): Column {
    Column(Wrap16(x0 + a), Wrap16(y0 - half), Wrap16(2 * half + 1 + delta))
  }

  /** The two columns at offsets a and b, of half heights y and x. */
  function Pair(x0: int16, y0: int16, a: int, b: int, x: int, y: int, delta: int): seq<Column> {
    [ColumnAt(x0, y0, a, y, delta), ColumnAt(x0, y0, b, x, delta)]
  }

  function Half(asked: bool, x0: int16, y0: int16, a: int, b: int, x: int, y: int, delta: int): seq<Column> {
    if asked then Pair(x0, y0, a, b, x, y, delta) else []
  }

  /** The calls of one iteration: bit 0 of `cornername` asks for the right half of the circle
      and bit 1 for the left half. */
  function ColumnsOf(x0: int16, y0: int16, o: Point, cornername: bv8, delta: int): seq<Column> {
    Half(cornername & 1 != 0, x0, y0, o.x, o.y, o.x, o.y, delta)
    + Half(cornername & 2 != 0, x0, y0, -o.x, -o.y, o.x, o.y, delta)
  }

  function AllColumns(x0: int16, y0: int16, os: seq<Point>, cornername: bv8, delta: int): seq<Column> {
    if os == [] then []
    else AllColumns(x0, y0, os[..|os| - 1], cornername, delta) + ColumnsOf(x0, y0, os[|os| - 1], cornername, delta)
  }

  // Below, `cols` lists the calls made since the frame was `was`, and `done` those made by then.

  method DrawColumn(d: Display, x: int16, y: int16, h: int16, color: uint16,
                    ghost was: Frame, ghost cols: seq<Column>) returns (ghost done: seq<Column>)
    requires d.Valid() && d.Pixels() == FastColumns(was, d.rotation, cols, color)
    modifies d.buffer
    ensures d.Valid() && d.Pixels() == FastColumns(was, d.rotation, done, color)
    ensures done == cols + [Column(x, y, h)]
  {
    done := cols + [Column(x, y, h)];
    assert done[..|cols|] == cols;
    d.DrawFastVLine(x, y, h, color);
  }

  method DrawHalf(d: Display, asked: bool, x0: int16, y0: int16, a: int, b: int, x: int, y: int, delta: int,
                  color: uint16, ghost was: Frame, ghost cols: seq<Column>) returns (ghost done: seq<Column>)
    requires d.Valid() && d.Pixels() == FastColumns(was, d.rotation, cols, color)
    modifies d.buffer
    ensures d.Valid() && d.Pixels() == FastColumns(was, d.rotation, done, color)
    ensures done == cols + Half(asked, x0, y0, a, b, x, y, delta)
  {
    done := cols;
    if asked {
      done := DrawColumn(d, Wrap16(x0 + a), Wrap16(y0 - y), Wrap16(2 * y + 1 + delta), color, was, done);
      done := DrawColumn(d, Wrap16(x0 + b), Wrap16(y0 - x), Wrap16(2 * x + 1 + delta), color, was, done);
    }
  }

  lemma BothHalves(cols: seq<Column>, x0: int16, y0: int16, x: int, y: int, cornername: bv8, delta: int)
    ensures cols + Half(cornername & 1 != 0, x0, y0, x, y, x, y, delta)
              + Half(cornername & 2 != 0, x0, y0, 0 - x, 0 - y, x, y, delta)
         == cols + ColumnsOf(x0, y0, Point(x, y), cornername, delta)
  {
  }

  method DrawColumns(d: Display, x0: int16, y0: int16, x: int, y: int, cornername: bv8, delta: int,
                     color: uint16, ghost was: Frame, ghost cols: seq<Column>) returns (ghost done: seq<Column>)
    requires d.Valid() && d.Pixels() == FastColumns(was, d.rotation, cols, color)
    modifies d.buffer
    ensures d.Valid() && d.Pixels() == FastColumns(was, d.rotation, done, color)
    ensures done == cols + ColumnsOf(x0, y0, Point(x, y), cornername, delta)
  {
    done := DrawHalf(d, cornername & 1 != 0, x0, y0, x, y, x, y, delta, color, was, cols);
    done := DrawHalf(d, cornername & 2 != 0, x0, y0, 0 - x, 0 - y, x, y, delta, color, was, done);
    BothHalves(cols, x0, y0, x, y, cornername, delta);
  }

  lemma ColumnsStep(x0: int16, y0: int16, cols: seq<Column>, os: seq<Point>, o: Point, cornername: bv8, delta: int)
    ensures cols + AllColumns(x0, y0, os + [o], cornername, delta)
         == cols + AllColumns(x0, y0, os, cornername, delta) + ColumnsOf(x0, y0, o, cornername, delta)
  {
    assert (os + [o])[..|os|] == os;
  }

  method FillCircleHelper(d: Display, x0: int16, y0: int16, r: int16, cornername: bv8, delta: int16, color: uint16,
                          ghost was: Frame, ghost cols: seq<Column>) returns (ghost done: seq<Column>)
    requires d.Valid() && r <= 0x4000 && d.Pixels() == FastColumns(was, d.rotation, cols, color)
    modifies d.buffer
    ensures d.Valid() && d.Pixels() == FastColumns(was, d.rotation, done, color)
    ensures done == cols + AllColumns(x0, y0, Octant(r, 0, r), cornername, delta)
  {
    var f: int16 := Wrap16(1 - r);
    var ddFx: int16 := 1;
    var ddFy: int16 := Wrap16(-2 * r);
    var x: int16, y: int16 := 0, r;
    ghost var os: seq<Point> := [];
    done := cols;
    while x < y
      invariant r >= 0 ==> Accumulated(r, x, y, f, ddFx, ddFy)
      invariant r < 0 ==> y < x
      invariant os + Octant(r, x, y) == Octant(r, 0, r)
      invariant d.Valid() && d.Pixels() == FastColumns(was, d.rotation, done, color)
      invariant done == cols + AllColumns(x0, y0, os, cornername, delta)
      decreases y - x
    {
      x, y, f, ddFx, ddFy := Step(r, x, y, f, ddFx, ddFy, os);
      ColumnsStep(x0, y0, cols, os, Point(x, y), cornername, delta);
      done := DrawColumns(d, x0, y0, x, y, cornername, delta, color, was, done);
      os := os + [Point(x, y)];
    }
    assert os == Octant(r, 0, r);
  }

  /** The calls of fillCircle: the central column, then both halves. */
  function DiscColumns(x0: int16, y0: int16, r: int): seq<Column> {
    [ColumnAt(x0, y0, 0, r, 0)] + AllColumns(x0, y0, Octant(r, 0, r), 3, 0)
  }

  method FillCircle(d: Display, x0: int16, y0: int16, r: int16, color: uint16)
    requires d.Valid() && r <= 0x4000
    modifies d.buffer
    ensures d.Valid()
    ensures d.Pixels() == FastColumns(old(d.Pixels()), d.rotation, DiscColumns(x0, y0, r), color)
  {
    ghost var was := d.Pixels();
    ghost var cols := DrawColumn(d, x0, Wrap16(y0 - r), Wrap16(2 * r + 1), color, was, []);
    cols := FillCircleHelper(d, x0, y0, r, 3, 0, color, was, cols);
    assert cols == DiscColumns(x0, y0, r);
  }

  /** For a negative radius only the central column is asked for, with a negative length, which
      draws nothing unless it wraps. */
  lemma NegativeDisc(buf: Frame, rot: Rotation, x0: int16, y0: int16, r: int, c: uint16)
    requires -0x4000 <= r < 0 && Faithful(VRoute(rot, x0, Wrap16(y0 - r), 2 * r + 1), 2 * r + 1, c)
    ensures FastColumns(buf, rot, DiscColumns(x0, y0, r), c) == buf
  {
    assert AllColumns(x0, y0, Octant(r, 0, r), 3, 0) == [];
    var centre := ColumnAt(x0, y0, 0, r, 0);
    assert DiscColumns(x0, y0, r) == [centre] && [centre][..0] == [];
    FastVIsPixelLoop(buf, rot, x0, Wrap16(y0 - r), 2 * r + 1, c);
  }
}
