// Exactly when the SSD1306 overrides of the fast lines draw what Adafruit_GFX's default ones do.
module GfxOverrides {
  import opened CInt
  import opened Panel
  import opened Spans
  import opened Ssd1306
  import opened GfxLines
  import opened GfxRects

  // ----- a routed run against a list of points

  ghost predicate SamePanelPixels(rot: Rotation, route: Route, len: int16, pts: seq<Point>) {
    forall q :: OnPanel(q) ==> (Reaches(route, len, q) <==> Hits(pts, FromPanel(rot, q)) > 0)
  }

  /** A run draws a list without repeats, on every frame, exactly when both cover the same pixels. */
  lemma RunDrawsList(rot: Rotation, route: Route, len: int16, pts: seq<Point>, c: uint16)
    requires c <= INVERSE && forall p :: Hits(pts, p) <= 1
    ensures (forall buf: Frame :: Draw(buf, route, len, c) == PlotAll(buf, rot, pts, c))
       <==> SamePanelPixels(rot, route, len, pts)
  {
    if SamePanelPixels(rot, route, len, pts) {
      forall buf: Frame ensures Draw(buf, route, len, c) == PlotAll(buf, rot, pts, c) {
        forall q | OnPanel(q) ensures Lit(Draw(buf, route, len, c), q) == Lit(PlotAll(buf, rot, pts, c), q) {
          DrawLit(buf, route, len, c, q);
          PlotAllLit(buf, rot, pts, c, q);
        }
        SamePixels(Draw(buf, route, len, c), PlotAll(buf, rot, pts, c));
      }
    } else {
      var q :| OnPanel(q) && !(Reaches(route, len, q) <==> Hits(pts, FromPanel(rot, q)) > 0);
      var buf := OneTells(rot, route, len, pts, c, q);
      assert Draw(buf, route, len, c) != PlotAll(buf, rot, pts, c);
    }
  }

  /** On a frame of the opposite colour a pixel covered by only one of the two shows. */
  lemma OneTells(rot: Rotation, route: Route, len: int16, pts: seq<Point>, c: uint16, q: Point) returns (buf: Frame)
    requires c <= INVERSE && OnPanel(q) && Hits(pts, FromPanel(rot, q)) <= 1
    requires !(Reaches(route, len, q) <==> Hits(pts, FromPanel(rot, q)) > 0)
    ensures Draw(buf, route, len, c) != PlotAll(buf, rot, pts, c)
  {
    var fill: bv8 := if c == BLACK then 0xFF else 0x00;
    buf := seq(BUFFER_SIZE, _ => fill);
    DrawLit(buf, route, len, c, q);
    PlotAllLit(buf, rot, pts, c, q);
    BitMaskSet(q.y % 8, q.y % 8);
    assert Lit(buf, q) == (c == BLACK);
  }

  // ----- one axis

  /** Panel coordinate k of a caller's coordinate, on an axis that may be mirrored. */
  function OnAxis(limit: int, mirrored: bool, k: int): int {
    if mirrored then limit - 1 - k else k
  }

  /** The start of a run of `len` pixels from s on, in panel coordinates before the 16-bit cut. */
  function RunStart(limit: int, mirrored: bool, s: int, len: int): int {
    if mirrored then limit - s - len else s
  }

  /** For a length below one, the pixels the default line draws, s + len - 1 to s, are those of
      the clipped run exactly when there are none on the axis and the run does not wrap; else
      the two differ at k. */
  lemma ShortRunOnAxis(limit: int, mirrored: bool, s: int16, len: int16, start: int16) returns (k: int)
    requires len < 1 && (limit == WIDTH || limit == HEIGHT) && start == Wrap16(RunStart(limit, mirrored, s, len))
    ensures 0 <= k < limit
    ensures if LengthWraps(start, len) || (0 <= s && s + len - 1 < limit)
            then !(Covers(Clip(start, len, limit), k) <==> s + len - 1 <= OnAxis(limit, mirrored, k) <= s)
            else forall j :: 0 <= j < limit ==>
                   !Covers(Clip(start, len, limit), j) && !(s + len - 1 <= OnAxis(limit, mirrored, j) <= s)
  {
    if LengthWraps(start, len) {
      k := if mirrored && s == limit - 1 then limit - 1 else 0;
    } else {
      k := OnAxis(limit, mirrored, Max(0, Min(s, limit - 1)));
    }
  }

  // ----- the panel pixels of a route

  function Along(route: Route, q: Point): int {
    if route.column then q.y else q.x
  }

  function Across(route: Route, q: Point): int {
    if route.column then q.x else q.y
  }

  function Length(route: Route): int {
    if route.column then HEIGHT else WIDTH
  }

  function Breadth(route: Route): int {
    if route.column then WIDTH else HEIGHT
  }

  /** `pts` has no repeats, and on the panel it is s + len - 1 to s along the route. */
  ghost predicate IsShortRun(rot: Rotation, route: Route, mirrored: bool, s: int, len: int, pts: seq<Point>) {
    && (forall p :: Hits(pts, p) <= 1)
    && forall q :: OnPanel(q) ==>
         (Hits(pts, FromPanel(rot, q)) > 0
          <==> Across(route, q) == route.fixed && s + len - 1 <= OnAxis(Length(route), mirrored, Along(route, q)) <= s)
  }

  lemma ShortRunExact(rot: Rotation, route: Route, mirrored: bool, s: int16, len: int16, pts: seq<Point>, c: uint16)
    requires c <= INVERSE && len < 1 && IsShortRun(rot, route, mirrored, s, len, pts)
    requires route.start == Wrap16(RunStart(Length(route), mirrored, s, len))
    ensures (forall buf: Frame :: Draw(buf, route, len, c) == PlotAll(buf, rot, pts, c))
       <==> Faithful(route, len, c) && !(0 <= route.fixed < Breadth(route) && 0 <= s && s + len - 1 < Length(route))
  {
    RunDrawsList(rot, route, len, pts, c);
    var k := ShortRunOnAxis(Length(route), mirrored, s, len, route.start);
    if 0 <= route.fixed < Breadth(route) {
      var q := if route.column then Point(route.fixed, k) else Point(k, route.fixed);
      assert OnPanel(q) && Along(route, q) == k && Across(route, q) == route.fixed;
    }
  }

  // ----- the two routines

  function ScreenWidth(rot: Rotation): int {
    if rot % 2 == 0 then WIDTH else HEIGHT
  }

  function ScreenHeight(rot: Rotation): int {
    if rot % 2 == 0 then HEIGHT else WIDTH
  }

  lemma MirrorOnAxis(n: int, x: int16)
    requires 0 < n <= WIDTH
    ensures 0 <= Wrap16(n - x - 1) < n <==> 0 <= x < n
  {
  }

  lemma VerticalIsShortRun(rot: Rotation, x: int16, y: int16, h: int16)
    requires h < 1
    ensures IsShortRun(rot, VRoute(rot, x, y, h), rot == 1 || rot == 2, y, h, VRun(x, y + h - 1, 2 - h))
  {
    var pts, route := VRun(x, y + h - 1, 2 - h), VRoute(rot, x, y, h);
    forall p ensures Hits(pts, p) == if p.x == x && y + h - 1 <= p.y <= y then 1 else 0 {
      VRunCount(x, y + h - 1, 2 - h, p);
    }
    forall q | OnPanel(q) ensures Across(route, q) == route.fixed <==> FromPanel(rot, q).x == x {
      if rot == 2 { MirrorHits(WIDTH, x, q.x); }
      if rot == 3 { MirrorHits(HEIGHT, x, q.y); }
    }
  }

  lemma HorizontalIsShortRun(rot: Rotation, x: int16, y: int16, w: int16)
    requires w < 1
    ensures IsShortRun(rot, HRoute(rot, x, y, w), rot == 2 || rot == 3, x, w, HRun(x + w - 1, y, 2 - w))
  {
    var pts, route := HRun(x + w - 1, y, 2 - w), HRoute(rot, x, y, w);
    forall p ensures Hits(pts, p) == if p.y == y && x + w - 1 <= p.x <= x then 1 else 0 {
      HRunCount(x + w - 1, y, 2 - w, p);
    }
    forall q | OnPanel(q) ensures Across(route, q) == route.fixed <==> FromPanel(rot, q).y == y {
      if rot == 1 { MirrorHits(WIDTH, y, q.x); }
      if rot == 2 { MirrorHits(HEIGHT, y, q.y); }
    }
  }

  lemma VRouteShape(rot: Rotation, x: int16, y: int16, h: int16)
    ensures var route := VRoute(rot, x, y, h);
            && Length(route) == ScreenHeight(rot) && Breadth(route) == ScreenWidth(rot)
            && route.start == Wrap16(RunStart(Length(route), rot == 1 || rot == 2, y, h))
            && (0 <= route.fixed < Breadth(route) <==> 0 <= x < ScreenWidth(rot))
  {
    if rot == 1 || rot == 2 { WrapTwice(ScreenHeight(rot) - y - 1, h - 1); }
    MirrorOnAxis(ScreenWidth(rot), x);
  }

  lemma HRouteShape(rot: Rotation, x: int16, y: int16, w: int16)
    ensures var route := HRoute(rot, x, y, w);
            && Length(route) == ScreenWidth(rot) && Breadth(route) == ScreenHeight(rot)
            && route.start == Wrap16(RunStart(Length(route), rot == 2 || rot == 3, x, w))
            && (0 <= route.fixed < Breadth(route) <==> 0 <= y < ScreenHeight(rot))
  {
    if rot == 2 || rot == 3 { WrapTwice(ScreenWidth(rot) - x - 1, w - 1); }
    MirrorOnAxis(ScreenHeight(rot), y);
  }

  predicate ColumnAgrees(rot: Rotation, x: int16, y: int16, h: int16, c: uint16) {
    || h >= 1
    || (Faithful(VRoute(rot, x, y, h), h, c)
        && !(0 <= x < ScreenWidth(rot) && 0 <= y && y + h - 1 < ScreenHeight(rot)))
  }

  predicate RowAgrees(rot: Rotation, x: int16, y: int16, w: int16, c: uint16) {
    || w >= 1
    || (Faithful(HRoute(rot, x, y, w), w, c)
        && !(0 <= y < ScreenHeight(rot) && 0 <= x && x + w - 1 < ScreenWidth(rot)))
  }

  /** The override draws what the default drawFastVLine draws, on every frame, exactly for
      lengths from one up, and for shorter ones when the run does not wrap and the 2 - h pixels
      the default draws anyway are off the screen; for every line the default can walk. */
  lemma VerticalAgreesExactly(rot: Rotation, x: int16, y: int16, h: int16, c: uint16)
    requires c <= INVERSE && ColumnFits(x, y, h)
    ensures (forall buf: Frame :: FastV(buf, rot, x, y, h, c) == PlotAll(buf, rot, LinePoints(x, y, x, y + h - 1), c))
       <==> ColumnAgrees(rot, x, y, h, c)
  {
    VerticalLine(x, y, h);
    if h >= 1 {
      FastVExact(rot, x, y, h, c);
    } else {
      assert forall buf: Frame :: FastV(buf, rot, x, y, h, c) == Draw(buf, VRoute(rot, x, y, h), h, c);
      VRouteShape(rot, x, y, h);
      VerticalIsShortRun(rot, x, y, h);
      ShortRunExact(rot, VRoute(rot, x, y, h), rot == 1 || rot == 2, y, h, VRun(x, y + h - 1, 2 - h), c);
    }
  }

  /** The same for the default drawFastHLine. */
  lemma HorizontalAgreesExactly(rot: Rotation, x: int16, y: int16, w: int16, c: uint16)
    requires c <= INVERSE && RowFits(x, y, w)
    ensures (forall buf: Frame :: FastH(buf, rot, x, y, w, c) == PlotAll(buf, rot, LinePoints(x, y, x + w - 1, y), c))
       <==> RowAgrees(rot, x, y, w, c)
  {
    HorizontalLine(x, y, w);
    if w >= 1 {
      FastHExact(rot, x, y, w, c);
    } else {
      assert forall buf: Frame :: FastH(buf, rot, x, y, w, c) == Draw(buf, HRoute(rot, x, y, w), w, c);
      HRouteShape(rot, x, y, w);
      HorizontalIsShortRun(rot, x, y, w);
      ShortRunExact(rot, HRoute(rot, x, y, w), rot == 2 || rot == 3, x, w, HRun(x + w - 1, y, 2 - w), c);
    }
  }

  lemma ColumnEitherWay(buf: Frame, rot: Rotation, x: int16, y: int16, h: int16, c: uint16)
    requires c <= INVERSE && ColumnFits(x, y, h)
    ensures ColumnAgrees(rot, x, y, h, c) ==>
              FastV(buf, rot, x, y, h, c)
              == PlotAll(buf, rot, if h >= 1 then VRun(x, y, h) else VRun(x, y + h - 1, 2 - h), c)
  {
    VerticalLine(x, y, h);
    VerticalAgreesExactly(rot, x, y, h, c);
  }

  lemma RowEitherWay(buf: Frame, rot: Rotation, x: int16, y: int16, w: int16, c: uint16)
    requires c <= INVERSE && RowFits(x, y, w)
    ensures RowAgrees(rot, x, y, w, c) ==>
              FastH(buf, rot, x, y, w, c)
              == PlotAll(buf, rot, if w >= 1 then HRun(x, y, w) else HRun(x + w - 1, y, 2 - w), c)
  {
    HorizontalLine(x, y, w);
    HorizontalAgreesExactly(rot, x, y, w, c);
  }

  /** Both routines on two displays that show the same picture. */
  method DrawColumnBothWays(d: Display, e: Display, x: int16, y: int16, h: int16, color: uint16)
    requires d.Valid() && e.Valid() && d.buffer != e.buffer && color <= INVERSE && ColumnFits(x, y, h)
    requires d.rotation == e.rotation && d.Pixels() == e.Pixels()
    modifies d.buffer, e.buffer
    ensures d.Valid() && e.Valid()
    ensures ColumnAgrees(d.rotation, x, y, h, color) ==> d.Pixels() == e.Pixels()
    ensures h < 1 ==> d.Pixels() == PlotAll(old(d.Pixels()), d.rotation, VRun(x, y + h - 1, 2 - h), color)
    ensures e.Pixels() == FastV(old(e.Pixels()), e.rotation, x, y, h, color)
  {
    ColumnEitherWay(d.Pixels(), d.rotation, x, y, h, color);
    GenericFastVLine(d, x, y, h, color);
    e.DrawFastVLine(x, y, h, color);
  }

  method DrawRowBothWays(d: Display, e: Display, x: int16, y: int16, w: int16, color: uint16)
    requires d.Valid() && e.Valid() && d.buffer != e.buffer && color <= INVERSE && RowFits(x, y, w)
    requires d.rotation == e.rotation && d.Pixels() == e.Pixels()
    modifies d.buffer, e.buffer
    ensures d.Valid() && e.Valid()
    ensures RowAgrees(d.rotation, x, y, w, color) ==> d.Pixels() == e.Pixels()
    ensures w < 1 ==> d.Pixels() == PlotAll(old(d.Pixels()), d.rotation, HRun(x + w - 1, y, 2 - w), color)
    ensures e.Pixels() == FastH(old(e.Pixels()), e.rotation, x, y, w, color)
  {
    RowEitherWay(d.Pixels(), d.rotation, x, y, w, color);
    GenericFastHLine(d, x, y, w, color);
    e.DrawFastHLine(x, y, w, color);
  }
}
