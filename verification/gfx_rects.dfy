// Adafruit_GFX's default horizontal and vertical lines (Bresenham) against the SSD1306
// overrides, and rectangle filling through the override.
module GfxRects {
  import opened CInt
  import opened Panel
  import opened Spans
  import opened Ssd1306
  import opened GfxLines

  // ----- the default drawFastVLine and drawFastHLine

  /** The end of the line that the default routine hands to drawLine fits 16 bits, and so does
      the walk to it. */
  predicate ColumnFits(x: int16, y: int16, h: int16) {
    -0x8000 <= y + h - 1 < 0x8000 && LineFits(x, y, x, y + h - 1)
  }

  predicate RowFits(x: int16, y: int16, w: int16) {
    -0x8000 <= x + w - 1 < 0x8000 && LineFits(x, y, x + w - 1, y)
  }

  method GenericFastVLine(d: Display, x: int16, y: int16, h: int16, color: uint16)
    requires d.Valid() && ColumnFits(x, y, h)
    modifies d.buffer
    ensures d.Valid()
    ensures h >= 1 ==> d.Pixels() == PlotAll(old(d.Pixels()), d.rotation, VRun(x, y, h), color)
    ensures h < 1 ==> d.Pixels() == PlotAll(old(d.Pixels()), d.rotation, VRun(x, y + h - 1, 2 - h), color)
  {
    VerticalLine(x, y, h);
    var y1 := Wrap16(y + h - 1);
    ghost var pts := LinePoints(x, y, x, y1);
    assert pts == if h >= 1 then VRun(x, y, h) else VRun(x, y + h - 1, 2 - h);
    DrawLine(d, x, y, x, y1, color);
  }

  method GenericFastHLine(d: Display, x: int16, y: int16, w: int16, color: uint16)
    requires d.Valid() && RowFits(x, y, w)
    modifies d.buffer
    ensures d.Valid()
    ensures w >= 1 ==> d.Pixels() == PlotAll(old(d.Pixels()), d.rotation, HRun(x, y, w), color)
    ensures w < 1 ==> d.Pixels() == PlotAll(old(d.Pixels()), d.rotation, HRun(x + w - 1, y, 2 - w), color)
  {
    HorizontalLine(x, y, w);
    var x1 := Wrap16(x + w - 1);
    assert x1 == x + w - 1;
    DrawLine(d, x, y, x1, y, color);
  }

  lemma {:induction false} VRunAt(x: int, y: int, h: int, i: nat)
    requires i < h
    ensures VRun(x, y, h)[i] == Point(x, y + i)
  {
    if i < h - 1 { VRunAt(x, y, h - 1, i); }
  }

  lemma {:induction false} HRunAt(x: int, y: int, w: int, i: nat)
    requires i < w
    ensures HRun(x, y, w)[i] == Point(x + i, y)
  {
    if i < w - 1 { HRunAt(x, y, w - 1, i); }
  }

  lemma FlatRise(dx: int, i: int)
    requires 0 <= i <= dx
    ensures Rise(dx, 0, i) == 0
  {
    RiseBounds(dx, 0, i);
  }

  /** A vertical Bresenham line is a run downwards from its upper end; a length below one
      makes it a run of 2 - h pixels that ends at y. */
  lemma VerticalLine(x: int, y: int, h: int)
    ensures LinePoints(x, y, x, y + h - 1) == if h >= 1 then VRun(x, y, h) else VRun(x, y + h - 1, 2 - h)
  {
    var pts, top, n := LinePoints(x, y, x, y + h - 1), Min(y, y + h - 1), Abs(h - 1) + 1;
    forall i: nat | i < n ensures pts[i] == VRun(x, top, n)[i] {
      FlatRise(n - 1, i);
      VRunAt(x, top, n, i);
    }
  }

  lemma HorizontalLine(x: int, y: int, w: int)
    ensures LinePoints(x, y, x + w - 1, y) == if w >= 1 then HRun(x, y, w) else HRun(x + w - 1, y, 2 - w)
  {
    var pts, left, n := LinePoints(x, y, x + w - 1, y), Min(x, x + w - 1), Abs(w - 1) + 1;
    forall i: nat | i < n ensures pts[i] == HRun(left, y, n)[i] {
      FlatRise(n - 1, i);
      HRunAt(left, y, n, i);
    }
  }

  /** The default lines and the SSD1306 overrides draw the same frame for every length >= 1 whose
      line the default can walk in 16 bits. */
  lemma OverrideAgreesWithDefault(buf: Frame, rot: Rotation, x: int16, y: int16, n: int16, c: uint16)
    requires n >= 1 && c <= INVERSE
    ensures ColumnFits(x, y, n) ==>
              FastV(buf, rot, x, y, n, c) == PlotAll(buf, rot, LinePoints(x, y, x, y + n - 1), c)
    ensures RowFits(x, y, n) ==>
              FastH(buf, rot, x, y, n, c) == PlotAll(buf, rot, LinePoints(x, y, x + n - 1, y), c)
  {
    VerticalLine(x, y, n);
    HorizontalLine(x, y, n);
    FastVExact(rot, x, y, n, c);
    FastHExact(rot, x, y, n, c);
  }

  /** The restriction to lengths >= 1 is needed: asked for no pixels the default draws two. */
  lemma DefaultDrawsEmptyLines(buf: Frame, x: int16, y: int16, h: int16)
    requires h == 0 && OnPanel(Point(x, y)) && !Lit(buf, Point(x, y))
    ensures FastV(buf, 0, x, y, h, WHITE) == buf
    ensures PlotAll(buf, 0, LinePoints(x, y, x, y + h - 1), WHITE) != buf
  {
    FastVExact(0, x, y, h, WHITE);
    VerticalLine(x, y, h);
    var pts, p := VRun(x, y + h - 1, 2 - h), Point(x, y);
    PlotAllLit(buf, 0, pts, WHITE, p);
    VRunCount(x, y + h - 1, 2 - h, p);
    assert Lit(PlotAll(buf, 0, pts, WHITE), p);
  }

  // ----- fillRect

  function RectPoints(x: int, y: int, w: int, h: int): (pts: seq<Point>)
    decreases Max(w, 0)
  {
    if w <= 0 then [] else RectPoints(x, y, w - 1, h) + VRun(x + w - 1, y, h)
  }

  /** The points of a rectangle, each exactly once. */
  lemma {:induction false} RectCount(x: int, y: int, w: int, h: int, p: Point)
    ensures Hits(RectPoints(x, y, w, h), p) == if x <= p.x < x + w && y <= p.y < y + h then 1 else 0
    decreases Max(w, 0)
  {
    if w > 0 {
      var left, last := RectPoints(x, y, w - 1, h), VRun(x + w - 1, y, h);
      RectCount(x, y, w - 1, h, p);
      VRunCount(x + w - 1, y, h, p);
      HitsConcat(left, last, p);
    }
  }

  /** drawFastVLine for each column in turn, whatever the length and colour. */
  function FastRect(buf: Frame, rot: Rotation, x: int16, y: int16, w: int, h: int16, c: uint16): Frame
    requires x + w <= 0x8000
    decreases Max(w, 0)
  {
    if w <= 0 then buf else FastV(FastRect(buf, rot, x, y, w - 1, h, c), rot, x + w - 1, y, h, c)
  }

  lemma FastRectStep(buf: Frame, rot: Rotation, x: int16, y: int16, w: nat, h: int16, c: uint16)
    requires x + w < 0x8000
    ensures FastRect(buf, rot, x, y, w + 1, h, c) == FastV(FastRect(buf, rot, x, y, w, h, c), rot, x + w, y, h, c)
  {
  }

  lemma {:induction false} FastRectIsPixelLoop(buf: Frame, rot: Rotation, x: int16, y: int16, w: int, h: int16,
                                               c: uint16)
    requires x + w <= 0x8000
    requires forall i: int16 :: x <= i < x + w ==> Faithful(VRoute(rot, i, y, h), h, c)
    ensures FastRect(buf, rot, x, y, w, h, c) == PlotAll(buf, rot, RectPoints(x, y, w, h), c)
    decreases Max(w, 0)
  {
    if w > 0 {
      FastRectIsPixelLoop(buf, rot, x, y, w - 1, h, c);
      PlotAllConcat(buf, rot, RectPoints(x, y, w - 1, h), VRun(x + w - 1, y, h), c);
      FastVIsPixelLoop(FastRect(buf, rot, x, y, w - 1, h, c), rot, x + w - 1, y, h, c);
    }
  }

  lemma RectIsDrawn(buf: Frame, rot: Rotation, x: int16, y: int16, w: int, h: int16, c: uint16)
    requires x + w <= 0x8000
    ensures (forall i: int16 :: x <= i < x + w ==> Faithful(VRoute(rot, i, y, h), h, c)) || (h >= 0 && c <= INVERSE)
        ==> FastRect(buf, rot, x, y, w, h, c) == PlotAll(buf, rot, RectPoints(x, y, w, h), c)
  {
    if h >= 0 && c <= INVERSE {
      forall i: int16 | x <= i < x + w ensures Faithful(VRoute(rot, i, y, h), h, c) {
        FastVExact(rot, i, y, h, c);
      }
    }
    if forall i: int16 :: x <= i < x + w ==> Faithful(VRoute(rot, i, y, h), h, c) {
      FastRectIsPixelLoop(buf, rot, x, y, w, h, c);
    }
  }

  /** One column of the rectangle that starts at x. */
  method DrawColumn(d: Display, ghost x: int16, i: int16, y: int16, h: int16, color: uint16, ghost was: Frame)
    requires d.Valid() && x <= i < 0x7FFF && d.Pixels() == FastRect(was, d.rotation, x, y, i - x, h, color)
    modifies d.buffer
    ensures d.Valid() && d.Pixels() == FastRect(was, d.rotation, x, y, i - x + 1, h, color)
  {
    FastRectStep(was, d.rotation, x, y, i - x, h, color);
    d.DrawFastVLine(i, y, h, color);
  }

  /** The 16-bit loop counter must be able to pass the right edge. */
  method FillRect(d: Display, x: int16, y: int16, w: int16, h: int16, color: uint16)
    requires d.Valid() && x + w < 0x8000
    modifies d.buffer
    ensures d.Valid() && d.Pixels() == FastRect(old(d.Pixels()), d.rotation, x, y, w, h, color)
    ensures (forall i: int16 :: x <= i < x + w ==> Faithful(VRoute(d.rotation, i, y, h), h, color))
        ==> d.Pixels() == PlotAll(old(d.Pixels()), d.rotation, RectPoints(x, y, w, h), color)
    ensures h >= 0 && color <= INVERSE
        ==> d.Pixels() == PlotAll(old(d.Pixels()), d.rotation, RectPoints(x, y, w, h), color)
  {
    ghost var was := d.Pixels();
    var i: int16 := x;
    while i < x + w
      invariant x <= i <= Max(x, x + w)
      invariant d.Valid() && d.Pixels() == FastRect(was, d.rotation, x, y, i - x, h, color)
    {
      DrawColumn(d, x, i, y, h, color, was);
      i := Wrap16(i + 1);
    }
    RectIsDrawn(was, d.rotation, x, y, w, h, color);
  }

  /** A filled rectangle changes each of its on-screen pixels once and no other pixel. */
  lemma RectLit(buf: Frame, rot: Rotation, x: int, y: int, w: int, h: int, c: uint16, q: Point)
    requires OnPanel(q)
    ensures Lit(PlotAll(buf, rot, RectPoints(x, y, w, h), c), q)
         == var p := FromPanel(rot, q);
            Paint(c, Lit(buf, q), if x <= p.x < x + w && y <= p.y < y + h then 1 else 0)
  {
    PlotAllLit(buf, rot, RectPoints(x, y, w, h), c, q);
    RectCount(x, y, w, h, FromPanel(rot, q));
  }

  /** How often an inverted rectangle flips a pixel, whatever the picture. */
  lemma {:induction false} FlipCount(rot: Rotation, x: int16, y: int16, w: int, h: int16, q: Point) returns (n: nat)
    requires x + w <= 0x8000 && OnPanel(q)
    ensures forall buf: Frame ::
              Lit(FastRect(buf, rot, x, y, w, h, INVERSE), q) == Paint(INVERSE, Lit(buf, q), n)
    decreases Max(w, 0)
  {
    if w <= 0 { return 0; }
    var m := FlipCount(rot, x, y, w - 1, h, q);
    var k := RunFlips(rot, x + w - 1, y, h, q);
    n := m + k;
    forall buf: Frame ensures Lit(FastRect(buf, rot, x, y, w, h, INVERSE), q) == Paint(INVERSE, Lit(buf, q), n) {
      var before := FastRect(buf, rot, x, y, w - 1, h, INVERSE);
      assert Lit(before, q) == Paint(INVERSE, Lit(buf, q), m);
      LastColumnFlips(buf, rot, x, y, w, h, q, before, m, k);
    }
  }

  lemma LastColumnFlips(buf: Frame, rot: Rotation, x: int16, y: int16, w: int, h: int16, q: Point,
                        before: Frame, m: nat, k: nat)
    requires 0 < w && x + w <= 0x8000 && OnPanel(q) && before == FastRect(buf, rot, x, y, w - 1, h, INVERSE)
    requires Lit(before, q) == Paint(INVERSE, Lit(buf, q), m)
    requires Lit(FastV(before, rot, x + w - 1, y, h, INVERSE), q) == Paint(INVERSE, Lit(before, q), k)
    ensures Lit(FastRect(buf, rot, x, y, w, h, INVERSE), q) == Paint(INVERSE, Lit(buf, q), m + k)
  {
    PaintAgain(INVERSE, Lit(buf, q), m, k);
  }

  lemma RunFlips(rot: Rotation, x: int16, y: int16, h: int16, q: Point) returns (k: nat)
    requires OnPanel(q)
    ensures forall buf: Frame :: Lit(FastV(buf, rot, x, y, h, INVERSE), q) == Paint(INVERSE, Lit(buf, q), k)
  {
    k := if Reaches(VRoute(rot, x, y, h), h, q) then 1 else 0;
    forall buf: Frame ensures Lit(FastV(buf, rot, x, y, h, INVERSE), q) == Paint(INVERSE, Lit(buf, q), k) {
      DrawLit(buf, VRoute(rot, x, y, h), h, INVERSE, q);
    }
  }

  /** Filling the same rectangle twice with INVERSE restores the frame, in every rotation and
      for every height, even one whose columns wrap. */
  lemma InvertingTwiceRestores(buf: Frame, rot: Rotation, x: int16, y: int16, w: int, h: int16)
    requires x + w <= 0x8000
    ensures FastRect(FastRect(buf, rot, x, y, w, h, INVERSE), rot, x, y, w, h, INVERSE) == buf
  {
    var once := FastRect(buf, rot, x, y, w, h, INVERSE);
    var twice := FastRect(once, rot, x, y, w, h, INVERSE);
    forall q | OnPanel(q) ensures Lit(twice, q) == Lit(buf, q) {
      var n := FlipCount(rot, x, y, w, h, q);
      assert Lit(once, q) == Paint(INVERSE, Lit(buf, q), n) && Lit(twice, q) == Paint(INVERSE, Lit(once, q), n);
    }
    SamePixels(twice, buf);
  }
}
