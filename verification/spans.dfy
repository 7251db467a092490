// What a clipped horizontal or vertical span does to the packed buffer, byte by byte, and
// when that is the same as drawing its pixels one at a time.
module Spans {
  import opened CInt
  import opened Panel

  // ----- byte masks

  /** The byte whose bit k is set exactly when lo <= k < hi. */
  function MaskBits(lo: int, hi: int): bv8 {
    (if lo <= 0 < hi then 0x01 else 0) | (if lo <= 1 < hi then 0x02 else 0)
    | (if lo <= 2 < hi then 0x04 else 0) | (if lo <= 3 < hi then 0x08 else 0)
    | (if lo <= 4 < hi then 0x10 else 0) | (if lo <= 5 < hi then 0x20 else 0)
    | (if lo <= 6 < hi then 0x40 else 0) | (if lo <= 7 < hi then 0x80 else 0)
  }

  lemma MaskBitsSet(lo: int, hi: int, k: int)
    requires 0 <= k < 8
    ensures BitSet(MaskBits(lo, hi), k) <==> lo <= k < hi
  {
  }

  lemma MaskBitsFull(lo: int, hi: int)
    ensures MaskBits(lo, hi) == 0xFF <==> lo <= 0 && 8 <= hi
  {
    MaskBitsSet(lo, hi, 0);
    MaskBitsSet(lo, hi, 7);
  }

  // ----- clipping

  /** The 16-bit sum `start + len` has left the range, which needs a negative length, and
      comes back as a positive number of pixels. */
  predicate LengthWraps(start: int16, len: int16) {
    -0x1_0000 < start + len < -0x8000
  }

  predicate Covers(clip: (int, int), k: int) {
    clip.0 <= k < clip.1
  }

  /** The part of [start, start+len) that is drawn on an axis of `limit` pixels. */
  function Clip(start: int16, len: int16, limit: int16): (r: (int, int))
    requires limit > 0
    ensures 0 <= r.0 <= r.1 <= limit
    ensures !LengthWraps(start, len) ==>
              forall k :: 0 <= k < limit ==> (Covers(r, k) <==> start <= k < start + len)
    ensures LengthWraps(start, len) ==> r.0 == 0 < r.1 == Min(limit, start + len + 0x1_0000)
  {
    var first := Max(start, 0);
    var count := if start < 0 then Wrap16(len + start) else len;
    var shown := if first + count > limit then limit - first else count;
    if shown <= 0 then (0, 0) else (first, first + shown)
  }

  // ----- spans in panel coordinates

  function HSpan(buf: Frame, x: int16, y: int16, w: int16, c: uint16): (r: Frame) {
    if !(0 <= y < HEIGHT) then buf
    else
      var clip := Clip(x, w, WIDTH);
      seq(BUFFER_SIZE, i requires 0 <= i < BUFFER_SIZE =>
        if i / WIDTH == y / 8 && clip.0 <= i % WIDTH < clip.1
        then Apply(c, buf[i], BitMask(y % 8)) else buf[i])
  }

  /** One byte of a column.  The whole-byte loop stores 0 for every colour but WHITE and
      INVERSE, so an unknown colour clears whole bytes but leaves partial ones alone. */
  function ColumnByte(c: uint16, b: bv8, m: bv8): bv8 {
    if c > INVERSE && m == 0xFF then 0 else Apply(c, b, m)
  }

  function PageMask(clip: (int, int), page: int): bv8 {
    MaskBits(clip.0 - 8 * page, clip.1 - 8 * page)
  }

  function VSpan(buf: Frame, x: int16, y: int16, h: int16, c: uint16): (r: Frame) {
    if !(0 <= x < WIDTH) then buf
    else
      var clip := Clip(y, h, HEIGHT);
      seq(BUFFER_SIZE, i requires 0 <= i < BUFFER_SIZE =>
        if i % WIDTH == x then ColumnByte(c, buf[i], PageMask(clip, i / WIDTH)) else buf[i])
  }

  predicate CoversWholeByte(clip: (int, int)) {
    (clip.0 + 7) / 8 * 8 + 8 <= clip.1
  }

  lemma HSpanLit(buf: Frame, x: int16, y: int16, w: int16, c: uint16, q: Point)
    requires OnPanel(q)
    ensures Lit(HSpan(buf, x, y, w, c), q)
         == Paint(c, Lit(buf, q), if q.y == y && Covers(Clip(x, w, WIDTH), q.x) then 1 else 0)
  {
    if q.y / 8 == y / 8 && 0 <= y < HEIGHT {
      ApplyBit(c, buf[Index(q)], BitMask(y % 8), q.y % 8);
      BitMaskSet(y % 8, q.y % 8);
    }
  }

  lemma ColumnByteBit(c: uint16, b: bv8, clip: (int, int), page: int, k: int)
    requires 0 <= k < 8 && 0 <= clip.0 && 0 <= page
    requires c <= INVERSE || !CoversWholeByte(clip)
    ensures BitSet(ColumnByte(c, b, PageMask(clip, page)), k)
         == Paint(c, BitSet(b, k), if Covers(clip, 8 * page + k) then 1 else 0)
  {
    var m := PageMask(clip, page);
    MaskBitsFull(clip.0 - 8 * page, clip.1 - 8 * page);
    assert c > INVERSE ==> m != 0xFF;
    ApplyBit(c, b, m, k);
    MaskBitsSet(clip.0 - 8 * page, clip.1 - 8 * page, k);
  }

  lemma VSpanLit(buf: Frame, x: int16, y: int16, h: int16, c: uint16, q: Point)
    requires OnPanel(q)
    requires c <= INVERSE || !CoversWholeByte(Clip(y, h, HEIGHT))
    ensures Lit(VSpan(buf, x, y, h, c), q)
         == Paint(c, Lit(buf, q), if q.x == x && Covers(Clip(y, h, HEIGHT), q.y) then 1 else 0)
  {
    if q.x == x {
      ColumnByteBit(c, buf[Index(q)], Clip(y, h, HEIGHT), q.y / 8, q.y % 8);
      assert 8 * (q.y / 8) + q.y % 8 == q.y;
    }
  }

  /** A colour outside the three clears the bytes a column covers whole and keeps all others. */
  lemma UnknownColourColumn(buf: Frame, x: int16, y: int16, h: int16, c: uint16, i: int)
    requires c > 2 && 0 <= i < 1024
    ensures var (clip, page) := (Clip(y, h, HEIGHT), i / 128);
            VSpan(buf, x, y, h, c)[i]
            == if i % 128 == x && clip.0 <= 8 * page && 8 * page + 8 <= clip.1 then 0 else buf[i]
  {
    var clip := Clip(y, h, HEIGHT);
    MaskBitsFull(clip.0 - 8 * (i / 128), clip.1 - 8 * (i / 128));
  }

  // ----- straight runs of pixels, as the caller names them

  function VRun(x: int, y: int, h: int): (pts: seq<Point>)
    ensures |pts| == Max(h, 0)
    decreases Max(h, 0)
  {
    if h <= 0 then [] else VRun(x, y, h - 1) + [Point(x, y + h - 1)]
  }

  function HRun(x: int, y: int, w: int): (pts: seq<Point>)
    ensures |pts| == Max(w, 0)
    decreases Max(w, 0)
  {
    if w <= 0 then [] else HRun(x, y, w - 1) + [Point(x + w - 1, y)]
  }

  lemma {:induction false} VRunCount(x: int, y: int, h: int, p: Point)
    ensures Hits(VRun(x, y, h), p) == if p.x == x && y <= p.y < y + h then 1 else 0
    decreases Max(h, 0)
  {
    if h > 0 {
      VRunCount(x, y, h - 1, p);
      HitsSnoc(VRun(x, y, h - 1), Point(x, y + h - 1), p);
    }
  }

  lemma {:induction false} HRunCount(x: int, y: int, w: int, p: Point)
    ensures Hits(HRun(x, y, w), p) == if p.y == y && x <= p.x < x + w then 1 else 0
    decreases Max(w, 0)
  {
    if w > 0 {
      HRunCount(x, y, w - 1, p);
      HitsSnoc(HRun(x, y, w - 1), Point(x + w - 1, y), p);
    }
  }

  // ----- the two fast routines on the rotated screen

  /** Where the fast routines send a run: along a panel column or row, at which fixed
      coordinate, and from which start, all in 16-bit arithmetic. */
  datatype Route = Route(column: bool, fixed: int16, start: int16)

  function VRoute(rot: Rotation, x: int16, y: int16, h: int16): Route {
    match rot
    case 0 => Route(true, x, y)
    case 1 => Route(false, x, Wrap16(Wrap16(WIDTH - y - 1) - (h - 1)))
    case 2 => Route(true, Wrap16(WIDTH - x - 1), Wrap16(Wrap16(HEIGHT - y - 1) - (h - 1)))
    case 3 => Route(false, Wrap16(HEIGHT - x - 1), y)
  }

  function HRoute(rot: Rotation, x: int16, y: int16, w: int16): Route {
    match rot
    case 0 => Route(false, y, x)
    case 1 => Route(true, Wrap16(WIDTH - y - 1), x)
    case 2 => Route(false, Wrap16(HEIGHT - y - 1), Wrap16(Wrap16(WIDTH - x - 1) - (w - 1)))
    case 3 => Route(true, y, Wrap16(Wrap16(HEIGHT - x - 1) - (w - 1)))
  }

  function Draw(buf: Frame, route: Route, len: int16, c: uint16): Frame {
    if route.column then VSpan(buf, route.fixed, route.start, len, c)
    else HSpan(buf, route.start, route.fixed, len, c)
  }

  function FastV(buf: Frame, rot: Rotation, x: int16, y: int16, h: int16, c: uint16): Frame {
    Draw(buf, VRoute(rot, x, y, h), h, c)
  }

  function FastH(buf: Frame, rot: Rotation, x: int16, y: int16, w: int16, c: uint16): Frame {
    Draw(buf, HRoute(rot, x, y, w), w, c)
  }

  /** Neither of the two ways a fast run can differ from its pixels applies: a negative
      length whose 16-bit sum wraps, and an unknown colour over a whole byte. */
  predicate Faithful(route: Route, len: int16, c: uint16) {
    if route.column then
      0 <= route.fixed < WIDTH ==>
        if c <= INVERSE then !LengthWraps(route.start, len)
        else !CoversWholeByte(Clip(route.start, len, HEIGHT))
    else
      0 <= route.fixed < HEIGHT && c <= INVERSE ==> !LengthWraps(route.start, len)
  }

  /** The panel pixels a route reaches. */
  predicate Reaches(route: Route, len: int16, q: Point) {
    if route.column then q.x == route.fixed && Covers(Clip(route.start, len, HEIGHT), q.y)
    else q.y == route.fixed && Covers(Clip(route.start, len, WIDTH), q.x)
  }

  lemma DrawLit(buf: Frame, route: Route, len: int16, c: uint16, q: Point)
    requires OnPanel(q)
    requires route.column && 0 <= route.fixed < WIDTH && c > INVERSE ==>
               !CoversWholeByte(Clip(route.start, len, HEIGHT))
    ensures Lit(Draw(buf, route, len, c), q)
         == Paint(c, Lit(buf, q), if Reaches(route, len, q) then 1 else 0)
  {
    if route.column {
      if q.x == route.fixed { VSpanLit(buf, route.fixed, route.start, len, c, q); }
    } else {
      HSpanLit(buf, route.start, route.fixed, len, c, q);
    }
  }

  predicate RouteWraps(route: Route, len: int16) {
    0 <= route.fixed < (if route.column then WIDTH else HEIGHT) && LengthWraps(route.start, len)
  }

  /** A run starting at `from` on an unbounded axis, whose start is then cut to 16 bits. */
  lemma ClippedRun(from: int, start: int16, len: int16, limit: int, k: int)
    requires 0 <= k < limit <= WIDTH && start == Wrap16(from)
    requires !LengthWraps(start, len)
    requires len <= 0 || (limit - 0x1_0000 <= from && from + len <= 0x1_0000)
    ensures Covers(Clip(start, len, limit), k) <==> from <= k < from + len
  {
    assert Covers(Clip(start, len, limit), k) <==> start <= k < start + len;
  }

  lemma RouteCovers(route: Route, from: int, len: int16, q: Point)
    requires OnPanel(q) && !RouteWraps(route, len) && route.start == Wrap16(from)
    requires len <= 0 || ((if route.column then HEIGHT else WIDTH) - 0x1_0000 <= from && from + len <= 0x1_0000)
    ensures Reaches(route, len, q)
       <==> if route.column then q.x == route.fixed && from <= q.y < from + len
            else q.y == route.fixed && from <= q.x < from + len
  {
    if !LengthWraps(route.start, len) {
      if route.column { ClippedRun(from, route.start, len, HEIGHT, q.y); }
      else { ClippedRun(from, route.start, len, WIDTH, q.x); }
    }
  }

  lemma WrapTwice(a: int, b: int)
    ensures Wrap16(Wrap16(a) - b) == Wrap16(a - b)
  {
  }

  lemma MirrorHits(n: int, x: int16, k: int)
    requires 0 <= k < n <= WIDTH
    ensures Wrap16(n - x - 1) == k <==> x == n - k - 1
  {
  }

  lemma VRouteReaches(rot: Rotation, x: int16, y: int16, h: int16, q: Point)
    requires OnPanel(q) && !RouteWraps(VRoute(rot, x, y, h), h)
    ensures Reaches(VRoute(rot, x, y, h), h, q)
       <==> FromPanel(rot, q).x == x && y <= FromPanel(rot, q).y < y + h
  {
    if rot == 1 || rot == 2 { VRouteReachesMirrored(rot, x, y, h, q); }
    else if rot == 0 { RouteCovers(VRoute(rot, x, y, h), y, h, q); }
    else {
      MirrorHits(HEIGHT, x, q.y);
      RouteCovers(VRoute(rot, x, y, h), y, h, q);
    }
  }

  lemma VRouteReachesMirrored(rot: Rotation, x: int16, y: int16, h: int16, q: Point)
    requires (rot == 1 || rot == 2) && OnPanel(q) && !RouteWraps(VRoute(rot, x, y, h), h)
    ensures Reaches(VRoute(rot, x, y, h), h, q)
       <==> FromPanel(rot, q).x == x && y <= FromPanel(rot, q).y < y + h
  {
    var limit := if rot == 1 then WIDTH else HEIGHT;
    WrapTwice(limit - y - 1, h - 1);
    RouteCovers(VRoute(rot, x, y, h), limit - y - h, h, q);
    if rot == 2 { MirrorHits(WIDTH, x, q.x); }
  }

  lemma HRouteReaches(rot: Rotation, x: int16, y: int16, w: int16, q: Point)
    requires OnPanel(q) && !RouteWraps(HRoute(rot, x, y, w), w)
    ensures Reaches(HRoute(rot, x, y, w), w, q)
       <==> FromPanel(rot, q).y == y && x <= FromPanel(rot, q).x < x + w
  {
    if rot == 2 || rot == 3 { HRouteReachesMirrored(rot, x, y, w, q); }
    else if rot == 0 { RouteCovers(HRoute(rot, x, y, w), x, w, q); }
    else {
      MirrorHits(WIDTH, y, q.x);
      RouteCovers(HRoute(rot, x, y, w), x, w, q);
    }
  }

  lemma HRouteReachesMirrored(rot: Rotation, x: int16, y: int16, w: int16, q: Point)
    requires (rot == 2 || rot == 3) && OnPanel(q) && !RouteWraps(HRoute(rot, x, y, w), w)
    ensures Reaches(HRoute(rot, x, y, w), w, q)
       <==> FromPanel(rot, q).y == y && x <= FromPanel(rot, q).x < x + w
  {
    var limit := if rot == 2 then WIDTH else HEIGHT;
    WrapTwice(limit - x - 1, w - 1);
    RouteCovers(HRoute(rot, x, y, w), limit - x - w, w, q);
    if rot == 2 { MirrorHits(HEIGHT, y, q.y); }
  }

  // ----- main results: fast runs against drawPixel

  /** drawFastVLine equals drawPixel once per pixel of the line. */
  lemma FastVIsPixelLoop(buf: Frame, rot: Rotation, x: int16, y: int16, h: int16, c: uint16)
    requires Faithful(VRoute(rot, x, y, h), h, c)
    ensures FastV(buf, rot, x, y, h, c) == PlotAll(buf, rot, VRun(x, y, h), c)
  {
    var fast, slow := FastV(buf, rot, x, y, h, c), PlotAll(buf, rot, VRun(x, y, h), c);
    forall q | OnPanel(q) ensures Lit(fast, q) == Lit(slow, q) {
      DrawLit(buf, VRoute(rot, x, y, h), h, c, q);
      PlotAllLit(buf, rot, VRun(x, y, h), c, q);
      VRunCount(x, y, h, FromPanel(rot, q));
      if c <= INVERSE { VRouteReaches(rot, x, y, h, q); }
    }
    SamePixels(fast, slow);
  }

  /** drawFastHLine equals drawPixel once per pixel of the line. */
  lemma FastHIsPixelLoop(buf: Frame, rot: Rotation, x: int16, y: int16, w: int16, c: uint16)
    requires Faithful(HRoute(rot, x, y, w), w, c)
    ensures FastH(buf, rot, x, y, w, c) == PlotAll(buf, rot, HRun(x, y, w), c)
  {
    var fast, slow := FastH(buf, rot, x, y, w, c), PlotAll(buf, rot, HRun(x, y, w), c);
    forall q | OnPanel(q) ensures Lit(fast, q) == Lit(slow, q) {
      DrawLit(buf, HRoute(rot, x, y, w), w, c, q);
      PlotAllLit(buf, rot, HRun(x, y, w), c, q);
      HRunCount(x, y, w, FromPanel(rot, q));
      if c <= INVERSE { HRouteReaches(rot, x, y, w, q); }
    }
    SamePixels(fast, slow);
  }

  lemma UnknownColourDrawsNothing(buf: Frame, rot: Rotation, pts: seq<Point>, c: uint16)
    requires c > INVERSE
    ensures PlotAll(buf, rot, pts, c) == buf
  {
    forall q | OnPanel(q) ensures Lit(PlotAll(buf, rot, pts, c), q) == Lit(buf, q) {
      PlotAllLit(buf, rot, pts, c, q);
    }
    SamePixels(PlotAll(buf, rot, pts, c), buf);
  }

  /** A route that is not faithful changes some frame although no pixel should be drawn. */
  lemma UnfaithfulFrame(route: Route, len: int16, c: uint16) returns (buf: Frame)
    requires !Faithful(route, len, c)
    ensures Draw(buf, route, len, c) != buf
    ensures c > INVERSE || len < 0
  {
    var fill: bv8 := if c == WHITE || c == INVERSE then 0x00 else 0xFF;
    buf := seq(BUFFER_SIZE, _ => fill);
    if c <= INVERSE {
      var q := if route.column then Point(route.fixed, 0) else Point(0, route.fixed);
      assert Covers(Clip(route.start, len, if route.column then HEIGHT else WIDTH), 0);
      DrawLit(buf, route, len, c, q);
      BitMaskSet(q.y % 8, q.y % 8);
      assert Lit(buf, q) == (c == BLACK);
    } else {
      var clip := Clip(route.start, len, HEIGHT);
      var page := (clip.0 + 7) / 8;
      MaskBitsFull(clip.0 - 8 * page, clip.1 - 8 * page);
      var i := route.fixed + page * WIDTH;
      assert i % WIDTH == route.fixed && i / WIDTH == page;
      assert Draw(buf, route, len, c)[i] == 0;
    }
  }

  /** drawFastVLine agrees with drawPixel on every frame exactly when its run is faithful:
      in particular for every non-negative length and each of the three colours. */
  lemma FastVExact(rot: Rotation, x: int16, y: int16, h: int16, c: uint16)
    ensures (forall buf: Frame :: FastV(buf, rot, x, y, h, c) == PlotAll(buf, rot, VRun(x, y, h), c))
       <==> Faithful(VRoute(rot, x, y, h), h, c)
    ensures h >= 0 && c <= INVERSE ==> Faithful(VRoute(rot, x, y, h), h, c)
  {
    if Faithful(VRoute(rot, x, y, h), h, c) {
      forall buf: Frame ensures FastV(buf, rot, x, y, h, c) == PlotAll(buf, rot, VRun(x, y, h), c) {
        FastVIsPixelLoop(buf, rot, x, y, h, c);
      }
    } else {
      var buf := UnfaithfulFrame(VRoute(rot, x, y, h), h, c);
      if c > INVERSE { UnknownColourDrawsNothing(buf, rot, VRun(x, y, h), c); }
      assert FastV(buf, rot, x, y, h, c) != PlotAll(buf, rot, VRun(x, y, h), c);
    }
  }

  lemma FastHExact(rot: Rotation, x: int16, y: int16, w: int16, c: uint16)
    ensures (forall buf: Frame :: FastH(buf, rot, x, y, w, c) == PlotAll(buf, rot, HRun(x, y, w), c))
       <==> Faithful(HRoute(rot, x, y, w), w, c)
    ensures w >= 0 && c <= INVERSE ==> Faithful(HRoute(rot, x, y, w), w, c)
  {
    if Faithful(HRoute(rot, x, y, w), w, c) {
      forall buf: Frame ensures FastH(buf, rot, x, y, w, c) == PlotAll(buf, rot, HRun(x, y, w), c) {
        FastHIsPixelLoop(buf, rot, x, y, w, c);
      }
    } else {
      var buf := UnfaithfulFrame(HRoute(rot, x, y, w), w, c);
      if c > INVERSE { UnknownColourDrawsNothing(buf, rot, HRun(x, y, w), c); }
      assert FastH(buf, rot, x, y, w, c) != PlotAll(buf, rot, HRun(x, y, w), c);
    }
  }

  /** Two inputs on which the fast routine is not the pixel loop: a wrapping negative length,
      and a colour outside {BLACK, WHITE, INVERSE} over a whole byte. */
  lemma FastVCounterexamples()
    ensures !Faithful(VRoute(0, 5, -30000, -30000), -30000, WHITE)
    ensures !Faithful(VRoute(0, 5, 0, 8), 8, 3)
  {
    assert LengthWraps(-30000, -30000);
    assert Clip(0, 8, HEIGHT) == (0, 8);
  }

  /** The same for the horizontal routine; there whole bytes are written on a turned screen. */
  lemma FastHCounterexamples()
    ensures !Faithful(HRoute(0, -30000, 5, -30000), -30000, WHITE)
    ensures !Faithful(HRoute(1, 0, 5, 8), 8, 3)
  {
    assert LengthWraps(-30000, -30000);
    assert Clip(0, 8, HEIGHT) == (0, 8);
  }
}
