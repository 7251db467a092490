// What the frame buffer means: a page-packed byte array seen as a 128x64 grid of pixels,
// one drawing step (SetPixel), and the effect of drawing a list of points (PlotAll).
module Panel {
  import opened CInt

  const WIDTH := 128
  const HEIGHT := 64
  const BUFFER_SIZE := 1024

  const BLACK: uint16 := 0
  const WHITE: uint16 := 1
  const INVERSE: uint16 := 2

  datatype Point = Point(x: int, y: int)

  type Frame = s: seq<bv8> | |s| == BUFFER_SIZE witness seq(BUFFER_SIZE, _ => 0)

  // ----- bits of one byte

  /** The value of the C expression `1 << k`. */
  function BitMask(k: int): bv8
    requires 0 <= k < 8
  {
    if k == 0 then 0x01 else if k == 1 then 0x02 else if k == 2 then 0x04 else if k == 3 then 0x08
    else if k == 4 then 0x10 else if k == 5 then 0x20 else if k == 6 then 0x40 else 0x80
  }

  lemma BitMaskIsShift(k: int)
    requires 0 <= k < 8
    ensures BitMask(k) == (1 as bv8) << k
  {
    if k == 0 {
    } else if k == 1 {
    } else if k == 2 {
    } else if k == 3 {
    } else if k == 4 {
    } else if k == 5 {
    } else if k == 6 {
    }
  }

  predicate BitSet(b: bv8, k: int)
    requires 0 <= k < 8
  {
    b & BitMask(k) != 0
  }

  /** How a colour changes the masked bits of a byte; an unknown colour changes nothing. */
  function Apply(c: uint16, b: bv8, m: bv8): bv8 {
    if c == WHITE then b | m
    else if c == BLACK then b & !m
    else if c == INVERSE then b ^ m
    else b
  }

  /** How a colour changes one pixel that is drawn `times` times. */
  function Paint(c: uint16, was: bool, times: nat): bool {
    if times == 0 then was
    else if c == WHITE then true
    else if c == BLACK then false
    else if c == INVERSE then was != (times % 2 == 1)
    else was
  }

  lemma PaintAgain(c: uint16, was: bool, m: nat, n: nat)
    ensures Paint(c, Paint(c, was, m), n) == Paint(c, was, m + n)
  {
  }

  lemma OneBit(b: bv8, m: bv8, u: bv8)
    requires u in {0x01, 0x02, 0x04, 0x08, 0x10, 0x20, 0x40, 0x80}
    ensures (b | m) & u != 0 <==> b & u != 0 || m & u != 0
    ensures (b & !m) & u != 0 <==> b & u != 0 && m & u == 0
    ensures (b ^ m) & u != 0 <==> ((b & u != 0) != (m & u != 0))
  {
    if u == 0x01 {
    } else if u == 0x02 {
    } else if u == 0x04 {
    } else if u == 0x08 {
    } else if u == 0x10 {
    } else if u == 0x20 {
    } else if u == 0x40 {
    }
  }

  lemma ApplyBit(c: uint16, b: bv8, m: bv8, k: int)
    requires 0 <= k < 8
    ensures BitSet(Apply(c, b, m), k) == Paint(c, BitSet(b, k), if BitSet(m, k) then 1 else 0)
  {
    OneBit(b, m, BitMask(k));
  }

  lemma BitMaskSet(j: int, k: int)
    requires 0 <= j < 8 && 0 <= k < 8
    ensures BitSet(BitMask(j), k) <==> j == k
  {
  }

  lemma SameBits(a: bv8, b: bv8)
    requires forall k :: 0 <= k < 8 ==> BitSet(a, k) == BitSet(b, k)
    ensures a == b
  {
    assert BitSet(a, 0) == BitSet(b, 0) && BitSet(a, 1) == BitSet(b, 1);
    assert BitSet(a, 2) == BitSet(b, 2) && BitSet(a, 3) == BitSet(b, 3);
    assert BitSet(a, 4) == BitSet(b, 4) && BitSet(a, 5) == BitSet(b, 5);
    assert BitSet(a, 6) == BitSet(b, 6) && BitSet(a, 7) == BitSet(b, 7);
  }

  // ----- pixels of the panel

  predicate OnPanel(p: Point) {
    0 <= p.x < WIDTH && 0 <= p.y < HEIGHT
  }

  function Index(p: Point): (i: int)
    requires OnPanel(p)
    ensures 0 <= i < BUFFER_SIZE && i % WIDTH == p.x && i / WIDTH == p.y / 8
  {
    p.x + p.y / 8 * WIDTH
  }

  predicate Lit(buf: Frame, p: Point)
    requires OnPanel(p)
  {
    BitSet(buf[Index(p)], p.y % 8)
  }

  /** The byte and the bit that hold a pixel: pages of eight rows, top row in the lowest bit. */
  lemma PixelLayout(buf: Frame, x: int, y: int)
    requires 0 <= x < 128 && 0 <= y < 64
    ensures |buf| == 1024
    ensures Lit(buf, Point(x, y)) <==> buf[x + 128 * (y / 8)] & ((1 as bv8) << (y % 8)) != 0
  {
    BitMaskIsShift(y % 8);
  }

  /** A frame is determined by its pixels. */
  lemma SamePixels(a: Frame, b: Frame)
    requires forall p :: OnPanel(p) ==> Lit(a, p) == Lit(b, p)
    ensures a == b
  {
    forall i | 0 <= i < BUFFER_SIZE ensures a[i] == b[i] {
      forall k | 0 <= k < 8 ensures BitSet(a[i], k) == BitSet(b[i], k) {
        var p := Point(i % WIDTH, i / WIDTH * 8 + k);
        assert Index(p) == i && p.y % 8 == k;
        assert Lit(a, p) == Lit(b, p);
      }
      SameBits(a[i], b[i]);
    }
  }

  // ----- rotation

  type Rotation = r: int | 0 <= r < 4

  /** The screen as the caller sees it: 128x64, or 64x128 when turned by a quarter. */
  predicate OnScreen(rot: Rotation, p: Point) {
    if rot % 2 == 0 then OnPanel(p) else 0 <= p.x < HEIGHT && 0 <= p.y < WIDTH
  }

  function ToPanel(rot: Rotation, p: Point): Point {
    match rot
    case 0 => p
    case 1 => Point(WIDTH - p.y - 1, p.x)
    case 2 => Point(WIDTH - p.x - 1, HEIGHT - p.y - 1)
    case 3 => Point(p.y, HEIGHT - p.x - 1)
  }

  function FromPanel(rot: Rotation, q: Point): Point {
    match rot
    case 0 => q
    case 1 => Point(q.y, WIDTH - q.x - 1)
    case 2 => Point(WIDTH - q.x - 1, HEIGHT - q.y - 1)
    case 3 => Point(HEIGHT - q.y - 1, q.x)
  }

  /** The rotated coordinate map is a bijection of the screen onto the (byte, bit) pairs. */
  lemma RotationIsBijective(rot: Rotation, p: Point, q: Point)
    ensures FromPanel(rot, ToPanel(rot, p)) == p && ToPanel(rot, FromPanel(rot, q)) == q
    ensures OnScreen(rot, p) <==> OnPanel(ToPanel(rot, p))
    ensures OnPanel(p) && OnPanel(q) && Index(p) == Index(q) && p.y % 8 == q.y % 8 ==> p == q
  {
    if OnPanel(p) && OnPanel(q) && Index(p) == Index(q) && p.y % 8 == q.y % 8 {
      assert p.x == Index(p) % WIDTH == q.x;
      assert p.y / 8 == Index(p) / WIDTH == q.y / 8;
    }
  }

  /** What each rotation means: the screen's origin is at the panel's four corners in clockwise
      order, and its x axis points right, down, left and up along the panel. */
  lemma ScreenTurnsClockwise(p: Point)
    ensures ToPanel(0, Point(0, 0)) == Point(0, 0) && ToPanel(1, Point(0, 0)) == Point(127, 0)
    ensures ToPanel(2, Point(0, 0)) == Point(127, 63) && ToPanel(3, Point(0, 0)) == Point(0, 63)
    ensures forall rot: Rotation ::
              var (o, q) := (ToPanel(rot, Point(0, 0)), ToPanel(rot, p));
              (q.x - o.x, q.y - o.y) == if rot == 0 then (p.x, p.y) else if rot == 1 then (-p.y, p.x)
                                        else if rot == 2 then (-p.x, -p.y) else (p.y, -p.x)
  {
  }

  // ----- drawing

  /** What the colours do: 0 clears, 1 sets, 2 flips at every drawing, others do nothing. */
  lemma ColoursMean(was: bool, times: nat)
    ensures Paint(0, was, times) == (was && times == 0)
    ensures Paint(1, was, times) == (was || times > 0)
    ensures Paint(2, was, times) == if times % 2 == 0 then was else !was
    ensures forall c: uint16 :: c > 2 ==> Paint(c, was, times) == was
  {
  }

  /** One drawPixel call: clip to the rotated screen, rotate, change one bit. */
  function SetPixel(buf: Frame, rot: Rotation, p: Point, c: uint16): Frame {
    if !OnScreen(rot, p) then buf
    else
      var q := ToPanel(rot, p);
      buf[Index(q) := Apply(c, buf[Index(q)], BitMask(q.y % 8))]
  }

  /** drawPixel called once for each point, in order. */
  function PlotAll(buf: Frame, rot: Rotation, pts: seq<Point>, c: uint16): Frame {
    if pts == [] then buf
    else SetPixel(PlotAll(buf, rot, pts[..|pts| - 1], c), rot, pts[|pts| - 1], c)
  }

  /** drawPixel changes exactly the pixel it names, according to the colour. */
  lemma SetPixelLit(buf: Frame, rot: Rotation, p: Point, c: uint16, q: Point)
    requires OnPanel(q)
    ensures Lit(SetPixel(buf, rot, p, c), q)
         == Paint(c, Lit(buf, q), if p == FromPanel(rot, q) then 1 else 0)
  {
    RotationIsBijective(rot, p, q);
    if OnScreen(rot, p) {
      var t := ToPanel(rot, p);
      RotationIsBijective(rot, t, q);
      if Index(t) == Index(q) {
        ApplyBit(c, buf[Index(t)], BitMask(t.y % 8), q.y % 8);
        BitMaskSet(t.y % 8, q.y % 8);
      }
    }
  }

  /** How often a list names a point. */
  function Hits(pts: seq<Point>, p: Point): nat {
    if pts == [] then 0
    else Hits(pts[..|pts| - 1], p) + if pts[|pts| - 1] == p then 1 else 0
  }

  lemma {:induction false} HitsIn(pts: seq<Point>, p: Point)
    ensures p in pts <==> Hits(pts, p) > 0
  {
    if pts != [] {
      var init, last := pts[..|pts| - 1], pts[|pts| - 1];
      assert pts == init + [last];
      HitsIn(init, p);
    }
  }

  lemma {:induction false} HitsDistinct(pts: seq<Point>, p: Point)
    requires forall i, j :: 0 <= i < j < |pts| ==> pts[i] != pts[j]
    ensures Hits(pts, p) == if p in pts then 1 else 0
  {
    if pts != [] {
      var init, last := pts[..|pts| - 1], pts[|pts| - 1];
      assert pts == init + [last];
      HitsDistinct(init, p);
    }
  }

  lemma HitsSnoc(pts: seq<Point>, q: Point, p: Point)
    ensures Hits(pts + [q], p) == Hits(pts, p) + if q == p then 1 else 0
  {
    assert (pts + [q])[..|pts|] == pts;
  }

  lemma {:induction false} HitsConcat(a: seq<Point>, b: seq<Point>, p: Point)
    ensures Hits(a + b, p) == Hits(a, p) + Hits(b, p)
    decreases |b|
  {
    if b == [] {
      assert a + b == a;
    } else {
      var init, last := b[..|b| - 1], b[|b| - 1];
      assert a + b == (a + init) + [last];
      HitsSnoc(a + init, last, p);
      HitsConcat(a, init, p);
    }
  }

  /** After drawing a list of points a pixel depends only on how often the list names it. */
  lemma {:induction false} PlotAllLit(buf: Frame, rot: Rotation, pts: seq<Point>, c: uint16, q: Point)
    requires OnPanel(q)
    ensures Lit(PlotAll(buf, rot, pts, c), q)
         == Paint(c, Lit(buf, q), Hits(pts, FromPanel(rot, q)))
  {
    if pts != [] {
      var init, last := pts[..|pts| - 1], pts[|pts| - 1];
      PlotAllLit(buf, rot, init, c, q);
      SetPixelLit(PlotAll(buf, rot, init, c), rot, last, c, q);
    }
  }

  lemma PlotAllSnoc(buf: Frame, rot: Rotation, pts: seq<Point>, p: Point, c: uint16)
    ensures PlotAll(buf, rot, pts + [p], c) == SetPixel(PlotAll(buf, rot, pts, c), rot, p, c)
  {
    assert (pts + [p])[..|pts|] == pts;
  }

  lemma PlotAllNext(buf: Frame, rot: Rotation, pts: seq<Point>, i: nat, c: uint16)
    requires i < |pts|
    ensures PlotAll(buf, rot, pts[..i + 1], c) == SetPixel(PlotAll(buf, rot, pts[..i], c), rot, pts[i], c)
  {
    assert pts[..i + 1] == pts[..i] + [pts[i]];
    PlotAllSnoc(buf, rot, pts[..i], pts[i], c);
  }

  lemma {:induction false} PlotAllConcat(buf: Frame, rot: Rotation, a: seq<Point>, b: seq<Point>, c: uint16)
    ensures PlotAll(buf, rot, a + b, c) == PlotAll(PlotAll(buf, rot, a, c), rot, b, c)
    decreases |b|
  {
    if b == [] {
      assert a + b == a;
    } else {
      var init, last := b[..|b| - 1], b[|b| - 1];
      assert a + b == (a + init) + [last];
      PlotAllSnoc(buf, rot, a + init, last, c);
      PlotAllConcat(buf, rot, a, init, c);
    }
  }

  /** Whatever points are inverted, inverting them again restores the frame. */
  lemma InvertingAgainRestores(buf: Frame, rot: Rotation, pts: seq<Point>)
    ensures PlotAll(PlotAll(buf, rot, pts, INVERSE), rot, pts, INVERSE) == buf
  {
    var once := PlotAll(buf, rot, pts, INVERSE);
    var twice := PlotAll(once, rot, pts, INVERSE);
    forall q | OnPanel(q) ensures Lit(twice, q) == Lit(buf, q) {
      PlotAllLit(buf, rot, pts, INVERSE, q);
      PlotAllLit(once, rot, pts, INVERSE, q);
    }
    SamePixels(twice, buf);
  }

  /** The order in which points are drawn never matters; for BLACK and WHITE neither do repeats. */
  lemma DrawingOrderIsIrrelevant(buf: Frame, rot: Rotation, a: seq<Point>, b: seq<Point>, c: uint16)
    requires (forall p :: Hits(a, p) == Hits(b, p)) || (c != INVERSE && forall p :: p in a <==> p in b)
    ensures PlotAll(buf, rot, a, c) == PlotAll(buf, rot, b, c)
  {
    forall q | OnPanel(q) ensures Lit(PlotAll(buf, rot, a, c), q) == Lit(PlotAll(buf, rot, b, c), q) {
      PlotAllLit(buf, rot, a, c, q);
      PlotAllLit(buf, rot, b, c, q);
      var p := FromPanel(rot, q);
      HitsIn(a, p);
      HitsIn(b, p);
    }
    SamePixels(PlotAll(buf, rot, a, c), PlotAll(buf, rot, b, c));
  }
}
