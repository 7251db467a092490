// The SSD1306 driver: the frame buffer, the rotation and the drawing primitives that
// update the buffer in place.
module Ssd1306 {
  import opened CInt
  import opened Panel
  import opened Spans

  /** Partial-byte masks for the top n bits and for the bottom n bits of a byte. */
  const PREMASK: seq<bv8> := [0x00, 0x80, 0xC0, 0xE0, 0xF0, 0xF8, 0xFC, 0xFE]
  const POSTMASK: seq<bv8> := [0x00, 0x01, 0x03, 0x07, 0x0F, 0x1F, 0x3F, 0x7F]

  lemma PremaskBits(k: int, h: int)
    requires 0 < k < 8 && 0 < h
    ensures h >= 8 - k ==> PREMASK[8 - k] == MaskBits(k, k + h)
    ensures h < 8 - k ==> PREMASK[8 - k] & ((0xFF as bv8) >> (8 - k - h)) == MaskBits(k, k + h)
  {
    if h >= 8 - k {
      assert MaskBits(k, k + h) == MaskBits(k, 8);
    } else if k == 1 {
    } else if k == 2 {
    } else if k == 3 {
    } else if k == 4 {
    } else if k == 5 {
    } else if k == 6 {
    }
  }

  lemma PostmaskBits(lo: int, h: int)
    requires lo <= 0 && 0 < h < 8
    ensures POSTMASK[h] == MaskBits(lo, h)
  {
    assert MaskBits(lo, h) == MaskBits(0, h);
  }

  lemma NoMask(c: uint16, b: bv8, lo: int, hi: int)
    requires hi <= 0 || 8 <= lo || hi <= lo
    ensures ColumnByte(c, b, MaskBits(lo, hi)) == b
  {
    assert MaskBits(lo, hi) == 0;
  }

  lemma FullMask(c: uint16, b: bv8, lo: int, hi: int)
    requires lo <= 0 && 8 <= hi
    ensures ColumnByte(c, b, MaskBits(lo, hi))
         == if c == INVERSE then !b else if c == WHITE then 0xFF else 0
  {
    MaskBitsFull(lo, hi);
  }

  lemma RowBytes(row: int, lo: int, hi: int, i: int)
    requires 0 <= lo <= hi <= WIDTH && 0 <= row && 0 <= i
    ensures row * WIDTH + lo <= i < row * WIDTH + hi <==> i / WIDTH == row && lo <= i % WIDTH < hi
  {
  }

  // ----- progress of the column loop

  /** `now` is `was` with the column painted on all pages before `page`. */
  ghost predicate ColumnDone(was: Frame, now: Frame, x: int, clip: (int, int), page: int, c: uint16) {
    forall i :: 0 <= i < BUFFER_SIZE ==>
      now[i] == if i % WIDTH == x && i / WIDTH < page
                then ColumnByte(c, was[i], PageMask(clip, i / WIDTH)) else was[i]
  }

  lemma ColumnStart(was: Frame, x: int, clip: (int, int), page: int, c: uint16)
    requires clip.0 <= clip.1
    requires page <= clip.0 / 8 || clip.0 == clip.1
    ensures ColumnDone(was, was, x, clip, page, c)
  {
    forall i | 0 <= i < BUFFER_SIZE && i / WIDTH < page
      ensures ColumnByte(c, was[i], PageMask(clip, i / WIDTH)) == was[i]
    {
      NoMask(c, was[i], clip.0 - 8 * (i / WIDTH), clip.1 - 8 * (i / WIDTH));
    }
  }

  lemma ColumnStep(was: Frame, before: Frame, after: Frame, x: int, clip: (int, int), page: int, c: uint16)
    requires 0 <= x < WIDTH && 0 <= page < 8
    requires ColumnDone(was, before, x, clip, page, c)
    requires var p := page * WIDTH + x;
             after == before[p := ColumnByte(c, was[p], PageMask(clip, page))]
    ensures ColumnDone(was, after, x, clip, page + 1, c)
  {
  }

  lemma ColumnEnd(was: Frame, now: Frame, x: int16, y: int16, h: int16, page: int, c: uint16)
    requires 0 <= x < WIDTH
    requires var clip := Clip(y, h, HEIGHT);
             (clip.1 <= 8 * page || clip.0 == clip.1) && ColumnDone(was, now, x, clip, page, c)
    ensures now == VSpan(was, x, y, h, c)
  {
    var clip, span := Clip(y, h, HEIGHT), VSpan(was, x, y, h, c);
    forall i | 0 <= i < BUFFER_SIZE ensures now[i] == span[i] {
      if page <= i / WIDTH {
        NoMask(c, was[i], clip.0 - 8 * (i / WIDTH), clip.1 - 8 * (i / WIDTH));
      }
    }
  }

  lemma PartialMask(c: uint16, b: bv8, mask: bv8, clip: (int, int), page: int)
    requires mask == PageMask(clip, page) && (clip.0 > 8 * page || clip.1 < 8 * page + 8)
    ensures Apply(c, b, mask) == ColumnByte(c, b, PageMask(clip, page))
  {
    MaskBitsFull(clip.0 - 8 * page, clip.1 - 8 * page);
  }

  /** The limit checks shared by the two internal line routines. */
  method ClipRun(start0: int16, len0: int16, limit: int16) returns (start: int16, len: int16)
    requires 0 < limit <= WIDTH
    ensures len > 0 ==> Clip(start0, len0, limit) == (start, start + len) && 0 <= start < start + len <= limit
    ensures len <= 0 ==> Clip(start0, len0, limit) == (0, 0)
  {
    start, len := start0, len0;
    if start < 0 {
      len := Wrap16(len + start);
      start := 0;
    }
    if start + len > limit {
      len := Wrap16(limit - start);
    }
  }

  class Display {
    const buffer: array<bv8>
    var rotation: Rotation
    var width: int16
    var height: int16

    ghost predicate Valid()
      reads this
    {
      && buffer.Length == BUFFER_SIZE
      && (if rotation % 2 == 0 then width == WIDTH && height == HEIGHT
          else width == HEIGHT && height == WIDTH)
    }

    ghost function Pixels(): Frame
      reads this, buffer
      requires Valid()
    {
      buffer[..]
    }

    constructor ()
      ensures Valid() && fresh(buffer) && rotation == 0
    {
      buffer := new bv8[BUFFER_SIZE](_ => 0);
      rotation, width, height := 0, WIDTH, HEIGHT;
    }

    /** Turning the screen keeps the frame: only later drawing is rotated. */
    method SetRotation(x: nat)
      requires Valid()
      modifies this
      ensures Valid() && rotation == x % 4 && Pixels() == old(Pixels())
    {
      rotation := x % 4;
      if rotation == 0 || rotation == 2 {
        width, height := WIDTH, HEIGHT;
      } else {
        width, height := HEIGHT, WIDTH;
      }
    }

    /** The `switch (color)` of the drawing routines on one byte of the buffer. */
    method Blend(i: int, mask: bv8, color: uint16)
      requires Valid() && 0 <= i < BUFFER_SIZE
      modifies buffer
      ensures Valid() && Pixels() == old(Pixels())[i := Apply(color, old(buffer[i]), mask)]
    {
      if color == WHITE { buffer[i] := buffer[i] | mask; }
      else if color == BLACK { buffer[i] := buffer[i] & !mask; }
      else if color == INVERSE { buffer[i] := buffer[i] ^ mask; }
    }

    /** The `switch (getRotation())` of drawPixel. */
    method Rotate(x0: int16, y0: int16) returns (x: int16, y: int16)
      requires OnScreen(rotation, Point(x0, y0))
      ensures Point(x, y) == ToPanel(rotation, Point(x0, y0)) && OnPanel(Point(x, y))
    {
      x, y := x0, y0;
      match rotation {
        case 1 =>
          x, y := y, x;
          x := Wrap16(WIDTH - x - 1);
        case 2 =>
          x := Wrap16(WIDTH - x - 1);
          y := Wrap16(HEIGHT - y - 1);
        case 3 =>
          x, y := y, x;
          y := Wrap16(HEIGHT - y - 1);
        case _ =>
      }
    }

    method DrawPixel(x0: int16, y0: int16, color: uint16)
      requires Valid()
      modifies buffer
      ensures Valid() && Pixels() == SetPixel(old(Pixels()), rotation, Point(x0, y0), color)
    {
      if x0 < 0 || x0 >= width || y0 < 0 || y0 >= height { return; }
      var x, y := Rotate(x0, y0);
      Blend(x + y / 8 * WIDTH, BitMask(y % 8), color);
    }

    /** drawPixel on the next point of a list. */
    method DrawNext(x: int16, y: int16, color: uint16, ghost was: Frame, ghost pts: seq<Point>, ghost i: nat)
      requires Valid() && i < |pts| && pts[i] == Point(x, y)
      requires Pixels() == PlotAll(was, rotation, pts[..i], color)
      modifies buffer
      ensures Valid() && Pixels() == PlotAll(was, rotation, pts[..i + 1], color)
    {
      PlotAllNext(was, rotation, pts, i, color);
      DrawPixel(x, y, color);
    }

    method DrawFastHLineInternal(x0: int16, y: int16, w0: int16, color: uint16)
      requires Valid()
      modifies buffer
      ensures Valid() && Pixels() == HSpan(old(Pixels()), x0, y, w0, color)
    {
      if y < 0 || y >= HEIGHT { return; }
      ghost var clip := Clip(x0, w0, WIDTH);
      var x, w := ClipRun(x0, w0, WIDTH);
      if w <= 0 {
        assert Pixels() == HSpan(old(Pixels()), x0, y, w0, color);
        return;
      }
      var p := y / 8 * WIDTH + x;
      var mask := BitMask(y % 8);
      ghost var first, end := p, p + w;
      while w > 0
        invariant 0 <= w && first <= p && p + w == end
        invariant forall i :: 0 <= i < BUFFER_SIZE ==>
          buffer[i] == if first <= i < p then Apply(color, old(buffer[i]), mask) else old(buffer[i])
      {
        Blend(p, mask, color);
        p, w := p + 1, w - 1;
      }
      forall i | 0 <= i < BUFFER_SIZE ensures buffer[i] == HSpan(old(Pixels()), x0, y, w0, color)[i] {
        RowBytes(y / 8, clip.0, clip.1, i);
      }
    }

    /** A byte of the column that is only partly covered. */
    method PartialByte(p: int, mask: bv8, color: uint16,
                       ghost was: Frame, ghost x: int, ghost clip: (int, int), ghost page: int)
      requires Valid() && 0 <= x < WIDTH && 0 <= page < 8 && p == page * WIDTH + x
      requires mask == PageMask(clip, page) && (clip.0 > 8 * page || clip.1 < 8 * page + 8)
      requires ColumnDone(was, Pixels(), x, clip, page, color)
      modifies buffer
      ensures Valid() && ColumnDone(was, Pixels(), x, clip, page + 1, color)
    {
      PartialMask(color, was[p], mask, clip, page);
      Blend(p, mask, color);
      ColumnStep(was, old(Pixels()), Pixels(), x, clip, page, color);
    }

    /** The first byte, when the column starts inside it at bit `bit`. */
    method FirstByte(p: int, bit: int, h: int, color: uint16,
                     ghost was: Frame, ghost x: int, ghost clip: (int, int), ghost page: int)
      requires Valid() && 0 <= x < WIDTH && 0 <= page < 8 && p == page * WIDTH + x
      requires 0 < bit < 8 && 0 < h && clip == (8 * page + bit, 8 * page + bit + h)
      requires ColumnDone(was, Pixels(), x, clip, page, color)
      modifies buffer
      ensures Valid() && ColumnDone(was, Pixels(), x, clip, page + 1, color)
    {
      PremaskBits(bit, h);
      var mod := 8 - bit;
      var mask := PREMASK[mod];
      if h < mod {
        mask := mask & ((0xFF as bv8) >> (mod - h));
      }
      PartialByte(p, mask, color, was, x, clip, page);
    }

    /** The last byte, of which `h` < 8 rows remain. */
    method LastByte(p: int, h: int, color: uint16,
                    ghost was: Frame, ghost x: int, ghost clip: (int, int), ghost page: int)
      requires Valid() && 0 <= x < WIDTH && 0 <= page < 8 && p == page * WIDTH + x
      requires 0 < h < 8 && clip.0 <= 8 * page && clip.1 == 8 * page + h
      requires ColumnDone(was, Pixels(), x, clip, page, color)
      modifies buffer
      ensures Valid() && ColumnDone(was, Pixels(), x, clip, page + 1, color)
    {
      var mod := h % 8;
      PostmaskBits(clip.0 - 8 * page, h);
      PartialByte(p, POSTMASK[mod], color, was, x, clip, page);
    }

    /** The solid bytes of a column, eight rows at a time; returns where it stopped. */
    method WholeBytes(p0: int, h0: int, color: uint16,
                      ghost was: Frame, ghost x: int, ghost clip: (int, int), ghost page0: int)
      returns (p: int, h: int, ghost page: int)
      requires Valid() && 0 <= x < WIDTH && 0 <= page0 && clip.1 <= HEIGHT
      requires 0 <= h0 && h0 == clip.1 - 8 * page0 && clip.0 <= 8 * page0 && p0 == page0 * WIDTH + x
      requires ColumnDone(was, Pixels(), x, clip, page0, color)
      modifies buffer
      ensures Valid() && 0 <= page
      ensures 0 <= h < 8 && h == clip.1 - 8 * page && clip.0 <= 8 * page && p == page * WIDTH + x
      ensures ColumnDone(was, Pixels(), x, clip, page, color)
    {
      p, h, page := p0, h0, page0;
      if color == INVERSE {
        while h >= 8
          invariant 0 <= h && 0 <= page && h == clip.1 - 8 * page && clip.0 <= 8 * page && p == page * WIDTH + x
          invariant Valid() && ColumnDone(was, Pixels(), x, clip, page, color)
        {
          ghost var now := Pixels();
          buffer[p] := !buffer[p];
          FullMask(color, was[p], clip.0 - 8 * page, clip.1 - 8 * page);
          ColumnStep(was, now, Pixels(), x, clip, page, color);
          p, h, page := p + WIDTH, h - 8, page + 1;
        }
      } else {
        var val: bv8 := if color == WHITE then 255 else 0;
        while h >= 8
          invariant 0 <= h && 0 <= page && h == clip.1 - 8 * page && clip.0 <= 8 * page && p == page * WIDTH + x
          invariant Valid() && ColumnDone(was, Pixels(), x, clip, page, color)
        {
          ghost var now := Pixels();
          buffer[p] := val;
          FullMask(color, was[p], clip.0 - 8 * page, clip.1 - 8 * page);
          ColumnStep(was, now, Pixels(), x, clip, page, color);
          p, h, page := p + WIDTH, h - 8, page + 1;
        }
      }
    }

    /** The column loop.  `h` and `p` stand for the uint8_t counter and the moving pointer;
        `page` is the row of bytes that `p` points into. */
    method DrawFastVLineInternal(x: int16, y0: int16, h0: int16, color: uint16)
      requires Valid()
      modifies buffer
      ensures Valid() && Pixels() == VSpan(old(Pixels()), x, y0, h0, color)
    {
      if x < 0 || x >= WIDTH { return; }
      ghost var clip, was := Clip(y0, h0, HEIGHT), Pixels();
      var y, h := ClipRun(y0, h0, HEIGHT);
      if h <= 0 {
        ColumnStart(was, x, clip, 8, color);
        ColumnEnd(was, was, x, y0, h0, 8, color);
        return;
      }
      ghost var page := y / 8;
      var p := y / 8 * WIDTH + x;
      var mod := y % 8;
      ColumnStart(was, x, clip, page, color);
      if mod != 0 {
        FirstByte(p, mod, h, color, was, x, clip, page);
        mod := 8 - mod;
        page := page + 1;
        if h < mod {
          ColumnEnd(was, Pixels(), x, y0, h0, page, color);
          return;
        }
        h := h - mod;
        p := p + WIDTH;
      }
      p, h, page := WholeBytes(p, h, color, was, x, clip, page);
      if h != 0 {
        LastByte(p, h, color, was, x, clip, page);
        page := page + 1;
      }
      ColumnEnd(was, Pixels(), x, y0, h0, page, color);
    }

    method DrawFastHLine(x0: int16, y0: int16, w: int16, color: uint16)
      requires Valid()
      modifies buffer
      ensures Valid() && Pixels() == FastH(old(Pixels()), rotation, x0, y0, w, color)
      ensures Faithful(HRoute(rotation, x0, y0, w), w, color)
          ==> Pixels() == PlotAll(old(Pixels()), rotation, HRun(x0, y0, w), color)
      ensures w >= 0 && color <= INVERSE
          ==> Pixels() == PlotAll(old(Pixels()), rotation, HRun(x0, y0, w), color)
    {
      var x, y, bSwap := x0, y0, false;
      match rotation {
        case 1 =>
          bSwap := true;
          x, y := y, x;
          x := Wrap16(WIDTH - x - 1);
        case 2 =>
          x := Wrap16(WIDTH - x - 1);
          y := Wrap16(HEIGHT - y - 1);
          x := Wrap16(x - (w - 1));
        case 3 =>
          bSwap := true;
          x, y := y, x;
          y := Wrap16(HEIGHT - y - 1);
          y := Wrap16(y - (w - 1));
        case _ =>
      }
      FastHExact(rotation, x0, y0, w, color);
      assert HRoute(rotation, x0, y0, w) == if bSwap then Route(true, x, y) else Route(false, y, x);
      if bSwap {
        DrawFastVLineInternal(x, y, w, color);
      } else {
        DrawFastHLineInternal(x, y, w, color);
      }
    }

    method DrawFastVLine(x0: int16, y0: int16, h: int16, color: uint16)
      requires Valid()
      modifies buffer
      ensures Valid() && Pixels() == FastV(old(Pixels()), rotation, x0, y0, h, color)
      ensures Faithful(VRoute(rotation, x0, y0, h), h, color)
          ==> Pixels() == PlotAll(old(Pixels()), rotation, VRun(x0, y0, h), color)
      ensures h >= 0 && color <= INVERSE
          ==> Pixels() == PlotAll(old(Pixels()), rotation, VRun(x0, y0, h), color)
    {
      var x, y, bSwap := x0, y0, false;
      match rotation {
        case 1 =>
          bSwap := true;
          x, y := y, x;
          x := Wrap16(WIDTH - x - 1);
          x := Wrap16(x - (h - 1));
        case 2 =>
          x := Wrap16(WIDTH - x - 1);
          y := Wrap16(HEIGHT - y - 1);
          y := Wrap16(y - (h - 1));
        case 3 =>
          bSwap := true;
          x, y := y, x;
          y := Wrap16(HEIGHT - y - 1);
        case _ =>
      }
      FastVExact(rotation, x0, y0, h, color);
      assert VRoute(rotation, x0, y0, h) == if bSwap then Route(false, y, x) else Route(true, x, y);
      if bSwap {
        DrawFastHLineInternal(x, y, h, color);
      } else {
        DrawFastVLineInternal(x, y, h, color);
      }
    }
  }
}
