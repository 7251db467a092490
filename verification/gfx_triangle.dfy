// Adafruit_GFX fillTriangle: sorted vertices, running sums for the two edges of each
// scanline, and the horizontal span between them.
module GfxTriangle {
  import opened CInt
  import opened Panel
  import opened Spans
  import opened Ssd1306

  // ----- the triangle in closed form

  /** Vertices with y0 <= y1 <= y2. */
  datatype Triangle = Triangle(x0: int, y0: int, x1: int, y1: int, x2: int, y2: int) {
    predicate Sorted() { y0 <= y1 <= y2 }

    function Left(): int { Min(x0, Min(x1, x2)) }

    function Right(): int { Max(x0, Max(x1, x2)) }
  }

  /** The three compare-and-swap steps on the y coordinates. */
  function SortByY(a: Point, b: Point, c: Point): (t: Triangle)
    ensures t.Sorted()
  {
    var (a1, b1) := if a.y > b.y then (b, a) else (a, b);
    var (b2, c2) := if b1.y > c.y then (c, b1) else (b1, c);
    var (a3, b3) := if a1.y > b2.y then (b2, a1) else (a1, b2);
    Triangle(a3.x, a3.y, b3.x, b3.y, c2.x, c2.y)
  }

  /** Sorting keeps the three vertices. */
  lemma SortKeepsVertices(a: Point, b: Point, c: Point)
    ensures var t := SortByY(a, b, c);
            multiset{Point(t.x0, t.y0), Point(t.x1, t.y1), Point(t.x2, t.y2)} == multiset{a, b, c}
  {
  }

  /** Where the edge from (xa, ya) down to (xb, yb) crosses scanline y, cut towards xa. */
  function EdgeX(xa: int, ya: int, xb: int, yb: int, y: int): int
    requires ya < yb
  {
    xa + TruncDiv((xb - xa) * (y - ya), yb - ya)
  }

  /** The crossing of the edge through the middle vertex; the flat-bottomed triangle keeps its
      last scanline on the upper edge. */
  function ShortX(t: Triangle, y: int): int
    requires t.Sorted() && t.y0 < t.y2 && t.y0 <= y <= t.y2
  {
    if y < t.y1 || t.y1 == t.y2 then EdgeX(t.x0, t.y0, t.x1, t.y1, y)
    else EdgeX(t.x1, t.y1, t.x2, t.y2, y)
  }

  function LongX(t: Triangle, y: int): int
    requires t.Sorted() && t.y0 < t.y2
  {
    EdgeX(t.x0, t.y0, t.x2, t.y2, y)
  }

  /** First and last pixel of scanline y. */
  function Span(t: Triangle, y: int): (s: (int, int))
    requires t.Sorted() && t.y0 <= y <= t.y2
    ensures s.0 <= s.1
  {
    if t.y0 == t.y2 then (t.Left(), t.Right())
    else (Min(ShortX(t, y), LongX(t, y)), Max(ShortX(t, y), LongX(t, y)))
  }

  function SpanTable(t: Triangle): seq<(int, int)>
    requires t.Sorted()
  {
    seq(t.y2 - t.y0 + 1, i requires 0 <= i <= t.y2 - t.y0 => Span(t, t.y0 + i))
  }

  function Row(y: int, s: (int, int)): seq<Point> {
    HRun(s.0, y, s.1 - s.0 + 1)
  }

  /** The pixels of consecutive spans, the first of them on scanline y. */
  function Rows(y: int, spans: seq<(int, int)>): seq<Point> {
    if spans == [] then []
    else Rows(y, spans[..|spans| - 1]) + Row(y + |spans| - 1, spans[|spans| - 1])
  }

  function TrianglePoints(t: Triangle): seq<Point>
    requires t.Sorted()
  {
    Rows(t.y0, SpanTable(t))
  }

  // ----- edges

  /** Twice the signed area of (edge, p): its sign tells the side p is on. */
  function Side(xa: int, ya: int, xb: int, yb: int, p: Point): int {
    (p.x - xa) * (yb - ya) - (xb - xa) * (p.y - ya)
  }

  /** A truncated crossing is less than one pixel from the true one, and on the right side. */
  lemma EdgeSide(xa: int, ya: int, xb: int, yb: int, p: Point)
    requires ya < yb
    ensures p.x > EdgeX(xa, ya, xb, yb, p.y) ==> Side(xa, ya, xb, yb, p) > 0
    ensures p.x < EdgeX(xa, ya, xb, yb, p.y) ==> Side(xa, ya, xb, yb, p) < 0
    ensures p.x == EdgeX(xa, ya, xb, yb, p.y) ==> Abs(Side(xa, ya, xb, yb, p)) < yb - ya
  {
    QuotientSide(p.x - xa, (xb - xa) * (p.y - ya), yb - ya);
  }

  lemma QuotientSide(k: int, n: int, d: int)
    requires 0 < d
    ensures k > TruncDiv(n, d) ==> k * d - n > 0
    ensures k < TruncDiv(n, d) ==> k * d - n < 0
    ensures k == TruncDiv(n, d) ==> Abs(k * d - n) < d
  {
    TruncDivMeaning(n, d);
    var q := TruncDiv(n, d);
    if k > q { MulGap(q, k, d); }
    if k < q { MulGap(k, q, d); }
  }

  /** A crossing is cut towards xa: it is the last pixel on the way from xa that does not pass
      the edge. */
  lemma EdgeCutsTowardsStart(xa: int, ya: int, xb: int, yb: int, y: int)
    requires ya < yb && ya <= y
    ensures var k := EdgeX(xa, ya, xb, yb, y) - xa;
            && (xb >= xa ==> k >= 0) && (xb <= xa ==> k <= 0)
            && Abs(k) * (yb - ya) <= Abs(xb - xa) * (y - ya) < (Abs(k) + 1) * (yb - ya)
  {
    var n, d := (xb - xa) * (y - ya), yb - ya;
    if xb >= xa {
      MulSign(xb - xa, y - ya);
      TruncDivMeaning(n, d);
    } else {
      MulSign(xa - xb, y - ya);
      assert n == -((xa - xb) * (y - ya));
      TruncDivMeaning(n, d);
      assert TruncDiv(n, d) * d == -(-TruncDiv(n, d) * d);
    }
  }

  lemma MulSign(a: int, b: int)
    requires 0 <= a && 0 <= b
    ensures 0 <= a * b
  {
  }

  /** A crossing lies between the two ends of its edge, and meets them exactly. */
  lemma EdgeBetween(xa: int, ya: int, xb: int, yb: int, y: int)
    requires ya < yb && ya <= y <= yb
    ensures Min(xa, xb) <= EdgeX(xa, ya, xb, yb, y) <= Max(xa, xb)
    ensures y == ya ==> EdgeX(xa, ya, xb, yb, y) == xa
    ensures y == yb ==> EdgeX(xa, ya, xb, yb, y) == xb
  {
    PartOf(xb - xa, y - ya, yb - ya);
  }

  lemma SpanInBox(t: Triangle, y: int)
    requires t.Sorted() && t.y0 <= y <= t.y2
    ensures t.Left() <= Span(t, y).0 <= Span(t, y).1 <= t.Right()
  {
    if t.y0 < t.y2 {
      EdgeBetween(t.x0, t.y0, t.x2, t.y2, y);
      if y < t.y1 || t.y1 == t.y2 {
        EdgeBetween(t.x0, t.y0, t.x1, t.y1, y);
      } else {
        EdgeBetween(t.x1, t.y1, t.x2, t.y2, y);
      }
    }
  }

  // ----- what is painted

  lemma RowCount(above: seq<Point>, s: (int, int), y: int, p: Point)
    requires s.0 <= s.1
    ensures Hits(above + Row(y, s), p)
         == Hits(above, p) + if p.y == y && s.0 <= p.x <= s.1 then 1 else 0
  {
    HRunCount(s.0, y, s.1 - s.0 + 1, p);
    HitsConcat(above, Row(y, s), p);
  }

  lemma {:induction false} RowsCount(y: int, spans: seq<(int, int)>, p: Point)
    requires forall i :: 0 <= i < |spans| ==> spans[i].0 <= spans[i].1
    ensures Hits(Rows(y, spans), p)
         == if y <= p.y < y + |spans| && spans[p.y - y].0 <= p.x <= spans[p.y - y].1 then 1 else 0
  {
    if spans != [] {
      var init, s := spans[..|spans| - 1], spans[|spans| - 1];
      RowsCount(y, init, p);
      RowCount(Rows(y, init), s, y + |spans| - 1, p);
    }
  }

  /** Every scanline is drawn once, and so is every pixel of it. */
  lemma TriangleCount(t: Triangle, p: Point)
    requires t.Sorted()
    ensures Hits(TrianglePoints(t), p)
         == if t.y0 <= p.y <= t.y2 && Span(t, p.y).0 <= p.x <= Span(t, p.y).1 then 1 else 0
  {
    var spans := SpanTable(t);
    forall i | 0 <= i < |spans| ensures spans[i].0 <= spans[i].1 {
      assert spans[i] == Span(t, t.y0 + i);
    }
    RowsCount(t.y0, spans, p);
    if t.y0 <= p.y <= t.y2 {
      assert spans[p.y - t.y0] == Span(t, t.y0 + (p.y - t.y0));
    }
  }

  lemma SpanIsPainted(t: Triangle, p: Point)
    requires t.Sorted() && t.y0 <= p.y <= t.y2 && Span(t, p.y).0 <= p.x <= Span(t, p.y).1
    ensures p in TrianglePoints(t)
  {
    TriangleCount(t, p);
    HitsIn(TrianglePoints(t), p);
  }

  lemma VerticesOnSpans(t: Triangle)
    requires t.Sorted()
    ensures Span(t, t.y0).0 <= t.x0 <= Span(t, t.y0).1
    ensures Span(t, t.y1).0 <= t.x1 <= Span(t, t.y1).1
    ensures Span(t, t.y2).0 <= t.x2 <= Span(t, t.y2).1
  {
    if t.y0 < t.y2 {
      EdgeBetween(t.x0, t.y0, t.x2, t.y2, t.y0);
      EdgeBetween(t.x0, t.y0, t.x2, t.y2, t.y2);
      if t.y0 < t.y1 { EdgeBetween(t.x0, t.y0, t.x1, t.y1, t.y1); }
      if t.y1 < t.y2 { EdgeBetween(t.x1, t.y1, t.x2, t.y2, t.y1); }
    }
  }

  lemma VerticesArePainted(t: Triangle)
    requires t.Sorted()
    ensures Point(t.x0, t.y0) in TrianglePoints(t)
    ensures Point(t.x1, t.y1) in TrianglePoints(t)
    ensures Point(t.x2, t.y2) in TrianglePoints(t)
  {
    VerticesOnSpans(t);
    SpanIsPainted(t, Point(t.x0, t.y0));
    SpanIsPainted(t, Point(t.x1, t.y1));
    SpanIsPainted(t, Point(t.x2, t.y2));
  }

  // ----- the painted pixels against the true triangle

  function ShortSide(t: Triangle, p: Point): int {
    if p.y < t.y1 || t.y1 == t.y2 then Side(t.x0, t.y0, t.x1, t.y1, p) else Side(t.x1, t.y1, t.x2, t.y2, p)
  }

  function LongSide(t: Triangle, p: Point): int {
    Side(t.x0, t.y0, t.x2, t.y2, p)
  }

  /** Height of the edge ShortX follows on scanline y. */
  function ShortHeight(t: Triangle, y: int): int {
    if y < t.y1 || t.y1 == t.y2 then t.y1 - t.y0 else t.y2 - t.y1
  }

  /** p is in the closed triangle: on its scanline, between the two edges. */
  predicate Inside(t: Triangle, p: Point) {
    && t.y0 <= p.y <= t.y2
    && (ShortSide(t, p) <= 0 <= LongSide(t, p) || LongSide(t, p) <= 0 <= ShortSide(t, p))
  }

  lemma ShortEdge(t: Triangle, p: Point)
    requires t.Sorted() && t.y0 < t.y2 && t.y0 <= p.y <= t.y2
    ensures p.x > ShortX(t, p.y) ==> ShortSide(t, p) > 0
    ensures p.x < ShortX(t, p.y) ==> ShortSide(t, p) < 0
    ensures p.x == ShortX(t, p.y) ==> Abs(ShortSide(t, p)) < ShortHeight(t, p.y)
  {
    if p.y < t.y1 || t.y1 == t.y2 {
      EdgeSide(t.x0, t.y0, t.x1, t.y1, p);
    } else {
      EdgeSide(t.x1, t.y1, t.x2, t.y2, p);
    }
  }

  lemma LongEdge(t: Triangle, p: Point)
    requires t.Sorted() && t.y0 < t.y2
    ensures p.x > LongX(t, p.y) ==> LongSide(t, p) > 0
    ensures p.x < LongX(t, p.y) ==> LongSide(t, p) < 0
    ensures p.x == LongX(t, p.y) ==> Abs(LongSide(t, p)) < t.y2 - t.y0
  {
    EdgeSide(t.x0, t.y0, t.x2, t.y2, p);
  }

  /** Being on a scanline's span, against the sides of the two edges that end it. */
  lemma BetweenEdges(x: int, short: int, long: int, shortSide: int, longSide: int)
    requires (x > short ==> shortSide > 0) && (x < short ==> shortSide < 0)
    requires (x > long ==> longSide > 0) && (x < long ==> longSide < 0)
    ensures shortSide <= 0 <= longSide || longSide <= 0 <= shortSide ==> Min(short, long) <= x <= Max(short, long)
    ensures Min(short, long) <= x <= Max(short, long) && x != short && x != long ==>
              shortSide < 0 < longSide || longSide < 0 < shortSide
  {
  }

  /** Every integer point of the closed triangle is painted; every painted pixel but the two
      ends of its scanline lies in the open triangle, and an end is less than one pixel away
      from its edge.  A triangle on one scanline is painted from its first to its last vertex. */
  lemma PaintedAgainstTriangle(t: Triangle, p: Point)
    requires t.Sorted()
    ensures t.y0 == t.y2 ==> (p in TrianglePoints(t) <==> p.y == t.y0 && t.Left() <= p.x <= t.Right())
    ensures t.y0 < t.y2 && Inside(t, p) ==> p in TrianglePoints(t)
    ensures t.y0 < t.y2 && p in TrianglePoints(t) ==>
              && t.y0 <= p.y <= t.y2
              && (|| (Inside(t, p) && ShortSide(t, p) != 0 && LongSide(t, p) != 0)
                  || (p.x == LongX(t, p.y) && Abs(LongSide(t, p)) < t.y2 - t.y0)
                  || (p.x == ShortX(t, p.y) && Abs(ShortSide(t, p)) < ShortHeight(t, p.y)))
  {
    TriangleCount(t, p);
    HitsIn(TrianglePoints(t), p);
    if t.y0 < t.y2 && t.y0 <= p.y <= t.y2 {
      ShortEdge(t, p);
      LongEdge(t, p);
      BetweenEdges(p.x, ShortX(t, p.y), LongX(t, p.y), ShortSide(t, p), LongSide(t, p));
    }
  }

  // ----- the order of the vertices

  /** The same triangle with two vertices of equal height exchanged, or all on one line. */
  predicate SameUpToTies(t: Triangle, u: Triangle) {
    || t == u
    || (t.y0 == t.y1 && u == Triangle(t.x1, t.y1, t.x0, t.y0, t.x2, t.y2))
    || (t.y1 == t.y2 && u == Triangle(t.x0, t.y0, t.x2, t.y2, t.x1, t.y1))
    || (t.y0 == t.y1 == t.y2 == u.y0 == u.y1 == u.y2 && t.Left() == u.Left() && t.Right() == u.Right())
  }

  lemma TiesPaintAlike(t: Triangle, u: Triangle)
    requires t.Sorted() && u.Sorted() && SameUpToTies(t, u)
    ensures TrianglePoints(t) == TrianglePoints(u)
  {
    forall y | t.y0 <= y <= t.y2 ensures Span(t, y) == Span(u, y) {
    }
    assert SpanTable(t) == SpanTable(u);
  }

  lemma FirstTwoExchange(a: Point, b: Point, c: Point)
    ensures TrianglePoints(SortByY(a, b, c)) == TrianglePoints(SortByY(b, a, c))
  {
    TiesPaintAlike(SortByY(a, b, c), SortByY(b, a, c));
  }

  lemma LastTwoExchange(a: Point, b: Point, c: Point)
    ensures TrianglePoints(SortByY(a, b, c)) == TrianglePoints(SortByY(a, c, b))
  {
    TiesPaintAlike(SortByY(a, b, c), SortByY(a, c, b));
  }

  /** Reordering the three vertices leaves the painted pixels alone, ties in y included. */
  lemma VertexOrderIsIrrelevant(a: Point, b: Point, c: Point)
    ensures TrianglePoints(SortByY(a, b, c)) == TrianglePoints(SortByY(b, a, c))
    ensures TrianglePoints(SortByY(a, b, c)) == TrianglePoints(SortByY(a, c, b))
    ensures TrianglePoints(SortByY(a, b, c)) == TrianglePoints(SortByY(b, c, a))
    ensures TrianglePoints(SortByY(a, b, c)) == TrianglePoints(SortByY(c, a, b))
    ensures TrianglePoints(SortByY(a, b, c)) == TrianglePoints(SortByY(c, b, a))
  {
    FirstTwoExchange(a, b, c);
    LastTwoExchange(a, b, c);
    LastTwoExchange(b, a, c);
    FirstTwoExchange(a, c, b);
    FirstTwoExchange(b, c, a);
  }

  // ----- fillTriangle

  /** The 16-bit differences, span widths and loop counters do not wrap. */
  predicate TriangleFits(t: Triangle) {
    && -0x8000 <= t.Left() && t.Right() < 0x8000 && t.Right() - t.Left() < 0x7FFF
    && -0x8000 <= t.y0 && t.y2 - t.y0 < 0x8000 && (t.y0 < t.y2 ==> t.y2 < 0x7FFF)
    && (t.y1 < t.y2 ==> -0x8000 < t.y1)
  }

  /** The frame after the first n spans. */
  ghost function AfterRows(was: Frame, rot: Rotation, top: int, spans: seq<(int, int)>, n: int, c: uint16): Frame
    requires 0 <= n <= |spans|
  {
    PlotAll(was, rot, Rows(top, spans[..n]), c)
  }

  lemma RowsSnoc(y: int, spans: seq<(int, int)>, s: (int, int))
    ensures Rows(y, spans + [s]) == Rows(y, spans) + Row(y + |spans|, s)
  {
    assert (spans + [s])[..|spans|] == spans;
  }

  lemma RowsStep(was: Frame, rot: Rotation, top: int, spans: seq<(int, int)>, n: int, row: seq<Point>, c: uint16)
    requires 0 <= n < |spans| && row == Row(top + n, spans[n])
    ensures AfterRows(was, rot, top, spans, n + 1, c) == PlotAll(AfterRows(was, rot, top, spans, n, c), rot, row, c)
  {
    var above := spans[..n];
    assert spans[..n + 1] == above + [spans[n]];
    RowsSnoc(top, above, spans[n]);
    PlotAllConcat(was, rot, Rows(top, above), row, c);
  }

  /** One scanline: order the two crossings and draw between them. */
  method DrawSpan(d: Display, a0: int16, b0: int16, y: int16, color: uint16,
                  ghost was: Frame, ghost top: int, ghost spans: seq<(int, int)>)
    requires d.Valid() && top <= y < top + |spans| && Abs(b0 - a0) < 0x7FFF
    requires spans[y - top] == (Min(a0, b0), Max(a0, b0))
    requires color <= INVERSE ==> d.Pixels() == AfterRows(was, d.rotation, top, spans, y - top, color)
    modifies d.buffer
    ensures d.Valid()
    ensures color <= INVERSE ==> d.Pixels() == AfterRows(was, d.rotation, top, spans, y - top + 1, color)
  {
    var a, b := a0, b0;
    if a > b { a, b := b, a; }
    var w := Wrap16(b - a + 1);
    RowsStep(was, d.rotation, top, spans, y - top, HRun(a, y, w), color);
    d.DrawFastHLine(a, y, w, color);
  }

  /** A running sum after k additions of dx. */
  function SumOf(dx: int, k: nat): int {
    if k == 0 then 0 else SumOf(dx, k - 1) + dx
  }

  /** The running sum is the product the longhand formula uses, and stays a 32-bit number. */
  lemma {:induction false} SumIsProduct(dx: int, k: nat)
    ensures SumOf(dx, k) == dx * k
    ensures -0x8000 < dx < 0x8000 && k <= 0x8000 ==> -0x8000_0000 <= SumOf(dx, k) < 0x8000_0000
  {
    if k > 0 { SumIsProduct(dx, k - 1); }
    if -0x8000 < dx < 0x8000 && k <= 0x8000 {
      if dx >= 0 { MulMonotone(dx, k, 0x8000); } else { MulMonotone(-dx, k, 0x8000); }
    }
  }

  lemma NextSum(dx: int, k: nat)
    requires -0x8000 < dx < 0x8000 && k < 0x8000
    ensures SumOf(dx, k + 1) == SumOf(dx, k) + dx
    ensures -0x8000_0000 <= SumOf(dx, k + 1) < 0x8000_0000
  {
    SumIsProduct(dx, k + 1);
  }

  /** The two ends of scanline y as the upper loop computes them from its running sums. */
  lemma UpperRow(t: Triangle, y: int, sa: int, sb: int)
    requires t.Sorted() && t.y0 < t.y2 && t.y0 <= y <= t.y2 && (y < t.y1 || t.y1 == t.y2)
    requires sa == SumOf(t.x1 - t.x0, y - t.y0) && sb == SumOf(t.x2 - t.x0, y - t.y0)
    ensures var a, b := t.x0 + TruncDiv(sa, t.y1 - t.y0), t.x0 + TruncDiv(sb, t.y2 - t.y0);
            && Span(t, y) == (Min(a, b), Max(a, b))
            && t.Left() <= a <= t.Right() && t.Left() <= b <= t.Right()
  {
    SpanInBox(t, y);
    SumIsProduct(t.x1 - t.x0, y - t.y0);
    SumIsProduct(t.x2 - t.x0, y - t.y0);
  }

  /** The same for the lower loop. */
  lemma LowerRow(t: Triangle, y: int, sa: int, sb: int)
    requires t.Sorted() && t.y1 < t.y2 && t.y1 <= y <= t.y2
    requires sa == SumOf(t.x2 - t.x1, y - t.y1) && sb == SumOf(t.x2 - t.x0, y - t.y0)
    ensures var a, b := t.x1 + TruncDiv(sa, t.y2 - t.y1), t.x0 + TruncDiv(sb, t.y2 - t.y0);
            && Span(t, y) == (Min(a, b), Max(a, b))
            && t.Left() <= a <= t.Right() && t.Left() <= b <= t.Right()
  {
    SpanInBox(t, y);
    SumIsProduct(t.x2 - t.x1, y - t.y1);
    SumIsProduct(t.x2 - t.x0, y - t.y0);
  }

  lemma SpanAt(t: Triangle, y: int)
    requires t.Sorted() && t.y0 <= y <= t.y2
    ensures SpanTable(t)[y - t.y0] == Span(t, y)
  {
  }

  /** The two quotients of a scanline fit 16 bits and are the ends of its span. */
  lemma CrossingsFit(t: Triangle, xa: int, sa: int, dya: int, sb: int, y: int)
    requires t.Sorted() && TriangleFits(t) && t.y0 < t.y2 && t.y0 <= y <= t.y2
    requires (xa, dya) == if y < t.y1 || t.y1 == t.y2 then (t.x0, t.y1 - t.y0) else (t.x1, t.y2 - t.y1)
    requires sa == if y < t.y1 || t.y1 == t.y2 then SumOf(t.x1 - t.x0, y - t.y0) else SumOf(t.x2 - t.x1, y - t.y1)
    requires sb == SumOf(t.x2 - t.x0, y - t.y0)
    ensures var a, b := xa + TruncDiv(sa, dya), t.x0 + TruncDiv(sb, t.y2 - t.y0);
            && -0x8000 <= a < 0x8000 && -0x8000 <= b < 0x8000 && Abs(b - a) < 0x7FFF
            && SpanTable(t)[y - t.y0] == (Min(a, b), Max(a, b))
  {
    if y < t.y1 || t.y1 == t.y2 { UpperRow(t, y, sa, sb); } else { LowerRow(t, y, sa, sb); }
    SpanAt(t, y);
  }

  /** The divisions of one scanline and its span, shared by the two loops. */
  method DrawCrossings(d: Display, ghost t: Triangle, xa: int16, sa: int32, dya: int16,
                       xb: int16, sb: int32, dyb: int16, y: int16, color: uint16, ghost was: Frame)
    requires d.Valid() && t.Sorted() && TriangleFits(t) && t.y0 < t.y2 && t.y0 <= y <= t.y2
    requires (xa, dya) == if y < t.y1 || t.y1 == t.y2 then (t.x0, t.y1 - t.y0) else (t.x1, t.y2 - t.y1)
    requires sa == if y < t.y1 || t.y1 == t.y2 then SumOf(t.x1 - t.x0, y - t.y0) else SumOf(t.x2 - t.x1, y - t.y1)
    requires xb == t.x0 && dyb == t.y2 - t.y0 && sb == SumOf(t.x2 - t.x0, y - t.y0)
    requires color <= INVERSE ==> d.Pixels() == AfterRows(was, d.rotation, t.y0, SpanTable(t), y - t.y0, color)
    modifies d.buffer
    ensures d.Valid()
    ensures color <= INVERSE ==> d.Pixels() == AfterRows(was, d.rotation, t.y0, SpanTable(t), y - t.y0 + 1, color)
  {
    CrossingsFit(t, xa, sa, dya, sb, y);
    var a := Wrap16(xa + TruncDiv(sa, dya));
    var b := Wrap16(xb + TruncDiv(sb, dyb));
    DrawSpan(d, a, b, y, color, was, t.y0, SpanTable(t));
  }

  /** The loop over the upper edge, with its running sums. */
  method UpperRows(d: Display, ghost t: Triangle, x0: int16, y0: int16, last: int16,
                   dx01: int16, dy01: int16, dx02: int16, dy02: int16, color: uint16, ghost was: Frame)
    returns (y: int16)
    requires d.Valid() && t.Sorted() && TriangleFits(t) && t.y0 < t.y2 && t.x0 == x0 && t.y0 == y0
    requires dx01 == t.x1 - t.x0 && dy01 == t.y1 - t.y0 && dx02 == t.x2 - t.x0 && dy02 == t.y2 - t.y0
    requires last == if t.y1 == t.y2 then t.y1 else t.y1 - 1
    requires color <= INVERSE ==> d.Pixels() == AfterRows(was, d.rotation, t.y0, SpanTable(t), 0, color)
    modifies d.buffer
    ensures d.Valid() && y == last + 1
    ensures color <= INVERSE ==> d.Pixels() == AfterRows(was, d.rotation, t.y0, SpanTable(t), y - t.y0, color)
  {
    var sa: int32, sb: int32 := 0, 0;
    y := y0;
    while y <= last
      invariant y0 <= y <= last + 1
      invariant sa == SumOf(dx01, y - y0) && sb == SumOf(dx02, y - y0)
      invariant d.Valid()
      invariant color <= INVERSE ==> d.Pixels() == AfterRows(was, d.rotation, t.y0, SpanTable(t), y - t.y0, color)
    {
      DrawCrossings(d, t, x0, sa, dy01, x0, sb, dy02, y, color, was);
      NextSum(dx01, y - y0);
      NextSum(dx02, y - y0);
      sa := sa + dx01;
      sb := sb + dx02;
      y := Wrap16(y + 1);
    }
  }

  /** The loop over the lower edge, from scanline y1 or past the end. */
  method LowerRows(d: Display, ghost t: Triangle, x0: int16, y0: int16, x1: int16, y1: int16, y2: int16, from: int16,
                   sa0: int32, sb0: int32, dx02: int16, dy02: int16, dx12: int16, dy12: int16,
                   color: uint16, ghost was: Frame)
    requires d.Valid() && t == Triangle(x0, y0, x1, y1, t.x2, y2) && t.Sorted() && TriangleFits(t) && t.y0 < t.y2
    requires dx02 == t.x2 - t.x0 && dy02 == t.y2 - t.y0 && dx12 == t.x2 - t.x1 && dy12 == t.y2 - t.y1
    requires from == if t.y1 == t.y2 then t.y2 + 1 else t.y1
    requires sa0 == SumOf(dx12, from - y1) && sb0 == SumOf(dx02, from - y0)
    requires color <= INVERSE ==> d.Pixels() == AfterRows(was, d.rotation, t.y0, SpanTable(t), from - t.y0, color)
    modifies d.buffer
    ensures d.Valid()
    ensures color <= INVERSE ==>
              d.Pixels() == AfterRows(was, d.rotation, t.y0, SpanTable(t), y2 + 1 - y0, color)
  {
    var y := from;
    var sa: int32, sb: int32 := sa0, sb0;
    while y <= y2
      invariant from <= y <= y2 + 1
      invariant sa == SumOf(dx12, y - y1) && sb == SumOf(dx02, y - y0)
      invariant d.Valid()
      invariant color <= INVERSE ==> d.Pixels() == AfterRows(was, d.rotation, t.y0, SpanTable(t), y - t.y0, color)
    {
      DrawCrossings(d, t, x1, sa, dy12, x0, sb, dy02, y, color, was);
      NextSum(dx12, y - y1);
      NextSum(dx02, y - y0);
      sa := sa + dx12;
      sb := sb + dx02;
      y := Wrap16(y + 1);
    }
  }

  /** fillTriangle paints the closed-form triangle of its sorted vertices. */
  method FillTriangle(d: Display, xa: int16, ya: int16, xb: int16, yb: int16, xc: int16, yc: int16, color: uint16)
    requires d.Valid() && TriangleFits(SortByY(Point(xa, ya), Point(xb, yb), Point(xc, yc)))
    modifies d.buffer
    ensures d.Valid()
    ensures color <= INVERSE ==>
              d.Pixels() == PlotAll(old(d.Pixels()), d.rotation,
                                    TrianglePoints(SortByY(Point(xa, ya), Point(xb, yb), Point(xc, yc))), color)
  {
    var x0, y0, x1, y1, x2, y2 := SortVertices(xa, ya, xb, yb, xc, yc);
    if y0 == y2 {
      FillFlat(d, x0, y0, x1, x2, color);
    } else {
      FillRows(d, x0, y0, x1, y1, x2, y2, color);
    }
  }

  /** The three compare-and-swap steps. */
  method SortVertices(xa: int16, ya: int16, xb: int16, yb: int16, xc: int16, yc: int16)
    returns (x0: int16, y0: int16, x1: int16, y1: int16, x2: int16, y2: int16)
    ensures Triangle(x0, y0, x1, y1, x2, y2) == SortByY(Point(xa, ya), Point(xb, yb), Point(xc, yc))
  {
    x0, y0, x1, y1, x2, y2 := xa, ya, xb, yb, xc, yc;
    if y0 > y1 { x0, y0, x1, y1 := x1, y1, x0, y0; }
    if y1 > y2 { x2, y2, x1, y1 := x1, y1, x2, y2; }
    if y0 > y1 { x0, y0, x1, y1 := x1, y1, x0, y0; }
  }

  lemma FlatPoints(t: Triangle)
    requires t.Sorted() && t.y0 == t.y2
    ensures TrianglePoints(t) == HRun(t.Left(), t.y0, t.Right() - t.Left() + 1)
  {
    var spans := SpanTable(t);
    assert |spans| == 1 && spans[0] == Span(t, t.y0);
    assert Rows(t.y0, spans[..0]) == [];
    assert [] + Row(t.y0, spans[0]) == Row(t.y0, spans[0]);
  }

  /** The first and last pixel of three vertices on one scanline. */
  method Extent(x0: int16, x1: int16, x2: int16) returns (a: int16, b: int16)
    ensures a == Min(x0, Min(x1, x2)) && b == Max(x0, Max(x1, x2))
  {
    a, b := x0, x0;
    if x1 < a { a := x1; } else if x1 > b { b := x1; }
    if x2 < a { a := x2; } else if x2 > b { b := x2; }
  }

  /** All three vertices on one scanline. */
  method FillFlat(d: Display, x0: int16, y0: int16, x1: int16, x2: int16, color: uint16)
    requires d.Valid() && TriangleFits(Triangle(x0, y0, x1, y0, x2, y0))
    modifies d.buffer
    ensures d.Valid()
    ensures color <= INVERSE ==>
              var t := Triangle(x0, y0, x1, y0, x2, y0);
              d.Pixels() == PlotAll(old(d.Pixels()), d.rotation, TrianglePoints(t), color)
  {
    ghost var t := Triangle(x0, y0, x1, y0, x2, y0);
    FlatPoints(t);
    var a, b := Extent(x0, x1, x2);
    var w := Wrap16(b - a + 1);
    assert w == t.Right() - t.Left() + 1;
    d.DrawFastHLine(a, y0, w, color);
  }

  /** The two scanline loops. */
  method FillRows(d: Display, x0: int16, y0: int16, x1: int16, y1: int16, x2: int16, y2: int16, color: uint16)
    requires y0 <= y1 <= y2 && y0 < y2 && d.Valid() && TriangleFits(Triangle(x0, y0, x1, y1, x2, y2))
    modifies d.buffer
    ensures d.Valid()
    ensures color <= INVERSE ==>
              var t := Triangle(x0, y0, x1, y1, x2, y2);
              d.Pixels() == PlotAll(old(d.Pixels()), d.rotation, TrianglePoints(t), color)
  {
    ghost var t, was := Triangle(x0, y0, x1, y1, x2, y2), d.Pixels();
    var dx01, dy01 := Wrap16(x1 - x0), Wrap16(y1 - y0);
    var dx02, dy02 := Wrap16(x2 - x0), Wrap16(y2 - y0);
    var dx12, dy12 := Wrap16(x2 - x1), Wrap16(y2 - y1);
    var last: int16 := if y1 == y2 then y1 else Wrap16(y1 - 1);
    assert SpanTable(t)[..0] == [];
    var y := UpperRows(d, t, x0, y0, last, dx01, dy01, dx02, dy02, color, was);
    SumIsProduct(dx12, y - y1);
    SumIsProduct(dx02, y - y0);
    var sa: int32 := dx12 * (y - y1);
    var sb: int32 := dx02 * (y - y0);
    LowerRows(d, t, x0, y0, x1, y1, y2, y, sa, sb, dx02, dy02, dx12, dy12, color, was);
    assert SpanTable(t)[..y2 + 1 - y0] == SpanTable(t);
  }
}
