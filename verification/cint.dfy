// The C integer conversions the modelled code relies on.  Arithmetic is done on
// unbounded integers (C's `int` is wide enough for every expression modelled here) and
// every store into a 16-bit variable goes through Wrap16.
module CInt {
  type int16 = v: int | -0x8000 <= v < 0x8000

  type int32 = v: int | -0x8000_0000 <= v < 0x8000_0000

  type uint16 = v: int | 0 <= v < 0x1_0000

  /** Conversion to int16_t: the value congruent to v modulo 2^16 that fits. */
  function Wrap16(v: int): (r: int16)
    ensures (v - r) % 0x1_0000 == 0
    ensures -0x8000 <= v < 0x8000 ==> r == v
  {
    (v + 0x8000) % 0x1_0000 - 0x8000
  }

  /** C's `/` on ints: truncation towards zero (Dafny's `/` is Euclidean). */
  function TruncDiv(a: int, b: int): int
    requires b > 0
  {
    if a >= 0 then a / b else -((-a) / b)
  }

  lemma TruncDivMeaning(a: int, b: int)
    requires b > 0
    ensures var q := TruncDiv(a, b);
            && (a >= 0 ==> 0 <= q && q * b <= a < q * b + b)
            && (a <= 0 ==> q <= 0 && q * b - b < a <= q * b)
  {
  }

  function Max(a: int, b: int): int { if a >= b then a else b }

  function Min(a: int, b: int): int { if a <= b then a else b }

  function Abs(a: int): int { if a >= 0 then a else -a }

  lemma {:induction false} MulGap(a: int, b: int, d: int)
    requires a < b && 0 < d
    ensures a * d + d <= b * d
    decreases b - a
  {
    if a + 1 < b { MulGap(a, b - 1, d); }
  }

  lemma QuotientIsUnique(n: int, d: int, q: int)
    requires 0 < d && q * d <= n < q * d + d
    ensures n / d == q
  {
    var r := n / d;
    if r < q { MulGap(r, q, d); }
    if r > q { MulGap(q, r, d); }
  }

  lemma MulMonotone(w: int, k: int, d: int)
    requires 0 <= w && 0 <= k <= d
    ensures 0 <= w * k <= w * d
  {
  }

  /** A quotient of w*k by d is a k/d-th part of w. */
  lemma PartOf(w: int, k: int, d: int)
    requires 0 <= k <= d && 0 < d
    ensures Min(0, w) <= TruncDiv(w * k, d) <= Max(0, w)
    ensures k == 0 ==> TruncDiv(w * k, d) == 0
    ensures k == d ==> TruncDiv(w * k, d) == w
  {
    TruncDivMeaning(w * k, d);
    var q := TruncDiv(w * k, d);
    if w >= 0 {
      MulMonotone(w, k, d);
      if q > w { MulGap(w, q, d); }
      if k == d && q < w { MulGap(q, w, d); }
    } else {
      MulMonotone(-w, k, d);
      assert (-w) * k == -(w * k) && (-w) * d == -(w * d);
      if q < w { MulGap(q, w, d); }
      if k == d && q > w { MulGap(w, q, d); }
    }
  }
}
