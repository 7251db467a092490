// How often the circle outline plots each of its pixels, which decides what INVERSE does to it.
module GfxCircleTimes {
  import opened CInt
  import opened Panel
  import opened GfxCircleShape

  /** Once, except where mirror images coincide: on the axes of the two smallest circles, on
      the diagonals, and beside a diagonal that the octant steps across. */
  function Times(r: int, a: int, b: int): (n: nat)
    ensures n > 0 <==> NearCircle(r, a, b)
  {
    var (lo, hi) := (Min(Abs(a), Abs(b)), Max(Abs(a), Abs(b)));
    if !NearCircle(r, a, b) then 0
    else if lo == 0 then (if r == 0 then 4 else if r == 1 then 3 else 1)
    else if lo == hi || (hi == lo + 1 && MidpointOutside(r, hi, hi)) then 2
    else 1
  }

  /** On the circle of radius 2 a pixel beside the diagonal is plotted twice, so INVERSE drops it. */
  lemma PlottedTwice()
    ensures Times(2, 1, 2) == 2
  {
  }

  /** The octant turns back below the diagonal only by stepping across it. */
  lemma {:induction false} OctantFlat(r: int, x: int, y: int, o: Point)
    requires o in Octant(r, x, y) && o.y < o.x
    ensures o.x == o.y + 1 && MidpointOutside(r, o.x, o.x)
    decreases Max(y - x, 0)
  {
    if o != Point(x + 1, NextY(r, x, y)) { OctantFlat(r, x + 1, NextY(r, x, y), o); }
  }

  lemma {:induction false} OctantGoesOn(r: int, x: int, y: int, o: Point)
    requires o in Octant(r, x, y) && o.x < o.y
    ensures Point(o.x + 1, NextY(r, o.x, o.y)) in Octant(r, x, y)
    decreases Max(y - x, 0)
  {
    var first := Point(x + 1, NextY(r, x, y));
    if o == first {
      assert Octant(r, o.x, o.y) != [] && Octant(r, o.x, o.y)[0] in Octant(r, o.x, o.y);
    } else {
      OctantGoesOn(r, first.x, first.y, o);
    }
  }

  lemma {:induction false} OctantOnce(r: int, x: int, y: int, o: Point)
    requires OnWalk(r, x, y)
    ensures Hits(Octant(r, x, y), o) == if o in Octant(r, x, y) then 1 else 0
    decreases Max(y - x, 0)
  {
    if x < y {
      var first := Point(x + 1, NextY(r, x, y));
      var rest := Octant(r, first.x, first.y);
      WalkStep(r, x, y);
      OctantOnce(r, first.x, first.y, o);
      HitsConcat([first], rest, o);
      if o in rest { OctantSound(r, first.x, first.y, o); }
    }
  }

  /** How often an offset of the octant gives p when mirrored, for p with these coordinates. */
  function MirrorWeight(lo: int, hi: int): nat {
    (if lo == 0 then 2 else 1) * (if lo == hi then 2 else 1)
  }

  function Low(p: Point): int { Min(Abs(p.x), Abs(p.y)) }

  function High(p: Point): int { Max(Abs(p.x), Abs(p.y)) }

  /** o is a mirror image of p in the first quadrant. */
  predicate SamePair(o: Point, p: Point) {
    o == Point(Low(p), High(p)) || o == Point(High(p), Low(p))
  }

  lemma MirrorsHits(o: Point, p: Point)
    requires 0 < o.x && 0 <= o.y
    ensures Hits(Mirrors(o), p) == if SamePair(o, p) then MirrorWeight(Low(p), High(p)) else 0
  {
    EightHits(Mirrors(o), p);
  }

  lemma EightHits(m: seq<Point>, p: Point)
    requires |m| == 8
    ensures Hits(m, p)
         == (if m[0] == p then 1 else 0) + (if m[1] == p then 1 else 0) + (if m[2] == p then 1 else 0)
            + (if m[3] == p then 1 else 0) + (if m[4] == p then 1 else 0) + (if m[5] == p then 1 else 0)
            + (if m[6] == p then 1 else 0) + (if m[7] == p then 1 else 0)
  {
    FourHits(m[..4], p);
    FourHits(m[4..], p);
    assert m == m[..4] + m[4..];
    HitsConcat(m[..4], m[4..], p);
  }

  lemma FourHits(m: seq<Point>, p: Point)
    requires |m| == 4
    ensures Hits(m, p) == (if m[0] == p then 1 else 0) + (if m[1] == p then 1 else 0)
                          + (if m[2] == p then 1 else 0) + (if m[3] == p then 1 else 0)
  {
    assert m == [] + [m[0]] + [m[1]] + [m[2]] + [m[3]];
    HitsSnoc([], m[0], p);
    HitsSnoc([] + [m[0]], m[1], p);
    HitsSnoc([] + [m[0]] + [m[1]], m[2], p);
    HitsSnoc([] + [m[0]] + [m[1]] + [m[2]], m[3], p);
  }

  function PairHits(os: seq<Point>, p: Point): nat {
    Hits(os, Point(Low(p), High(p))) + if Low(p) == High(p) then 0 else Hits(os, Point(High(p), Low(p)))
  }

  lemma {:induction false} AllMirrorsHits(os: seq<Point>, p: Point)
    requires forall o :: o in os ==> 0 < o.x && 0 <= o.y
    ensures Hits(AllMirrors(os), p) == PairHits(os, p) * MirrorWeight(Low(p), High(p))
  {
    if os != [] {
      var init, last, w := os[..|os| - 1], os[|os| - 1], MirrorWeight(Low(p), High(p));
      assert os == init + [last];
      AllMirrorsHits(init, p);
      MirrorsHits(last, p);
      HitsConcat(AllMirrors(init), Mirrors(last), p);
      PairHitsLast(os, p);
      OneMore(PairHits(init, p), w);
    }
  }

  lemma PairHitsLast(os: seq<Point>, p: Point)
    requires os != []
    ensures PairHits(os, p) == PairHits(os[..|os| - 1], p) + if SamePair(os[|os| - 1], p) then 1 else 0
  {
  }

  lemma OneMore(n: int, w: int)
    ensures (n + 1) * w == n * w + w
  {
  }

  /** In the octant, a pair of coordinates occurs steep when it is near the circle, and flat
      when the octant steps across the diagonal there. */
  lemma OctantHits(r: int, lo: int, hi: int)
    requires 0 <= r && 0 <= lo <= hi && NearCircle(r, lo, hi)
    ensures Hits(Octant(r, 0, r), Point(lo, hi)) == if lo == 0 then 0 else 1
    ensures lo < hi ==> Hits(Octant(r, 0, r), Point(hi, lo))
                        == if hi == lo + 1 && MidpointOutside(r, hi, hi) then 1 else 0
  {
    StartOnWalk(r);
    OctantOnce(r, 0, r, Point(lo, hi));
    OctantOnce(r, 0, r, Point(hi, lo));
    if lo > 0 {
      if r < hi { SquareOrder(r, hi); }
      ReachesOutline(r, 0, r, lo, hi);
    } else if Point(lo, hi) in Octant(r, 0, r) {
      OctantSound(r, 0, r, Point(lo, hi));
    }
    if lo < hi { FlatMember(r, lo, hi); }
  }

  lemma FlatMember(r: int, lo: int, hi: int)
    requires 0 <= r && 0 <= lo < hi && NearCircle(r, lo, hi)
    requires lo > 0 ==> Point(lo, hi) in Octant(r, 0, r)
    ensures Point(hi, lo) in Octant(r, 0, r) <==> hi == lo + 1 && MidpointOutside(r, hi, hi)
  {
    if Point(hi, lo) in Octant(r, 0, r) { OctantFlat(r, 0, r, Point(hi, lo)); }
    if hi == lo + 1 && MidpointOutside(r, hi, hi) {
      if lo > 0 {
        OctantGoesOn(r, 0, r, Point(lo, hi));
      } else {
        if r < hi { SquareOrder(r, hi); }
        if hi < r { SquareOrder(hi, r); }
        assert r == 1 && Octant(r, 0, r)[0] == Point(1, 0);
      }
    }
  }

  /** The poles, and the mirror images that fall on an axis. */
  lemma TimesOnAxis(r: int, p: Point)
    requires 0 <= r && NearCircle(r, p.x, p.y) && Low(p) == 0
    ensures Hits(Poles(r), p) == if r == 0 then 4 else 1
    ensures PairHits(Octant(r, 0, r), p) == if r == 1 then 1 else 0
    ensures MirrorWeight(Low(p), High(p)) == if r == 0 then 4 else 2
  {
    SquareOfAbs(p.x);
    SquareOfAbs(p.y);
    if High(p) < r { SquareOrder(High(p), r); }
    if r < High(p) { SquareOrder(r, High(p)); }
    FourHits(Poles(r), p);
    OctantHits(r, 0, High(p));
  }

  lemma PairOffAxis(r: int, p: Point)
    requires 0 <= r && NearCircle(r, p.x, p.y) && Low(p) > 0
    ensures PairHits(Octant(r, 0, r), p)
         == if High(p) == Low(p) + 1 && MidpointOutside(r, High(p), High(p)) then 2 else 1
  {
    SquareOfAbs(p.x);
    SquareOfAbs(p.y);
    OctantHits(r, Low(p), High(p));
  }

  lemma TimesOffAxis(r: int, p: Point)
    requires 0 <= r && NearCircle(r, p.x, p.y) && Low(p) > 0
    ensures Hits(Poles(r), p) == 0
    ensures PairHits(Octant(r, 0, r), p) * MirrorWeight(Low(p), High(p)) == Times(r, p.x, p.y)
  {
    FourHits(Poles(r), p);
    PairOffAxis(r, p);
    if Low(p) == High(p) {
      assert MirrorWeight(Low(p), High(p)) == 2;
    } else {
      assert MirrorWeight(Low(p), High(p)) == 1;
    }
  }

  /** Every offset is plotted exactly so often. */
  lemma OutlineTimes(r: int, p: Point)
    requires 0 <= r
    ensures Hits(OutlineOffsets(r), p) == Times(r, p.x, p.y)
  {
    OutlineIsExact(r, p);
    HitsIn(OutlineOffsets(r), p);
    if NearCircle(r, p.x, p.y) {
      var os := Octant(r, 0, r);
      StartOnWalk(r);
      forall o | o in os ensures 0 < o.x && 0 <= o.y { OctantSound(r, 0, r, o); }
      HitsConcat(Poles(r), AllMirrors(os), p);
      AllMirrorsHits(os, p);
      if Low(p) == 0 { TimesOnAxis(r, p); } else { TimesOffAxis(r, p); }
    }
  }
}
