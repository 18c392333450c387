/** Boxes of the 32 x 32 x 32 colour cube, and sums of a histogram over them. */
module ColourBoxes {

  const SIDE := 0x20
  const POINTS := 0x8000

  datatype Axis = R | G | B

  datatype Box = Box(r0: nat, r1: nat, g0: nat, g1: nat, b0: nat, b1: nat) {
    function Lo(a: Axis): nat {
      match a case R => r0 case G => g0 case B => b0
    }

    function Hi(a: Axis): nat {
      match a case R => r1 case G => g1 case B => b1
    }

    /** The box with its extent along one axis replaced. */
    function With(a: Axis, lo: nat, hi: nat): Box {
      match a
      case R => this.(r0 := lo, r1 := hi)
      case G => this.(g0 := lo, g1 := hi)
      case B => this.(b0 := lo, b1 := hi)
    }

    function Slice(a: Axis, k: nat): Box { With(a, k, k + 1) }

    function Below(a: Axis, k: nat): Box { With(a, Lo(a), k) }

    function From(a: Axis, k: nat): Box { With(a, k, Hi(a)) }

    ghost predicate Valid() {
      r0 < r1 <= SIDE && g0 < g1 <= SIDE && b0 < b1 <= SIDE
    }
  }

  /** The histogram is kept as one array, freqs[b][g][r]. */
  function Point(r: nat, g: nat, b: nat): nat { 1024 * b + 32 * g + r }

  function Coord(a: Axis, p: nat): nat {
    match a case R => p % 32 case G => p / 32 % 32 case B => p / 1024
  }

  predicate In(c: Box, p: nat) {
    && c.r0 <= Coord(R, p) < c.r1
    && c.g0 <= Coord(G, p) < c.g1
    && c.b0 <= Coord(B, p) < c.b1
  }

  lemma PointCoords(r: nat, g: nat, b: nat)
    requires r < SIDE && g < SIDE && b < SIDE
    ensures Point(r, g, b) < POINTS
    ensures Coord(R, Point(r, g, b)) == r && Coord(G, Point(r, g, b)) == g && Coord(B, Point(r, g, b)) == b
  {
    assert Point(r, g, b) == 32 * (32 * b + g) + r;
    assert Point(r, g, b) / 32 == 32 * b + g;
  }

  lemma CoordsPoint(p: nat)
    requires p < POINTS
    ensures Coord(R, p) < SIDE && Coord(G, p) < SIDE && Coord(B, p) < SIDE
    ensures Point(Coord(R, p), Coord(G, p), Coord(B, p)) == p
  {
  }

  /** The sum of the first n histogram entries that lie in the box. */
  ghost function SumTo(h: seq<nat>, c: Box, n: nat): nat
    requires n <= |h|
  {
    if n == 0 then 0 else SumTo(h, c, n - 1) + if In(c, n - 1) then h[n - 1] else 0
  }

  ghost function Sum(h: seq<nat>, c: Box): nat { SumTo(h, c, |h|) }

  /** No counted colour lies in the box. */
  ghost predicate Unused(h: seq<nat>, c: Box) {
    forall p: nat {:trigger In(c, p)} :: p < |h| && In(c, p) ==> h[p] == 0
  }

  lemma {:induction false} SumToZero(h: seq<nat>, c: Box, n: nat)
    requires n <= |h|
    ensures SumTo(h, c, n) == 0 <==> forall p: nat {:trigger In(c, p)} :: p < n && In(c, p) ==> h[p] == 0
  {
    if n != 0 {
      SumToZero(h, c, n - 1);
      assert In(c, n - 1) ==> SumTo(h, c, n) == SumTo(h, c, n - 1) + h[n - 1];
    }
  }

  lemma SumZero(h: seq<nat>, c: Box)
    ensures Sum(h, c) == 0 <==> Unused(h, c)
  {
    SumToZero(h, c, |h|);
  }

  /** A box that is split into two has the sum of the two. */
  lemma {:induction false} SumToParts(h: seq<nat>, c: Box, a: Box, b: Box, n: nat)
    requires n <= |h|
    requires forall p: nat {:trigger In(c, p)} :: p < n ==>
               (In(c, p) <==> In(a, p) || In(b, p)) && !(In(a, p) && In(b, p))
    ensures SumTo(h, c, n) == SumTo(h, a, n) + SumTo(h, b, n)
  {
    if n != 0 {
      SumToParts(h, c, a, b, n - 1);
      assert In(c, n - 1) <==> In(a, n - 1) || In(b, n - 1);
    }
  }

  lemma SumCut(h: seq<nat>, c: Box, a: Axis, k: nat)
    requires c.Lo(a) <= k <= c.Hi(a)
    ensures Sum(h, c) == Sum(h, c.Below(a, k)) + Sum(h, c.From(a, k))
  {
    SumToParts(h, c, c.Below(a, k), c.From(a, k), |h|);
  }

  /** Leaving out unused colours does not change the sum. */
  lemma {:induction false} SumToSame(h: seq<nat>, c: Box, d: Box, n: nat)
    requires n <= |h|
    requires forall p: nat {:trigger In(c, p)} {:trigger In(d, p)} :: p < n && h[p] > 0 ==> (In(c, p) <==> In(d, p))
    ensures SumTo(h, c, n) == SumTo(h, d, n)
  {
    if n != 0 {
      SumToSame(h, c, d, n - 1);
      assert h[n - 1] > 0 ==> (In(c, n - 1) <==> In(d, n - 1));
    }
  }

  lemma SumSame(h: seq<nat>, c: Box, d: Box)
    requires forall p: nat {:trigger In(c, p)} {:trigger In(d, p)} :: p < |h| && h[p] > 0 ==> (In(c, p) <==> In(d, p))
    ensures Sum(h, c) == Sum(h, d)
  {
    SumToSame(h, c, d, |h|);
  }

  lemma {:induction false} SumToMonotone(h: seq<nat>, c: Box, d: Box, n: nat)
    requires n <= |h|
    requires forall p: nat {:trigger In(c, p)} :: p < n && In(c, p) ==> In(d, p)
    ensures SumTo(h, c, n) <= SumTo(h, d, n)
  {
    if n != 0 {
      SumToMonotone(h, c, d, n - 1);
      assert In(c, n - 1) ==> In(d, n - 1);
    }
  }

  /** The sum over a box with one point. */
  lemma {:induction false} SumToPoint(h: seq<nat>, p: nat, n: nat)
    requires n <= |h| <= POINTS && p < |h|
    ensures SumTo(h, One(p), n) == if p < n then h[p] else 0
  {
    if n != 0 {
      SumToPoint(h, p, n - 1);
      OnePoint(p, n - 1);
    }
  }

  function One(p: nat): Box {
    Box(Coord(R, p), Coord(R, p) + 1, Coord(G, p), Coord(G, p) + 1, Coord(B, p), Coord(B, p) + 1)
  }

  lemma OnePoint(p: nat, q: nat)
    requires p < POINTS && q < POINTS
    ensures In(One(p), q) <==> p == q
  {
    CoordsPoint(p);
    CoordsPoint(q);
  }

  lemma SumPoint(h: seq<nat>, r: nat, g: nat, b: nat)
    requires |h| == POINTS && r < SIDE && g < SIDE && b < SIDE
    ensures Point(r, g, b) < POINTS
    ensures Sum(h, Box(r, r + 1, g, g + 1, b, b + 1)) == h[Point(r, g, b)]
  {
    PointCoords(r, g, b);
    SumToPoint(h, Point(r, g, b), |h|);
  }

  /** The bounding box of the used colours of a box: every face holds one. */
  ghost predicate Tight(h: seq<nat>, c: Box) {
    && c.Valid()
    && !Unused(h, c.Slice(R, c.r0)) && !Unused(h, c.Slice(R, c.r1 - 1))
    && !Unused(h, c.Slice(G, c.g0)) && !Unused(h, c.Slice(G, c.g1 - 1))
    && !Unused(h, c.Slice(B, c.b0)) && !Unused(h, c.Slice(B, c.b1 - 1))
  }

  lemma TightFaces(h: seq<nat>, c: Box, a: Axis)
    requires Tight(h, c)
    ensures c.Lo(a) < c.Hi(a) <= SIDE
    ensures !Unused(h, c.Slice(a, c.Lo(a))) && !Unused(h, c.Slice(a, c.Hi(a) - 1))
  {
  }

  /** A tight box that is more than one colour wide somewhere holds at least two pixels. */
  lemma {:induction false} WideHasTwo(h: seq<nat>, c: Box, a: Axis)
    requires Tight(h, c) && c.Hi(a) - c.Lo(a) > 1
    ensures Sum(h, c) >= 2
  {
    var k := c.Lo(a) + 1;
    TightFaces(h, c, a);
    SumCut(h, c, a, k);
    SumZero(h, c.Below(a, k));
    SliceOf(c, a, c.Hi(a) - 1, c.From(a, k));
    SumZero(h, c.Slice(a, c.Hi(a) - 1));
    SumToMonotone(h, c.Slice(a, c.Hi(a) - 1), c.From(a, k), |h|);
  }

  lemma SliceOf(c: Box, a: Axis, k: nat, d: Box)
    requires exists lo: nat, hi: nat :: d == c.With(a, lo, hi) && lo <= k < hi
    ensures forall p: nat {:trigger In(c.Slice(a, k), p)} :: In(c.Slice(a, k), p) ==> In(d, p)
  {
  }
}
