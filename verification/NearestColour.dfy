/** Nearest palette entry, by brute force and through the map of 8 x 8 x 8 blocks of gbmtrunc.c. */
module NearestColour {
  import opened Bits
  import opened Palettes

  const UNDECIDED := 0xffff

  /** nearest_color: the palette is not empty. */
  method Nearest(c: Rgb, pal: seq<Rgb>) returns (iMin: nat)
    requires 1 <= |pal| <= 256
    ensures IsNearest(pal, c, iMin)
  {
    hide Dist;
    var distMin := 0x30000;
    iMin := 0;
    for i := 0 to |pal|
      invariant i == 0 ==> distMin == 0x30000
      invariant i > 0 ==> iMin < i && distMin == Dist(c, pal[iMin])
      invariant forall j :: 0 <= j < i ==> distMin + (if j < iMin then 1 else 0) <= Dist(c, pal[j])
    {
      DistBound(c, pal[i]);
      var dist := Dist(c, pal[i]);
      if dist < distMin {
        distMin, iMin := dist, i;
      }
    }
  }

  // ---- convexity ----

  /** How much nearer c is to entry i than to entry j. */
  function Lead(pal: seq<Rgb>, c: Rgb, i: nat, j: nat): int
    requires i < |pal| && j < |pal|
  {
    Dist(c, pal[j]) - Dist(c, pal[i])
  }

  /** In each component the lead is an affine function. */
  function Affine(x: int, p: int, q: int): int { Square(x - q) - Square(x - p) }

  lemma AffineBetween(lo: int, x: int, hi: int, p: int, q: int)
    requires lo <= x <= hi
    ensures Affine(x, p, q) >= Affine(lo, p, q) || Affine(x, p, q) >= Affine(hi, p, q)
  {
    AffineForm(x, p, q);
    AffineForm(lo, p, q);
    AffineForm(hi, p, q);
    var k := 2 * (p - q);
    if k >= 0 {
      Product(x - lo, k);
      assert x * k == lo * k + (x - lo) * k;
    } else {
      Product(hi - x, -k);
      assert x * k == hi * k + (hi - x) * -k;
    }
  }

  lemma AffineForm(x: int, p: int, q: int)
    ensures Affine(x, p, q) == x * (2 * (p - q)) + Square(q) - Square(p)
  {
  }

  /** If the lead is at least t at both ends of a segment parallel to an axis, it is so in between. */
  lemma LeadBetween(pal: seq<Rgb>, lo: Rgb, c: Rgb, hi: Rgb, i: nat, j: nat, t: int)
    requires i < |pal| && j < |pal|
    requires (lo.r <= c.r <= hi.r && lo.g == c.g == hi.g && lo.b == c.b == hi.b)
          || (lo.r == c.r == hi.r && lo.g <= c.g <= hi.g && lo.b == c.b == hi.b)
          || (lo.r == c.r == hi.r && lo.g == c.g == hi.g && lo.b <= c.b <= hi.b)
    requires Lead(pal, lo, i, j) >= t && Lead(pal, hi, i, j) >= t
    ensures Lead(pal, c, i, j) >= t
  {
    var p, q := pal[i], pal[j];
    AffineBetween(lo.r, c.r, hi.r, p.r, q.r);
    AffineBetween(lo.g, c.g, hi.g, p.g, q.g);
    AffineBetween(lo.b, c.b, hi.b, p.b, q.b);
    LeadSum(pal, lo, i, j);
    LeadSum(pal, c, i, j);
    LeadSum(pal, hi, i, j);
  }

  lemma LeadSum(pal: seq<Rgb>, c: Rgb, i: nat, j: nat)
    requires i < |pal| && j < |pal|
    ensures Lead(pal, c, i, j) ==
              Affine(c.r, pal[i].r, pal[j].r) + Affine(c.g, pal[i].g, pal[j].g) + Affine(c.b, pal[i].b, pal[j].b)
  {
  }

  /** Corner k of the block that starts at colour o; bits 4, 2 and 1 of k choose the far side in red,
      green and blue. */
  function Corner(o: Rgb, k: nat): Rgb
    requires o.r % 8 == 0 && o.g % 8 == 0 && o.b % 8 == 0 && k < 8
  {
    Rgb(if k >= 4 then o.r + 7 else o.r, if k % 4 >= 2 then o.g + 7 else o.g, if k % 2 == 1 then o.b + 7 else o.b)
  }

  predicate InBlock(o: Rgb, c: Rgb) {
    && o.r % 8 == 0 && o.g % 8 == 0 && o.b % 8 == 0
    && o.r / 8 == c.r / 8 && o.g / 8 == c.g / 8 && o.b / 8 == c.b / 8
  }

  lemma LeadInBlock(pal: seq<Rgb>, o: Rgb, c: Rgb, i: nat, j: nat, t: int)
    requires i < |pal| && j < |pal| && InBlock(o, c)
    requires forall k: nat :: k < 8 ==> Lead(pal, Corner(o, k), i, j) >= t
    ensures Lead(pal, c, i, j) >= t
  {
    hide Lead;
    var r0, r1: Byte := o.r, o.r + 7;
    var g0, g1: Byte := o.g, o.g + 7;
    var corners := [Corner(o, 0), Corner(o, 1), Corner(o, 2), Corner(o, 3),
                    Corner(o, 4), Corner(o, 5), Corner(o, 6), Corner(o, 7)];
    assert forall k: nat :: k < 8 ==> Corner(o, k) == corners[k];
    LeadBetween(pal, Corner(o, 0), Rgb(r0, g0, c.b), Corner(o, 1), i, j, t);
    LeadBetween(pal, Corner(o, 2), Rgb(r0, g1, c.b), Corner(o, 3), i, j, t);
    LeadBetween(pal, Corner(o, 4), Rgb(r1, g0, c.b), Corner(o, 5), i, j, t);
    LeadBetween(pal, Corner(o, 6), Rgb(r1, g1, c.b), Corner(o, 7), i, j, t);
    LeadBetween(pal, Rgb(r0, g0, c.b), Rgb(r0, c.g, c.b), Rgb(r0, g1, c.b), i, j, t);
    LeadBetween(pal, Rgb(r1, g0, c.b), Rgb(r1, c.g, c.b), Rgb(r1, g1, c.b), i, j, t);
    LeadBetween(pal, Rgb(r0, c.g, c.b), c, Rgb(r1, c.g, c.b), i, j, t);
  }

  /** If an entry is the nearest at all eight corners of a block, it is the nearest in all of it, and
      ties are still resolved for the lowest index. */
  lemma CornersDecide(pal: seq<Rgb>, o: Rgb, c: Rgb, i: nat)
    requires InBlock(o, c) && NearestAtCorners(pal, o, i)
    ensures IsNearest(pal, c, i)
  {
    assert IsNearest(pal, Corner(o, 0), i);
    forall j | 0 <= j < |pal|
      ensures Dist(c, pal[i]) + (if j < i then 1 else 0) <= Dist(c, pal[j])
    {
      hide Dist;
      var t := if j < i then 1 else 0;
      forall k: nat | k < 8
        ensures Lead(pal, Corner(o, k), i, j) >= t
      {
        assert IsNearest(pal, Corner(o, k), i);
      }
      LeadInBlock(pal, o, c, i, j, t);
    }
  }

  // ---- the map ----

  const SIDE := 0x20

  function MapIndex(c: Rgb): nat { (c.r / 8 * SIDE + c.g / 8) * SIDE + c.b / 8 }

  lemma MapIndexBound(c: Rgb)
    ensures MapIndex(c) < 0x8000
  {
  }

  lemma MapIndexInjective(c: Rgb, d: Rgb)
    requires MapIndex(c) == MapIndex(d)
    ensures c.r / 8 == d.r / 8 && c.g / 8 == d.g / 8 && c.b / 8 == d.b / 8
  {
  }

  /** What the map holds for the block of colour o: the entry nearest at all its corners, if there is
      one. */
  ghost predicate BlockEntry(pal: seq<Rgb>, o: Rgb, v: nat)
    requires o.r % 8 == 0 && o.g % 8 == 0 && o.b % 8 == 0
  {
    if v == UNDECIDED then forall i: nat {:trigger NearestAtCorners(pal, o, i)} :: !NearestAtCorners(pal, o, i)
    else NearestAtCorners(pal, o, v)
  }

  ghost predicate NearestAtCorners(pal: seq<Rgb>, o: Rgb, i: nat)
    requires o.r % 8 == 0 && o.g % 8 == 0 && o.b % 8 == 0
  {
    forall k: nat :: k < 8 ==> IsNearest(pal, Corner(o, k), i)
  }

  /** The loop body of build_map: the nearest entries of the eight corners are compared. */
  method SampleBlock(pal: seq<Rgb>, o: Rgb) returns (v: nat)
    requires 1 <= |pal| <= 256 && o.r % 8 == 0 && o.g % 8 == 0 && o.b % 8 == 0
    ensures BlockEntry(pal, o, v)
  {
    hide IsNearest, Corner;
    v := Nearest(Corner(o, 0), pal);
    var k := 1;
    while k < 8
      invariant 1 <= k <= 8
      invariant forall m: nat :: m < k ==> IsNearest(pal, Corner(o, m), v)
    {
      var n := Nearest(Corner(o, k), pal);
      if n != v {
        forall i: nat
          ensures !NearestAtCorners(pal, o, i)
        {
          NotBoth(pal, Corner(o, 0), Corner(o, k), v, n, i);
        }
        return UNDECIDED;
      }
      k := k + 1;
    }
    NearestInRange(pal, Corner(o, 0), v);
  }

  lemma NotBoth(pal: seq<Rgb>, c: Rgb, d: Rgb, v: nat, n: nat, i: nat)
    requires IsNearest(pal, c, v) && IsNearest(pal, d, n) && v != n
    ensures !IsNearest(pal, c, i) || !IsNearest(pal, d, i)
  {
    if IsNearest(pal, c, i) {
      NearestUnique(pal, c, i, v);
      if IsNearest(pal, d, i) {
        NearestUnique(pal, d, i, n);
      }
    }
  }

  lemma NearestInRange(pal: seq<Rgb>, c: Rgb, i: nat)
    requires IsNearest(pal, c, i)
    ensures i < |pal|
  {
  }

  /** The first n blocks of the map, in the order build_map fills it, are right. */
  ghost predicate MapHolds(pal: seq<Rgb>, map': seq<nat>, n: nat)
    requires n <= |map'|
  {
    forall o: Rgb :: o.r % 8 == 0 && o.g % 8 == 0 && o.b % 8 == 0 && MapIndex(o) < n ==>
      BlockEntry(pal, o, map'[MapIndex(o)])
  }

  lemma MapStep(pal: seq<Rgb>, s: seq<nat>, s': seq<nat>, o: Rgb, v: nat)
    requires |s| == |s'| && o.r % 8 == 0 && o.g % 8 == 0 && o.b % 8 == 0 && MapIndex(o) < |s|
    requires MapHolds(pal, s, MapIndex(o)) && BlockEntry(pal, o, v) && s' == s[MapIndex(o) := v]
    ensures MapHolds(pal, s', MapIndex(o) + 1)
  {
    hide BlockEntry;
    forall o': Rgb | o'.r % 8 == 0 && o'.g % 8 == 0 && o'.b % 8 == 0 && MapIndex(o') < MapIndex(o) + 1
      ensures BlockEntry(pal, o', s'[MapIndex(o')])
    {
      if MapIndex(o') == MapIndex(o) {
        SameBlock(o, o');
      }
    }
  }

  lemma SameBlock(o: Rgb, o': Rgb)
    requires o.r % 8 == 0 && o.g % 8 == 0 && o.b % 8 == 0
    requires o'.r % 8 == 0 && o'.g % 8 == 0 && o'.b % 8 == 0
    requires MapIndex(o) == MapIndex(o')
    ensures o == o'
  {
    MapIndexInjective(o, o');
    assert o.r == 8 * (o.r / 8) && o.g == 8 * (o.g / 8) && o.b == 8 * (o.b / 8);
    assert o'.r == 8 * (o'.r / 8) && o'.g == 8 * (o'.g / 8) && o'.b == 8 * (o'.b / 8);
  }

  /** build_map: samples the corners of every block. */
  method BuildMap(pal: seq<Rgb>) returns (inx: array<nat>)
    requires 1 <= |pal| <= 256
    ensures fresh(inx) && inx.Length == 0x8000 && MapHolds(pal, inx[..], 0x8000)
  {
    hide BlockEntry;
    inx := new nat[0x8000](_ => 0);
    var r, g, b := 0, 0, 0;
    while r < 0x100
      invariant 0 <= r <= 0x100 && r % 8 == 0 && MapHolds(pal, inx[..], r / 8 * 1024)
    {
      g := 0;
      while g < 0x100
        invariant 0 <= g <= 0x100 && g % 8 == 0 && MapHolds(pal, inx[..], r / 8 * 1024 + g / 8 * 32)
      {
        b := 0;
        while b < 0x100
          invariant 0 <= b <= 0x100 && b % 8 == 0 && MapHolds(pal, inx[..], r / 8 * 1024 + g / 8 * 32 + b / 8)
        {
          var o := Rgb(r, g, b);
          var v := SampleBlock(pal, o);
          ghost var s := inx[..];
          inx[MapIndex(o)] := v;
          MapStep(pal, s, inx[..], o, v);
          b := b + 8;
        }
        g := g + 8;
      }
      r := r + 8;
    }
  }

  /** nearest_color_via_map: the accelerated lookup gives exactly what brute force gives. */
  method NearestViaMap(c: Rgb, inx: array<nat>, pal: seq<Rgb>) returns (i: nat)
    requires 1 <= |pal| <= 256 && inx.Length == 0x8000 && MapHolds(pal, inx[..], 0x8000)
    ensures IsNearest(pal, c, i)
  {
    MapIndexBound(c);
    i := inx[MapIndex(c)];
    if i != UNDECIDED {
      BlockOf(c);
      CornersDecide(pal, BlockStart(c), c, i);
    } else {
      i := Nearest(c, pal);
    }
  }

  function BlockStart(c: Rgb): Rgb { Rgb(c.r / 8 * 8, c.g / 8 * 8, c.b / 8 * 8) }

  lemma BlockOf(c: Rgb)
    ensures InBlock(BlockStart(c), c) && MapIndex(BlockStart(c)) == MapIndex(c)
  {
  }
}
