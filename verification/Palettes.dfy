/** Colours, the distance between them, and the nearest entry of a palette. */
module Palettes {
  import opened Bits

  datatype Rgb = Rgb(r: Byte, g: Byte, b: Byte)

  /** What the quantisers put into palette entries they do not use. */
  const GREY := Rgb(0x80, 0x80, 0x80)

  function Square(x: int): int { x * x }

  function Dist(c: Rgb, d: Rgb): int {
    Square(c.r as int - d.r as int) + Square(c.g as int - d.g as int) + Square(c.b as int - d.b as int)
  }

  /** The square of the distance in the colour cube. */
  lemma DistIs(c: Rgb, d: Rgb)
    ensures Dist(c, d) == (d.r - c.r) * (d.r - c.r) + (d.g - c.g) * (d.g - c.g) + (d.b - c.b) * (d.b - c.b)
  {
    Squares(c.r, d.r);
    Squares(c.g, d.g);
    Squares(c.b, d.b);
  }

  lemma Squares(x: int, y: int)
    ensures Square(x - y) == (y - x) * (y - x)
  {
  }

  /** Entry i is at least as near to c as every entry of the palette, and nearer than those before it. */
  ghost predicate IsNearest(pal: seq<Rgb>, c: Rgb, i: nat) {
    && i < |pal|
    && forall j :: 0 <= j < |pal| ==> Dist(c, pal[i]) + (if j < i then 1 else 0) <= Dist(c, pal[j])
  }

  lemma NoneNearer(pal: seq<Rgb>, c: Rgb, i: nat, j: nat)
    requires IsNearest(pal, c, i) && j < |pal|
    ensures i < |pal| && Dist(c, pal[i]) <= Dist(c, pal[j]) && (Dist(c, pal[i]) == Dist(c, pal[j]) ==> i <= j)
  {
  }

  lemma NearestUnique(pal: seq<Rgb>, c: Rgb, i: nat, j: nat)
    requires IsNearest(pal, c, i) && IsNearest(pal, c, j)
    ensures i == j
  {
    hide Dist;
    assert Dist(c, pal[i]) + (if j < i then 1 else 0) <= Dist(c, pal[j]);
    assert Dist(c, pal[j]) + (if i < j then 1 else 0) <= Dist(c, pal[i]);
  }

  lemma DistBound(c: Rgb, d: Rgb)
    ensures 0 <= Dist(c, d) <= 255 * 255 * 3
  {
    SquareBound(c.r as int - d.r as int);
    SquareBound(c.g as int - d.g as int);
    SquareBound(c.b as int - d.b as int);
  }

  lemma SquareBound(x: int)
    requires -255 <= x <= 255
    ensures 0 <= Square(x) <= 65025
  {
    if x >= 0 {
      Product(x, 255 - x);
      assert x * x == 255 * x - x * (255 - x);
    } else {
      Product(-x, 255 + x);
      assert x * x == 255 * -x - (-x) * (255 + x);
    }
  }

  lemma NoDistance(c: Rgb, d: Rgb)
    ensures Dist(c, d) == 0 <==> c == d
  {
    NoSquare(c.r - d.r);
    NoSquare(c.g - d.g);
    NoSquare(c.b - d.b);
  }

  lemma NoSquare(x: int)
    ensures Square(x) >= 0 && (Square(x) == 0 <==> x == 0)
  {
  }
}
