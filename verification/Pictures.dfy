/** The layout of GBM bitmaps in memory. */
module Pictures {
  import opened Bits

  /** Rows of 24-bit pixels and of 8-bit pixels, padded to a multiple of four bytes. */
  function Stride24(w: nat): (n: nat)
    ensures n % 4 == 0 && 3 * w <= n < 3 * w + 4
  {
    (3 * w + 3) / 4 * 4
  }

  function Stride8(w: nat): (n: nat)
    ensures n % 4 == 0 && w <= n < w + 4
  {
    (w + 3) / 4 * 4
  }

  /** A bitmap of w x h pixels, blue first, in an array with that stride. */
  datatype Picture = Picture(w: nat, h: nat) {
    function At(x: nat, y: nat): nat { y * Stride24(w) + 3 * x }

    function At8(x: nat, y: nat): nat { y * Stride8(w) + x }

    ghost predicate Fits(data: seq<Byte>) { |data| >= h * Stride24(w) }

    ghost predicate Fits8(data: seq<Byte>) { |data| >= h * Stride8(w) }
  }

  /** Pixels are three bytes apart in a row, one byte in a bitmap of 8 bits, and rows a stride. */
  lemma Neighbours(p: Picture, x: nat, y: nat)
    ensures p.At(0, 0) == 0 && p.At(x + 1, y) == p.At(x, y) + 3 && p.At(x, y + 1) == p.At(x, y) + Stride24(p.w)
    ensures p.At8(0, 0) == 0 && p.At8(x + 1, y) == p.At8(x, y) + 1 && p.At8(x, y + 1) == p.At8(x, y) + Stride8(p.w)
  {
    assert (y + 1) * Stride24(p.w) == y * Stride24(p.w) + Stride24(p.w);
    assert (y + 1) * Stride8(p.w) == y * Stride8(p.w) + Stride8(p.w);
  }

  lemma RowsFit(y: nat, h: nat, stride: nat)
    requires y < h
    ensures y * stride + stride <= h * stride && (y + 1) * stride == y * stride + stride
  {
    Product(h - y - 1, stride);
    assert h * stride == y * stride + stride + (h - y - 1) * stride;
  }

  lemma AtInside(p: Picture, x: nat, y: nat)
    requires x < p.w && y < p.h
    ensures p.At(x, y) + 2 < p.h * Stride24(p.w) && p.At8(x, y) < p.h * Stride8(p.w)
  {
    RowsFit(y, p.h, Stride24(p.w));
    RowsFit(y, p.h, Stride8(p.w));
  }

  lemma Earlier(p: Picture, x': nat, y': nat, x: nat, y: nat)
    requires x < p.w && x' < p.w && (y' < y || (y' == y && x' < x))
    ensures p.At8(x', y') < p.At8(x, y)
  {
    if y' < y {
      RowsFit(y', y, Stride8(p.w));
    }
  }
}
