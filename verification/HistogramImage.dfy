/** gbm_hist: the histogram of a bitmap, taken with ever coarser masks until it fits. */
module HistogramImage {
  import opened Bits
  import opened Palettes
  import opened Pictures
  import opened Counting
  import opened Histogram
  import opened HistogramPalette

  datatype Masks = Masks(r: Byte, g: Byte, b: Byte)

  function MaskByte(v: Byte, m: Byte): (b: Byte)
  {
    AndBound(v, m);
    And(v, m)
  }

  /** The masked colour of a pixel. */
  function ColourAt(m: Masks, p: Picture, data: seq<Byte>, x: nat, y: nat): Rgb
    requires p.Fits(data) && x < p.w && y < p.h
  {
    AtInside(p, x, y);
    var o := p.At(x, y);
    Rgb(MaskByte(data[o + 2], m.r), MaskByte(data[o + 1], m.g), MaskByte(data[o], m.b))
  }

  /** A bit of a masked component is set if and only if it is set in the byte and in the mask. */
  lemma MaskedBit(v: Byte, m: Byte, i: nat)
    ensures Bit(MaskByte(v, m), i) <==> Bit(v, i) && Bit(m, i)
  {
    BitOfAnd(v, m, i);
  }

  ghost predicate Agree(v: Byte, w: Byte, m: Byte) { forall i: nat :: i < 8 && Bit(m, i) ==> Bit(v, i) == Bit(w, i) }

  /** Two bytes become the same if and only if they agree in all bits of the mask. */
  lemma SameMasked(v: Byte, w: Byte, m: Byte)
    ensures MaskByte(v, m) == MaskByte(w, m) <==> Agree(v, w, m)
  {
    hide And, MaskByte;
    if MaskByte(v, m) == MaskByte(w, m) {
      forall i: nat | i < 8 && Bit(m, i)
        ensures Bit(v, i) == Bit(w, i)
      {
        MaskedBit(v, m, i);
        MaskedBit(w, m, i);
      }
    }
    if Agree(v, w, m) {
      forall i: nat | i < 8
        ensures Bit(MaskByte(v, m), i) == Bit(MaskByte(w, m), i)
      {
        MaskedBit(v, m, i);
        MaskedBit(w, m, i);
      }
      Pow2Table();
      SameBits(MaskByte(v, m), MaskByte(w, m), 8);
    }
  }

  /** A colour has no bit outside the masks and agrees inside them with a pixel: blue, green and red are
      its first, second and third byte. */
  ghost predicate Within(c: Rgb, m: Masks, b: Byte, g: Byte, r: Byte) {
    forall i: nat {:trigger Bit(c.r, i)} {:trigger Bit(c.g, i)} {:trigger Bit(c.b, i)} ::
      && Bit(c.r, i) == (Bit(r, i) && Bit(m.r, i))
      && Bit(c.g, i) == (Bit(g, i) && Bit(m.g, i))
      && Bit(c.b, i) == (Bit(b, i) && Bit(m.b, i))
  }

  lemma ColourBits(m: Masks, p: Picture, data: seq<Byte>, x: nat, y: nat)
    requires p.Fits(data) && x < p.w && y < p.h
    ensures var o := y * Stride24(p.w) + 3 * x;
            && o + 2 < |data|
            && Within(ColourAt(m, p, data, x, y), m, data[o], data[o + 1], data[o + 2])
  {
    hide MaskByte, Bit, Within;
    AtInside(p, x, y);
    var o := p.At(x, y);
    MaskedColour(m, data[o], data[o + 1], data[o + 2]);
  }

  lemma MaskedColour(m: Masks, b: Byte, g: Byte, r: Byte)
    ensures Within(Rgb(MaskByte(r, m.r), MaskByte(g, m.g), MaskByte(b, m.b)), m, b, g, r)
  {
    hide MaskByte, Bit;
    forall i: nat
      ensures Bit(MaskByte(b, m.b), i) == (Bit(b, i) && Bit(m.b, i))
      ensures Bit(MaskByte(g, m.g), i) == (Bit(g, i) && Bit(m.g, i))
      ensures Bit(MaskByte(r, m.r), i) == (Bit(r, i) && Bit(m.r, i))
    {
      MaskedBit(b, m.b, i);
      MaskedBit(g, m.g, i);
      MaskedBit(r, m.r, i);
    }
  }

  /** Two pixels have the same masked colour if and only if they agree in all bits of the masks. */
  lemma SameColours(m: Masks, p: Picture, data: seq<Byte>, x: nat, y: nat, x': nat, y': nat)
    requires p.Fits(data) && x < p.w && y < p.h && x' < p.w && y' < p.h
    ensures var o, o' := y * Stride24(p.w) + 3 * x, y' * Stride24(p.w) + 3 * x';
            && o + 2 < |data| && o' + 2 < |data|
            && (ColourAt(m, p, data, x, y) == ColourAt(m, p, data, x', y') <==>
                  Agree(data[o], data[o'], m.b) && Agree(data[o + 1], data[o' + 1], m.g)
                  && Agree(data[o + 2], data[o' + 2], m.r))
  {
    hide MaskByte, Agree;
    AtInside(p, x, y);
    AtInside(p, x', y');
    var o, o' := p.At(x, y), p.At(x', y');
    SameMasked(data[o], data[o'], m.b);
    SameMasked(data[o + 1], data[o' + 1], m.g);
    SameMasked(data[o + 2], data[o' + 2], m.r);
  }

  /** The masked colours of n pixels of row y. */
  ghost function SeenInRow(m: Masks, p: Picture, data: seq<Byte>, y: nat, n: nat): multiset<Rgb>
    requires p.Fits(data) && y < p.h && n <= p.w
  {
    if n == 0 then multiset{} else SeenInRow(m, p, data, y, n - 1) + multiset{ColourAt(m, p, data, n - 1, y)}
  }

  /** The masked colours of n rows. */
  ghost function Seen(m: Masks, p: Picture, data: seq<Byte>, n: nat): multiset<Rgb>
    requires p.Fits(data) && n <= p.h
  {
    if n == 0 then multiset{} else Seen(m, p, data, n - 1) + SeenInRow(m, p, data, n - 1, p.w)
  }

  lemma {:induction false} RowGrows(m: Masks, p: Picture, data: seq<Byte>, y: nat, x: nat, n: nat)
    requires p.Fits(data) && y < p.h && x < n <= p.w
    ensures SeenInRow(m, p, data, y, x) + multiset{ColourAt(m, p, data, x, y)} <= SeenInRow(m, p, data, y, n)
  {
    hide ColourAt;
    if x < n - 1 {
      RowGrows(m, p, data, y, x, n - 1);
    }
  }

  /** What has been seen before a pixel, and the pixel, is part of the whole. */
  lemma {:induction false} SeenGrows(m: Masks, p: Picture, data: seq<Byte>, x: nat, y: nat, n: nat)
    requires p.Fits(data) && x < p.w && y < n <= p.h
    ensures Seen(m, p, data, y) + SeenInRow(m, p, data, y, x) + multiset{ColourAt(m, p, data, x, y)} <=
            Seen(m, p, data, n)
  {
    hide ColourAt, SeenInRow;
    if y < n - 1 {
      SeenGrows(m, p, data, x, y, n - 1);
    } else {
      RowGrows(m, p, data, y, x, p.w);
    }
  }

  /** And every colour seen is that of a pixel; pixels are counted once each. */
  lemma {:induction false} SeenInRowAt(m: Masks, p: Picture, data: seq<Byte>, y: nat, n: nat, c: Rgb) returns (x: nat)
    requires p.Fits(data) && y < p.h && n <= p.w && c in SeenInRow(m, p, data, y, n)
    ensures x < n && c == ColourAt(m, p, data, x, y)
  {
    hide ColourAt;
    x := n - 1;
    if c != ColourAt(m, p, data, x, y) {
      x := SeenInRowAt(m, p, data, y, n - 1, c);
    }
  }

  lemma {:induction false} SeenAt(m: Masks, p: Picture, data: seq<Byte>, n: nat, c: Rgb) returns (x: nat, y: nat)
    requires p.Fits(data) && n <= p.h && c in Seen(m, p, data, n)
    ensures x < p.w && y < n && c == ColourAt(m, p, data, x, y)
  {
    hide ColourAt, SeenInRow;
    y := n - 1;
    if c in SeenInRow(m, p, data, y, p.w) {
      x := SeenInRowAt(m, p, data, y, p.w, c);
    } else {
      x, y := SeenAt(m, p, data, n - 1, c);
    }
  }

  lemma {:induction false} SeenInRowSize(m: Masks, p: Picture, data: seq<Byte>, y: nat, n: nat)
    requires p.Fits(data) && y < p.h && n <= p.w
    ensures |SeenInRow(m, p, data, y, n)| == n
  {
    hide ColourAt;
    if n != 0 {
      SeenInRowSize(m, p, data, y, n - 1);
    }
  }

  lemma {:induction false} SeenSize(m: Masks, p: Picture, data: seq<Byte>, n: nat)
    requires p.Fits(data) && n <= p.h
    ensures |Seen(m, p, data, n)| == n * p.w
  {
    hide ColourAt, SeenInRow;
    if n != 0 {
      SeenSize(m, p, data, n - 1);
      SeenInRowSize(m, p, data, n - 1, p.w);
      assert n * p.w == (n - 1) * p.w + p.w;
    }
  }

  /** The colours of a collection, each once. */
  ghost function Support(seen: multiset<Rgb>): set<Rgb> { set c | c in seen }

  ghost function TheColours(fs: seq<Freq>): (cs: seq<Rgb>)
    ensures |cs| == |fs| && forall i :: 0 <= i < |fs| ==> cs[i] == fs[i].colour
  {
    seq(|fs|, (i: int) requires 0 <= i < |fs| => fs[i].colour)
  }

  /** A histogram has as many entries as there are colours. */
  lemma EntryPerColour(fs: seq<Freq>, seen: multiset<Rgb>)
    requires Keys(fs, seen)
    ensures |Support(seen)| == |fs|
  {
    var cs := TheColours(fs);
    DistinctSize(cs);
    forall c | c in seen
      ensures c in cs
    {
      assert Has(fs, c);
      var i :| 0 <= i < |fs| && fs[i].colour == c;
      assert cs[i] == c;
    }
    assert Elements(cs) == Support(seen);
  }

  ghost predicate TooMany(seen: multiset<Rgb>) { |Support(seen)| > N_COLS }

  lemma OneMoreColour(seen: multiset<Rgb>, c: Rgb, all: multiset<Rgb>)
    requires |Support(seen)| == N_COLS && c !in seen && seen + multiset{c} <= all
    ensures TooMany(all)
  {
    assert c in all;
    forall k | k in seen
      ensures k in all
    {
      assert all[k] >= (seen + multiset{c})[k] >= 1;
    }
    SubsetSize(Support(seen) + {c}, Support(all));
  }

  /** gbm_add_to_hist: it fails exactly when there are more than 2049 colours. A histogram that fails
      is thrown away. */
  method AddBitmap(h: Hist, p: Picture, data: seq<Byte>) returns (ok: bool)
    requires h.Counting() && p.Fits(data)
    modifies h, h.f, h.ht
    ensures h.Counting()
    ensures var all := old(h.seen) + Seen(Masks(h.rm, h.gm, h.bm), p, data, p.h);
            && (ok <==> !TooMany(all)) && (ok ==> h.seen == all)
            && (TooMany(all) <==> |Support(all)| > 2049)
  {
    hide ColourAt, TooMany, Support, Seen, SeenInRow, Keys, Counts, Reachable;
    ghost var m := Masks(h.rm, h.gm, h.bm);
    ghost var was := h.seen;
    ghost var all := was + Seen(m, p, data, p.h);
    NothingSeen(m, p, data);
    for y := 0 to p.h
      modifies h, h.f, h.ht
      invariant h.Counting() && h.seen == was + Seen(m, p, data, y)
    {
      NothingInRow(m, p, data, y);
      for x := 0 to p.w
        modifies h, h.f, h.ht
        invariant h.Counting() && h.seen == was + Seen(m, p, data, y) + SeenInRow(m, p, data, y, x)
      {
        AtInside(p, x, y);
        var o := p.At(x, y);
        var c := Rgb(MaskByte(data[o + 2], h.rm), MaskByte(data[o + 1], h.gm), MaskByte(data[o], h.bm));
        SameColour(m, p, data, x, y, c);
        ok := h.Add(c);
        if !ok {
          EntryPerColour(h.f[..h.nCols], h.seen);
          SeenGrows(m, p, data, x, y, p.h);
          OneMoreColour(h.seen, c, all);
          return;
        }
        InRow(m, p, data, x, y);
      }
      NextRow(m, p, data, y);
    }
    EntryPerColour(h.f[..h.nCols], h.seen);
    Fits(h.seen, h.nCols);
    ok := true;
  }

  lemma NothingSeen(m: Masks, p: Picture, data: seq<Byte>)
    requires p.Fits(data)
    ensures Seen(m, p, data, 0) == multiset{}
  {
  }

  lemma NothingInRow(m: Masks, p: Picture, data: seq<Byte>, y: nat)
    requires p.Fits(data) && y < p.h
    ensures SeenInRow(m, p, data, y, 0) == multiset{}
  {
  }

  lemma InRow(m: Masks, p: Picture, data: seq<Byte>, x: nat, y: nat)
    requires p.Fits(data) && x < p.w && y < p.h
    ensures SeenInRow(m, p, data, y, x + 1) == SeenInRow(m, p, data, y, x) + multiset{ColourAt(m, p, data, x, y)}
  {
  }

  lemma NextRow(m: Masks, p: Picture, data: seq<Byte>, y: nat)
    requires p.Fits(data) && y < p.h
    ensures Seen(m, p, data, y + 1) == Seen(m, p, data, y) + SeenInRow(m, p, data, y, p.w)
  {
  }

  lemma Fits(seen: multiset<Rgb>, n: nat)
    requires |Support(seen)| == n <= N_COLS
    ensures !TooMany(seen)
  {
  }

  // ---- mapping ----

  /** The pixel is mapped to what the entry of its colour says. */
  ghost predicate MappedTo(fs: seq<Freq>, c: Rgb, v: Byte) {
    exists i :: 0 <= i < |fs| && fs[i].colour == c && fs[i].nearest == v
  }

  /** gbm_map_hist, on a bitmap that was added. */
  method MapBitmap(h: Hist, p: Picture, data: seq<Byte>, data8: array<Byte>)
    requires h.Valid() && p.Fits(data) && data8.Length >= p.h * Stride8(p.w)
    requires forall i :: 0 <= i < h.nCols ==> h.f[i].nearest < 0x100
    requires Seen(Masks(h.rm, h.gm, h.bm), p, data, p.h) <= h.seen
    modifies data8
    ensures forall x: nat, y: nat :: x < p.w && y < p.h ==>
              p.At8(x, y) < data8.Length && MappedTo(h.f[..h.nCols], ColourAt(Masks(h.rm, h.gm, h.bm), p, data, x, y),
                data8[p.At8(x, y)])
  {
    hide ColourAt, Seen, SeenInRow, Keys, Reachable, MappedTo, Stride8, Stride24;
    ghost var m, fs := Masks(h.rm, h.gm, h.bm), h.f[..h.nCols];
    for y := 0 to p.h
      modifies data8
      invariant h.Valid() && h.f[..h.nCols] == fs
      invariant forall x': nat, y': nat :: x' < p.w && y' < y ==>
                  p.At8(x', y') < data8.Length && MappedTo(fs, ColourAt(m, p, data, x', y'), data8[p.At8(x', y')])
    {
      for x := 0 to p.w
        modifies data8
        invariant h.Valid() && h.f[..h.nCols] == fs
        invariant forall x': nat, y': nat :: x' < p.w && (y' < y || (y' == y && x' < x)) ==>
                    p.At8(x', y') < data8.Length && MappedTo(fs, ColourAt(m, p, data, x', y'), data8[p.At8(x', y')])
      {
        AtInside(p, x, y);
        var o := p.At(x, y);
        var c := Rgb(MaskByte(data[o + 2], h.rm), MaskByte(data[o + 1], h.gm), MaskByte(data[o], h.bm));
        SameColour(m, p, data, x, y, c);
        SeenGrows(m, p, data, x, y, p.h);
        InAll(c, Seen(m, p, data, y) + SeenInRow(m, p, data, y, x), Seen(m, p, data, p.h), h.seen);
        var inx := h.Lookup(c);
        IsMapped(fs, inx);
        data8[p.At8(x, y)] := h.f[inx].nearest;
        forall x': nat, y': nat | x' < p.w && (y' < y || (y' == y && x' < x))
          ensures p.At8(x', y') < p.At8(x, y)
        {
          Earlier(p, x', y', x, y);
        }
      }
    }
  }

  lemma SameColour(m: Masks, p: Picture, data: seq<Byte>, x: nat, y: nat, c: Rgb)
    requires p.Fits(data) && x < p.w && y < p.h && p.At(x, y) + 2 < |data|
    requires var o := p.At(x, y);
             c == Rgb(MaskByte(data[o + 2], m.r), MaskByte(data[o + 1], m.g), MaskByte(data[o], m.b))
    ensures c == ColourAt(m, p, data, x, y)
  {
  }

  lemma InAll(c: Rgb, some: multiset<Rgb>, all: multiset<Rgb>, seen: multiset<Rgb>)
    requires some + multiset{c} <= all <= seen
    ensures c in seen
  {
    assert seen[c] >= all[c] >= (some + multiset{c})[c] >= 1;
  }

  lemma IsMapped(fs: seq<Freq>, i: nat)
    requires i < |fs| && fs[i].nearest < 0x100
    ensures MappedTo(fs, fs[i].colour, fs[i].nearest)
  {
  }

  // ---- coarser masks ----

  /** A mask shifted left by one place, as a byte. */
  function Doubled(m: Byte): Byte { LowByte(Shl(m, 1)) }

  /** The masks to try when there are too many colours. */
  function Coarser(m: Masks): Masks {
    if m.g > m.r then m.(g := Doubled(m.g))
    else if m.r > m.b then m.(r := Doubled(m.r))
    else m.(b := Doubled(m.b))
  }

  function After(m: Masks, k: nat): Masks {
    if k == 0 then m else Coarser(After(m, k - 1))
  }

  /** How many binary digits below the lowest one digit; 8 if there is none. */
  function Zeros(m: Byte): (n: nat)
    ensures n <= 8
  {
    ZerosUpTo(m, 8)
  }

  function ZerosUpTo(m: nat, n: nat): (z: nat)
    ensures z <= n
  {
    if n == 0 || m % 2 == 1 then 0 else 1 + ZerosUpTo(m / 2, n - 1)
  }

  lemma {:induction false} SomeOne(m: nat, n: nat)
    requires 0 < m < Pow2(n)
    ensures ZerosUpTo(m, n) < n && ZerosUpTo(m, n + 1) == ZerosUpTo(m, n)
  {
    if m % 2 == 0 {
      SomeOne(m / 2, n - 1);
    }
  }

  /** A digit cut off at the top leaves the zeros at the bottom. */
  lemma {:induction false} CutOff(m: nat, n: nat)
    requires Pow2(n) <= m < 2 * Pow2(n)
    ensures ZerosUpTo(m - Pow2(n), n) == ZerosUpTo(m, n)
  {
    if n != 0 && m % 2 == 0 {
      assert Pow2(n) == 2 * Pow2(n - 1);
      CutOff(m / 2, n - 1);
    }
  }

  lemma DoubledGains(m: Byte)
    requires m != 0
    ensures Zeros(Doubled(m)) == Zeros(m) + 1
  {
    Pow2Table();
    LowByteOf(m);
    SomeOne(m, 8);
    var z := if m < 128 then m else m - 128;
    assert (2 * z) % 2 == 0 && (2 * z) / 2 == z;
    assert ZerosUpTo(2 * z, 8) == 1 + ZerosUpTo(z, 7);
    if m >= 128 {
      CutOff(m, 7);
    }
    OneMore(m, 7);
  }

  lemma {:induction false} OneMore(m: nat, n: nat)
    requires 0 < m < 2 * Pow2(n)
    ensures ZerosUpTo(m, n + 1) == ZerosUpTo(m, n)
  {
    if m % 2 == 0 && n != 0 {
      OneMore(m / 2, n - 1);
    }
  }

  lemma LowByteOf(m: Byte)
    ensures Doubled(m) == if m < 128 then 2 * m else 2 * m - 256
  {
    Pow2Table();
    assert Shl(m, 1) == 2 * m;
    var high := if m < 128 then 0 else 1;
    ShlTimes(high, 8);
    AndLow(2 * m - 256 * high, high, 8);
  }

  function Measure(m: Masks): nat { Zeros(m.r) + Zeros(m.g) + Zeros(m.b) }

  /** Unless nothing is left of the masks every step clears one more digit. */
  lemma CoarserGains(m: Masks)
    requires m != Masks(0, 0, 0)
    ensures Measure(Coarser(m)) == Measure(m) + 1
  {
    hide Zeros, Doubled;
    if m.g > m.r {
      DoubledGains(m.g);
    } else if m.r > m.b {
      DoubledGains(m.r);
    } else {
      DoubledGains(m.b);
    }
  }

  const BLACK := Rgb(0, 0, 0)

  lemma {:induction false} RowIsBlack(p: Picture, data: seq<Byte>, y: nat, n: nat, c: Rgb)
    requires p.Fits(data) && y < p.h && n <= p.w && c in SeenInRow(Masks(0, 0, 0), p, data, y, n)
    ensures c == BLACK
  {
    if n != 0 && c in SeenInRow(Masks(0, 0, 0), p, data, y, n - 1) {
      RowIsBlack(p, data, y, n - 1, c);
    }
  }

  lemma {:induction false} AllBlack(p: Picture, data: seq<Byte>, n: nat, c: Rgb)
    requires p.Fits(data) && n <= p.h && c in Seen(Masks(0, 0, 0), p, data, n)
    ensures c == BLACK
  {
    if c in Seen(Masks(0, 0, 0), p, data, n - 1) {
      AllBlack(p, data, n - 1, c);
    } else {
      RowIsBlack(p, data, n - 1, p.w, c);
    }
  }

  /** With all masks zero there is one colour at most. */
  lemma ZeroMasksFit(p: Picture, data: seq<Byte>)
    requires p.Fits(data)
    ensures !TooMany(Seen(Masks(0, 0, 0), p, data, p.h))
  {
    var all := Support(Seen(Masks(0, 0, 0), p, data, p.h));
    forall c | c in all
      ensures c in {BLACK}
    {
      AllBlack(p, data, p.h, c);
    }
    SubsetSize(all, {BLACK});
  }

  // ---- end to end ----

  /** The retry loop of gbm_hist: the masks are coarsened no more often than it takes, 24 times at most. */
  method CountColours(p: Picture, data: seq<Byte>, start: Masks) returns (h: Hist, ghost k: nat)
    requires p.Fits(data)
    ensures fresh(h) && fresh(h.f) && fresh(h.ht) && h.Counting() && Masks(h.rm, h.gm, h.bm) == After(start, k)
    ensures k <= 24 && !TooMany(Seen(After(start, k), p, data, p.h)) && h.seen == Seen(After(start, k), p, data, p.h)
    ensures forall j: nat :: j < k ==> TooMany(Seen(After(start, j), p, data, p.h))
  {
    hide TooMany, Seen, Counts, Keys, Reachable, Coarser, Measure;
    var m := start;
    k := 0;
    AtMost24(m);
    h := new Hist(m.r, m.g, m.b);
    var ok := AddBitmap(h, p, data);
    assert multiset{} + Seen(m, p, data, p.h) == Seen(m, p, data, p.h);
    while !ok
      invariant fresh(h) && fresh(h.f) && fresh(h.ht)
      invariant h.Counting() && m == After(start, k) && m == Masks(h.rm, h.gm, h.bm)
      invariant k <= Measure(m) <= 24
      invariant ok <==> !TooMany(Seen(m, p, data, p.h))
      invariant ok ==> h.seen == Seen(m, p, data, p.h)
      invariant forall j: nat :: j < k ==> TooMany(Seen(After(start, j), p, data, p.h))
      decreases 24 - Measure(m)
    {
      if m == Masks(0, 0, 0) {
        ZeroMasksFit(p, data);
        assert false;
      }
      CoarserGains(m);
      CoarserIs(m);
      if m.g > m.r {
        m := m.(g := LowByte(Shl(m.g, 1)));
      } else if m.r > m.b {
        m := m.(r := LowByte(Shl(m.r, 1)));
      } else {
        m := m.(b := LowByte(Shl(m.b, 1)));
      }
      k := k + 1;
      AtMost24(m);
      h := new Hist(m.r, m.g, m.b);
      ok := AddBitmap(h, p, data);
      assert multiset{} + Seen(m, p, data, p.h) == Seen(m, p, data, p.h);
    }
  }

  /** gbm_hist: the palette holds the most frequent masked colours in order, and every pixel gets the
      entry nearest to its masked colour, its own entry if it has one. */
  method GbmHist(p: Picture, data: seq<Byte>, wanted: nat, start: Masks)
    returns (palette: array<Rgb>, data8: array<Byte>, ghost k: nat, ghost fs: seq<Freq>, ghost order: seq<nat>)
    requires p.Fits(data) && 1 <= wanted <= 0x100
    ensures palette.Length == 0x100 && data8.Length == p.h * Stride8(p.w)
    ensures k <= 24 && !TooMany(Seen(After(start, k), p, data, p.h))
    ensures forall j: nat :: j < k ==> TooMany(Seen(After(start, j), p, data, p.h))
    ensures Counts(fs, Seen(After(start, k), p, data, p.h))
    ensures Ranked(fs, order) && |order| == (if wanted < |fs| then wanted else |fs|) &&
            PaletteOf(fs, order, palette[..])
    ensures forall r :: 0 <= r < |order| ==> PixelWithin(palette[r], After(start, k), p, data)
    ensures forall r :: |order| <= r < 0x100 ==> palette[r] == Rgb(0x80, 0x80, 0x80)
    ensures forall x: nat, y: nat :: x < p.w && y < p.h ==>
              p.At8(x, y) < data8.Length
              && BestEntry(palette[..], wanted, |order|, ColourAt(After(start, k), p, data, x, y), data8[p.At8(x, y)])
  {
    hide TooMany, Seen, Counts, Keys, Reachable, Ranked, PaletteOf, MappedTo, BestEntry, ColourAt, Stride8, Stride24;
    hide Mapped, PixelWithin;
    var h;
    h, k := CountColours(p, data, start);
    ghost var m := After(start, k);
    fs := h.f[..h.nCols];
    EachCounted(fs, h.seen);
    palette := new Rgb[0x100](_ => GREY);
    order := PalHist(h, palette, wanted);
    RestGrey(fs, order, palette[..]);
    Product(p.h, Stride8(p.w));
    data8 := new Byte[p.h * Stride8(p.w)](_ => 0);
    ghost var pal, fs' := palette[..], h.f[..h.nCols];
    AllBytes(fs, fs', order, pal[..wanted]);
    forall r | 0 <= r < |order|
      ensures PixelWithin(pal[r], m, p, data)
    {
      FromPixel(fs, order, pal, m, p, data, r);
    }
    MapBitmap(h, p, data, data8);
    forall x: nat, y: nat | x < p.w && y < p.h
      ensures p.At8(x, y) < data8.Length
              && BestEntry(pal, wanted, |order|, ColourAt(m, p, data, x, y), data8[p.At8(x, y)])
    {
      IsBest(fs, fs', order, pal, wanted, ColourAt(m, p, data, x, y), data8[p.At8(x, y)]);
    }
  }

  /** The colour comes from a pixel of the bitmap. */
  ghost predicate PixelWithin(c: Rgb, m: Masks, p: Picture, data: seq<Byte>) {
    exists x: nat, y: nat :: IsPixel(c, m, p, data, x, y)
  }

  ghost predicate IsPixel(c: Rgb, m: Masks, p: Picture, data: seq<Byte>, x: nat, y: nat) {
    && x < p.w && y < p.h
    && var o := y * Stride24(p.w) + 3 * x;
       o + 2 < |data| && Within(c, m, data[o], data[o + 1], data[o + 2])
  }

  lemma FromPixel(fs: seq<Freq>, order: seq<nat>, palette: seq<Rgb>, m: Masks, p: Picture, data: seq<Byte>, r: nat)
    requires p.Fits(data) && Counts(fs, Seen(m, p, data, p.h)) && PaletteOf(fs, order, palette) && r < |order|
    ensures PixelWithin(palette[r], m, p, data)
  {
    hide Seen, ColourAt, Within, Stride24;
    var c := fs[order[r]].colour;
    assert c in Seen(m, p, data, p.h);
    var x, y := SeenAt(m, p, data, p.h, c);
    ColourBits(m, p, data, x, y);
    assert IsPixel(palette[r], m, p, data, x, y);
  }

  lemma RestGrey(fs: seq<Freq>, order: seq<nat>, palette: seq<Rgb>)
    requires PaletteOf(fs, order, palette)
    ensures forall r :: |order| <= r < |palette| ==> palette[r] == Rgb(0x80, 0x80, 0x80)
  {
  }

  lemma AtMost24(m: Masks)
    ensures 0 <= Measure(m) <= 24 && After(m, 0) == m
  {
  }

  lemma CoarserIs(m: Masks)
    ensures Coarser(m) == if m.g > m.r then m.(g := LowByte(Shl(m.g, 1)))
                          else if m.r > m.b then m.(r := LowByte(Shl(m.r, 1)))
                          else m.(b := LowByte(Shl(m.b, 1)))
  {
  }

  lemma AllBytes(was: seq<Freq>, fs: seq<Freq>, order: seq<nat>, pal: seq<Rgb>)
    requires Mapped(was, fs, order, pal, |fs|) && |pal| <= 0x100
    ensures forall i :: 0 <= i < |fs| ==> fs[i].nearest < 0x100
  {
    forall i | 0 <= i < |fs|
      ensures fs[i].nearest < 0x100
    {
      assert IsNearest(pal, fs[i].colour, fs[i].nearest);
    }
  }

  /** Entry v is the nearest to c of the first `wanted`; if c is among the `chosen` it is c itself. */
  ghost predicate BestEntry(palette: seq<Rgb>, wanted: nat, chosen: nat, c: Rgb, v: Byte)
    requires |palette| == 0x100 && wanted <= 0x100 && chosen <= 0x100
  {
    && IsNearest(palette[..wanted], c, v)
    && forall r: nat :: r < chosen && palette[r] == c ==> v == r
  }

  lemma IsBest(was: seq<Freq>, fs: seq<Freq>, order: seq<nat>, palette: seq<Rgb>, wanted: nat,
                c: Rgb, v: Byte)
    requires PaletteOf(was, order, palette) && wanted <= 0x100 && Mapped(was, fs, order, palette[..wanted], |fs|)
    requires ColoursApart(was) && MappedTo(fs, c, v)
    ensures BestEntry(palette, wanted, |order|, c, v)
  {
    hide IsNearest;
    var i :| 0 <= i < |fs| && fs[i].colour == c && fs[i].nearest == v;
    forall r: nat | r < |order| && palette[r] == c
      ensures v == r
    {
      assert order[r] == i;
    }
  }
}
