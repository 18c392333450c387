/** Median cut on a bitmap: counting its colours, and mapping it to the palette that results. */
module MedianCutImage {
  import opened Bits
  import opened Palettes
  import opened Pictures
  import opened ColourBoxes
  import opened MedianCut
  import opened MedianCutPalette

  /** The histogram entry of a pixel: the top five bits of each component. */
  function ColourOf(b: Byte, g: Byte, r: Byte): nat { Point(r / 8, g / 8, b / 8) }

  lemma ColourInRange(b: Byte, g: Byte, r: Byte)
    ensures ColourOf(b, g, r) < POINTS
    ensures Coord(R, ColourOf(b, g, r)) == r / 8 && Coord(G, ColourOf(b, g, r)) == g / 8 &&
            Coord(B, ColourOf(b, g, r)) == b / 8
  {
    PointCoords(r / 8, g / 8, b / 8);
  }

  function Colour(p: Picture, data: seq<Byte>, x: nat, y: nat): nat
    requires p.Fits(data) && x < p.w && y < p.h
  {
    AtInside(p, x, y);
    var o := p.At(x, y);
    ColourOf(data[o], data[o + 1], data[o + 2])
  }

  /** The colours of the first n pixels of row y. */
  ghost function RowColours(p: Picture, data: seq<Byte>, y: nat, n: nat): (cs: seq<nat>)
    requires p.Fits(data) && y < p.h && n <= p.w
    ensures |cs| == n
  {
    if n == 0 then [] else RowColours(p, data, y, n - 1) + [Colour(p, data, n - 1, y)]
  }

  /** The colours of the first n rows, pixel by pixel. */
  ghost function Colours(p: Picture, data: seq<Byte>, n: nat): seq<nat>
    requires p.Fits(data) && n <= p.h
  {
    if n == 0 then [] else Colours(p, data, n - 1) + RowColours(p, data, n - 1, p.w)
  }

  lemma {:induction false} ColoursCount(p: Picture, data: seq<Byte>, n: nat)
    requires p.Fits(data) && n <= p.h
    ensures |Colours(p, data, n)| == n * p.w
  {
    if n != 0 {
      ColoursCount(p, data, n - 1);
      assert n * p.w == (n - 1) * p.w + p.w;
    }
  }

  lemma {:induction false} RowColourIn(p: Picture, data: seq<Byte>, x: nat, y: nat, n: nat)
    requires p.Fits(data) && x < n <= p.w && y < p.h
    ensures Colour(p, data, x, y) in RowColours(p, data, y, n)
  {
    if x < n - 1 {
      RowColourIn(p, data, x, y, n - 1);
    }
  }

  lemma {:induction false} ColourCounted(p: Picture, data: seq<Byte>, x: nat, y: nat, n: nat)
    requires p.Fits(data) && x < p.w && y < n <= p.h
    ensures Colour(p, data, x, y) in Colours(p, data, n)
  {
    if y < n - 1 {
      ColourCounted(p, data, x, y, n - 1);
    } else {
      RowColourIn(p, data, x, y, p.w);
    }
  }

  // ---- counting ----

  /** The histogram of a list of colours. */
  ghost function Hist(cs: seq<nat>): (h: seq<nat>)
    ensures |h| == POINTS
  {
    seq(POINTS, (q: int) requires 0 <= q < POINTS => multiset(cs)[q])
  }

  /** How many of the colours lie in the box. */
  ghost function CountIn(cs: seq<nat>, c: Box): nat {
    if cs == [] then 0 else CountIn(cs[..|cs| - 1], c) + if In(c, cs[|cs| - 1]) then 1 else 0
  }

  ghost predicate AllColours(cs: seq<nat>) { forall i :: 0 <= i < |cs| ==> cs[i] < POINTS }

  lemma HistSnoc(cs: seq<nat>, q: nat)
    requires q < POINTS
    ensures Hist(cs + [q]) == Hist(cs)[q := Hist(cs)[q] + 1]
  {
    assert multiset(cs + [q]) == multiset(cs) + multiset{q};
  }

  lemma {:induction false} SumToBump(h: seq<nat>, q: nat, c: Box, n: nat)
    requires n <= |h| && q < |h|
    ensures SumTo(h[q := h[q] + 1], c, n) == SumTo(h, c, n) + if q < n && In(c, q) then 1 else 0
  {
    if n != 0 {
      SumToBump(h, q, c, n - 1);
    }
  }

  lemma {:induction false} SumToNothing(h: seq<nat>, c: Box, n: nat)
    requires n <= |h| && forall i :: 0 <= i < |h| ==> h[i] == 0
    ensures SumTo(h, c, n) == 0
  {
    if n != 0 {
      SumToNothing(h, c, n - 1);
    }
  }

  /** The histogram sum over a box is the number of pixels whose colour lies in it. */
  lemma {:induction false} SumCounts(cs: seq<nat>, c: Box)
    requires AllColours(cs)
    ensures Sum(Hist(cs), c) == CountIn(cs, c)
  {
    if cs == [] {
      SumToNothing(Hist(cs), c, POINTS);
    } else {
      var init, q := cs[..|cs| - 1], cs[|cs| - 1];
      assert cs == init + [q];
      SumCounts(init, c);
      HistSnoc(init, q);
      SumToBump(Hist(init), q, c, POINTS);
    }
  }

  lemma {:induction false} CountWhole(cs: seq<nat>)
    requires AllColours(cs)
    ensures CountIn(cs, Whole()) == |cs|
  {
    if cs != [] {
      CountWhole(cs[..|cs| - 1]);
      CoordsPoint(cs[|cs| - 1]);
    }
  }

  lemma CountPixel(p: Picture, d: seq<Byte>, x: nat, y: nat, all: seq<nat>)
    requires p.Fits(d) && x < p.w && y < p.h && AllColours(all)
    ensures var q := Colour(p, d, x, y);
            q < POINTS && AllColours(all + [q]) && Hist(all + [q]) == Hist(all)[q := Hist(all)[q] + 1]
  {
    AtInside(p, x, y);
    ColourInRange(d[p.At(x, y)], d[p.At(x, y) + 1], d[p.At(x, y) + 2]);
    HistSnoc(all, Colour(p, d, x, y));
  }

  /** The inner loop of gbm_add_to_mcut: one row of pixels, the first at index o. */
  method AddRow(m: Mcut, p: Picture, data: array<Byte>, y: nat, o: nat, ghost before: seq<nat>) returns (o': nat)
    requires m.Sized() && m.freqs != data as object && p.Fits(data[..]) && y < p.h && o == p.At(0, y)
    requires AllColours(before) && m.freqs[..] == Hist(before)
    modifies m.freqs
    ensures o' == o + 3 * p.w
    ensures var all := before + RowColours(p, data[..], y, p.w); AllColours(all) && m.freqs[..] == Hist(all)
  {
    hide Hist, Stride24, AllColours, Point;
    ghost var d, all := data[..], before;
    o' := o;
    var x := 0;
    assert before + [] == before;
    while x < p.w
      invariant x <= p.w && data[..] == d && o' == o + 3 * x
      invariant all == before + RowColours(p, d, y, x) && AllColours(all) && m.freqs[..] == Hist(all)
    {
      AtInside(p, x, y);
      CountPixel(p, d, x, y, all);
      var b, g, r := data[o'] / 8, data[o' + 1] / 8, data[o' + 2] / 8;
      assert o' == p.At(x, y) && Point(r, g, b) == Colour(p, d, x, y);
      o' := o' + 3;
      m.freqs[Point(r, g, b)] := m.freqs[Point(r, g, b)] + 1;
      all := all + [Point(r, g, b)];
      x := x + 1;
    }
  }

  /** gbm_add_to_mcut: adds the pixels of a bitmap to the histogram. */
  method AddImage(m: Mcut, p: Picture, data: array<Byte>, ghost before: seq<nat>) returns (ghost all: seq<nat>)
    requires m.Sized() && m.freqs != data as object && p.Fits(data[..])
    requires AllColours(before) && m.freqs[..] == Hist(before) && m.total == |before|
    modifies m`total, m.freqs
    ensures all == before + Colours(p, data[..], p.h) && AllColours(all)
    ensures m.freqs[..] == Hist(all) && m.total == |all|
  {
    hide Hist, Stride24, AllColours, Colours, RowColours;
    ghost var d := data[..];
    all := before;
    var o, y := 0, 0;
    NoRows(p, d);
    assert before + [] == before;
    while y < p.h
      modifies m.freqs
      invariant y <= p.h && data[..] == d && o == y * Stride24(p.w)
      invariant all == before + Colours(p, d, y) && AllColours(all) && m.freqs[..] == Hist(all)
    {
      o := AddRow(m, p, data, y, o, all);
      ghost var row := RowColours(p, d, y, p.w);
      ColoursStep(p, d, y);
      assert all + row == before + (Colours(p, d, y) + row);
      all := all + row;
      o := o + (Stride24(p.w) - p.w * 3);
      RowsFit(y, p.h, Stride24(p.w));
      y := y + 1;
    }
    m.total := m.total + p.w * p.h;
    ColoursCount(p, d, p.h);
    Commutes(p.w, p.h);
  }

  lemma NoRows(p: Picture, data: seq<Byte>)
    requires p.Fits(data)
    ensures Colours(p, data, 0) == []
  {
  }

  lemma ColoursStep(p: Picture, data: seq<Byte>, y: nat)
    requires p.Fits(data) && y < p.h
    ensures Colours(p, data, y + 1) == Colours(p, data, y) + RowColours(p, data, y, p.w)
  {
  }

  lemma Commutes(a: nat, b: nat)
    ensures a * b == b * a
  {
  }

  // ---- mapping ----

  /** gbm_map_mcut: every pixel becomes the label of its colour. */
  method MapImage(m: Mcut, p: Picture, data: array<Byte>, data8: array<Byte>)
    requires m.Sized() && p.Fits(data[..]) && p.Fits8(data8[..]) && data != data8 && m.freqs != data8 as object
    requires forall x: nat, y: nat :: x < p.w && y < p.h ==>
               Colour(p, data[..], x, y) < POINTS && m.freqs[Colour(p, data[..], x, y)] < 256
    modifies data8
    ensures forall x: nat, y: nat :: x < p.w && y < p.h ==>
              p.At8(x, y) < data8.Length && data8[p.At8(x, y)] == m.freqs[Colour(p, data[..], x, y)]
  {
    hide Stride24, Stride8;
    ghost var d := data[..];
    var y := 0;
    while y < p.h
      invariant y <= p.h && data[..] == d
      invariant forall x': nat, y': nat :: x' < p.w && y' < y ==>
                  p.At8(x', y') < data8.Length && data8[p.At8(x', y')] == m.freqs[Colour(p, d, x', y')]
    {
      var x := 0;
      while x < p.w
        invariant x <= p.w && data[..] == d
        invariant forall x': nat, y': nat :: x' < p.w && (y' < y || (y' == y && x' < x)) ==>
                    p.At8(x', y') < data8.Length && data8[p.At8(x', y')] == m.freqs[Colour(p, d, x', y')]
      {
        AtInside(p, x, y);
        var o := p.At(x, y);
        var b, g, r := data[o] / 8, data[o + 1] / 8, data[o + 2] / 8;
        assert Point(r, g, b) == Colour(p, d, x, y);
        data8[p.At8(x, y)] := m.freqs[Point(r, g, b)];
        forall x': nat, y': nat | x' < p.w && (y' < y || (y' == y && x' < x))
          ensures p.At8(x', y') < p.At8(x, y)
        {
          Earlier(p, x', y', x, y);
        }
        x := x + 1;
      }
      y := y + 1;
    }
  }

  // ---- end to end ----

  /** A pixel and the palette entry it is mapped to: its colour lies in the box of the cell, and the entry
      is the centre of the box in 8-bit units, so no component is off by more than half its extent. */
  ghost predicate Represents(c: Box, entry: Rgb, b: Byte, g: Byte, r: Byte) {
    && In(c, ColourOf(b, g, r))
    && Midway(entry.r, r, c.r0, c.r1) && Midway(entry.g, g, c.g0, c.g1) && Midway(entry.b, b, c.b0, c.b1)
  }

  /** v lies between 8 * lo and 8 * hi, and a half way between them. */
  predicate Midway(a: Byte, v: Byte, lo: nat, hi: nat) {
    8 * lo <= v < 8 * hi && a - 8 * lo == 8 * hi - a && -4 * (hi - lo) <= a - v <= 4 * (hi - lo)
  }

  lemma CentreRepresents(c: Box, b: Byte, g: Byte, r: Byte)
    requires c.Valid() && In(c, ColourOf(b, g, r))
    ensures Represents(c, Centre(c), b, g, r)
  {
    ColourInRange(b, g, r);
  }

  /** The label of a counted colour is the number of the one cell it lies in. */
  lemma LabelOf(h: seq<nat>, labels: seq<nat>, order: seq<Cell>, q: nat)
    requires Tiling(h, order) && LabelledUpTo(h, labels, order, |order|)
    requires q < |h| && h[q] > 0
    ensures labels[q] < |order| && In(order[labels[q]].box, q)
  {
    assert Covered(order, q);
    var i :| 0 <= i < |order| && In(order[i].box, q);
  }

  /** gbm_mcut: counts the colours of a bitmap, chooses a palette and maps the bitmap to it.

      Every pixel gets an entry that represents it; entries are in descending order of the number of
      pixels mapped to them; and with no more colours than entries asked for, every entry stands for
      one colour alone. */
  method Quantise(p: Picture, data: array<Byte>, wanted: int)
    returns (palette: array<Rgb>, data8: array<Byte>, ghost order: seq<Cell>, ghost steps: seq<seq<Cell>>,
             ghost s: seq<nat>)
    requires p.w >= 1 && p.h >= 1 && p.Fits(data[..])
    ensures palette.Length == 0x100 && data8.Length == p.h * Stride8(p.w)
    ensures var h := Hist(Colours(p, data[..], p.h));
            && Steps(h, steps) && RankedCells(steps[|steps| - 1], s, order)
            && Tiling(h, order) && 1 <= |order| == CellsFor(h, wanted) <= 0x100
            && (|UsedColours(h)| <= Most(wanted) ==> forall i :: 0 <= i < |order| ==> Single(order[i].box))
    ensures forall i :: 0 <= i < |order| ==> order[i].box.Valid() && palette[i] == Centre(order[i].box)
    ensures forall i :: |order| <= i < 0x100 ==> palette[i] == GREY == Rgb(0x80, 0x80, 0x80)
    ensures 1 <= wanted <= 0x100 ==>
              var used := |UsedColours(Hist(Colours(p, data[..], p.h)))|;
              |order| == if used < wanted then used else wanted
    ensures forall x: nat, y: nat :: x < p.w && y < p.h ==>
              PixelMapped(p, data[..], data8[..], palette[..], order, x, y)
    ensures forall i :: 0 <= i < |order| ==> order[i].freq == CountIn(Colours(p, data[..], p.h), order[i].box)
    ensures forall i, j :: 0 <= i < j < |order| ==> order[i].freq >= order[j].freq
    ensures PairwiseDisjoint(order)
    ensures p.Fits8(data8[..]) && forall i: nat :: i < |order| ==> order[i].freq == Uses(p, data8[..], i, p.h)
  {
    hide Hist, Tiling, LabelledUpTo, Stride24, Stride8, In, Disjoint, Sum, Represents, Centre, PixelMapped, CountIn;
    hide Uses, PairwiseDisjoint, Colours, CellsFor, UsedColours, Steps, RankedCells;
    var m := new Mcut();
    palette := new Rgb[0x100](_ => GREY);
    ghost var d := data[..];
    NoColours(m.freqs[..]);
    ghost var all := AddImage(m, p, data, []);
    assert [] + Colours(p, d, p.h) == Colours(p, d, p.h);
    SumCounts(all, Whole());
    CountWhole(all);
    ColoursCount(p, d, p.h);
    AtLeastOne(p.h, p.w);
    order, steps, s := BuildPalette(m, wanted, palette);
    CellsForIs(Hist(all), wanted);
    TilingDisjoint(Hist(all), order);
    forall i | 0 <= i < |order|
      ensures order[i].freq == CountIn(all, order[i].box)
    {
      CellCount(all, order, i);
    }
    data8 := MapAll(m, p, data, order, palette);
    assert data[..] == d;
    FreqsAreUses(p, d, data8[..], palette[..], order);
  }

  lemma FreqsAreUses(p: Picture, d: seq<Byte>, d8: seq<Byte>, palette: seq<Rgb>, order: seq<Cell>)
    requires p.Fits(d) && p.Fits8(d8) && |palette| == 0x100 && |order| <= 0x100 && PairwiseDisjoint(order)
    requires forall x: nat, y: nat :: x < p.w && y < p.h ==> PixelMapped(p, d, d8, palette, order, x, y)
    requires forall i :: 0 <= i < |order| ==> order[i].freq == CountIn(Colours(p, d, p.h), order[i].box)
    ensures forall i: nat :: i < |order| ==> order[i].freq == Uses(p, d8, i, p.h)
  {
    hide In, PairwiseDisjoint, PixelMapped, Colour, CountIn, Uses;
    forall i: nat | i < |order|
      ensures order[i].freq == Uses(p, d8, i, p.h)
    {
      UsesCount(p, d, d8, palette, order, i, p.h);
    }
  }

  /** How many of the first n pixels of row y are mapped to entry i. */
  ghost function UsesInRow(p: Picture, d8: seq<Byte>, i: nat, y: nat, n: nat): nat
    requires p.Fits8(d8) && y < p.h && n <= p.w
  {
    if n == 0 then 0
    else
      AtInside(p, n - 1, y);
      UsesInRow(p, d8, i, y, n - 1) + if d8[p.At8(n - 1, y)] == i then 1 else 0
  }

  /** How many pixels of the first n rows are. */
  ghost function Uses(p: Picture, d8: seq<Byte>, i: nat, n: nat): nat
    requires p.Fits8(d8) && n <= p.h
  {
    if n == 0 then 0 else Uses(p, d8, i, n - 1) + UsesInRow(p, d8, i, n - 1, p.w)
  }

  lemma {:induction false} CountParts(a: seq<nat>, b: seq<nat>, c: Box)
    ensures CountIn(a + b, c) == CountIn(a, c) + CountIn(b, c)
  {
    hide In;
    if b == [] {
      assert a + b == a;
    } else {
      var n := |b| - 1;
      assert (a + b)[..|a| + n] == a + b[..n];
      CountParts(a, b[..n], c);
    }
  }

  /** A pixel is mapped to the entry of the one cell that holds its colour. */
  lemma MappedToItsCell(p: Picture, d: seq<Byte>, d8: seq<Byte>, palette: seq<Rgb>, order: seq<Cell>,
                         i: nat, x: nat, y: nat)
    requires p.Fits(d) && p.Fits8(d8) && |palette| == 0x100 && |order| <= 0x100 && PairwiseDisjoint(order)
    requires i < |order| && x < p.w && y < p.h && PixelMapped(p, d, d8, palette, order, x, y)
    ensures p.At8(x, y) < |d8| && (d8[p.At8(x, y)] == i <==> In(order[i].box, Colour(p, d, x, y)))
  {
    hide In, PairwiseDisjoint;
    AtInside(p, x, y);
    var v, q := d8[p.At8(x, y)], Colour(p, d, x, y);
    assert In(order[v].box, q);
    if v != i && In(order[i].box, q) {
      ApartColours(order, v, i, q, q);
    }
  }

  lemma {:induction false} UsesInRowCount(p: Picture, d: seq<Byte>, d8: seq<Byte>, palette: seq<Rgb>, order: seq<Cell>,
                                          i: nat, y: nat, n: nat)
    requires p.Fits(d) && p.Fits8(d8) && |palette| == 0x100 && |order| <= 0x100 && PairwiseDisjoint(order)
    requires i < |order| && y < p.h && n <= p.w
    requires forall x: nat :: x < p.w ==> PixelMapped(p, d, d8, palette, order, x, y)
    ensures CountIn(RowColours(p, d, y, n), order[i].box) == UsesInRow(p, d8, i, y, n)
  {
    hide In, PairwiseDisjoint, PixelMapped, Colour;
    if n != 0 {
      UsesInRowCount(p, d, d8, palette, order, i, y, n - 1);
      MappedToItsCell(p, d, d8, palette, order, i, n - 1, y);
      var cs := RowColours(p, d, y, n);
      assert cs[..n - 1] == RowColours(p, d, y, n - 1);
    }
  }

  lemma {:induction false} UsesCount(p: Picture, d: seq<Byte>, d8: seq<Byte>, palette: seq<Rgb>, order: seq<Cell>,
                                     i: nat, n: nat)
    requires p.Fits(d) && p.Fits8(d8) && |palette| == 0x100 && |order| <= 0x100 && PairwiseDisjoint(order)
    requires i < |order| && n <= p.h
    requires forall x: nat, y: nat :: x < p.w && y < p.h ==> PixelMapped(p, d, d8, palette, order, x, y)
    ensures CountIn(Colours(p, d, n), order[i].box) == Uses(p, d8, i, n)
  {
    hide In, PairwiseDisjoint, PixelMapped, Colour, CountIn, UsesInRow, RowColours;
    if n == 0 {
      NoneIn(order[i].box);
    } else {
      UsesCount(p, d, d8, palette, order, i, n - 1);
      UsesInRowCount(p, d, d8, palette, order, i, n - 1, p.w);
      CountParts(Colours(p, d, n - 1), RowColours(p, d, n - 1, p.w), order[i].box);
    }
  }

  lemma NoneIn(c: Box)
    ensures CountIn([], c) == 0
  {
  }

  /** The pixel is mapped to an entry that represents it. */
  ghost predicate PixelMapped(p: Picture, d: seq<Byte>, d8: seq<Byte>, palette: seq<Rgb>, order: seq<Cell>, x: nat,
                              y: nat)
    requires x < p.w && y < p.h && |palette| == 0x100 && |order| <= 0x100
  {
    && p.At8(x, y) < |d8| && p.At(x, y) + 2 < |d|
    && var i := d8[p.At8(x, y)];
       && i < |order|
       && Represents(order[i].box, palette[i], d[p.At(x, y)], d[p.At(x, y) + 1], d[p.At(x, y) + 2])
  }

  method MapAll(m: Mcut, p: Picture, data: array<Byte>, ghost order: seq<Cell>, palette: array<Rgb>)
    returns (data8: array<Byte>)
    requires m.Sized() && p.Fits(data[..]) && palette.Length == 0x100 && |order| <= 0x100
    requires AllColours(Colours(p, data[..], p.h))
    requires var h := Hist(Colours(p, data[..], p.h)); Tiling(h, order) && LabelledUpTo(h, m.freqs[..], order, |order|)
    requires forall i :: 0 <= i < |order| ==> order[i].box.Valid() && palette[i] == Centre(order[i].box)
    ensures fresh(data8) && data8.Length == p.h * Stride8(p.w)
    ensures forall x: nat, y: nat :: x < p.w && y < p.h ==>
              PixelMapped(p, data[..], data8[..], palette[..], order, x, y)
  {
    hide Hist, Tiling, LabelledUpTo, Stride24, Stride8, In, Represents, Centre, Colours, AllColours;
    ghost var d, labels := data[..], m.freqs[..];
    forall x: nat, y: nat | x < p.w && y < p.h
      ensures Colour(p, d, x, y) < POINTS && labels[Colour(p, d, x, y)] < |order|
      ensures In(order[labels[Colour(p, d, x, y)]].box, Colour(p, d, x, y))
    {
      HasLabel(p, d, x, y, labels, order);
    }
    Product(p.h, Stride8(p.w));
    data8 := new Byte[p.h * Stride8(p.w)](_ => 0);
    MapImage(m, p, data, data8);
    forall x: nat, y: nat | x < p.w && y < p.h
      ensures PixelMapped(p, d, data8[..], palette[..], order, x, y)
    {
      AtInside(p, x, y);
      var i := data8[p.At8(x, y)];
      assert i == labels[Colour(p, d, x, y)];
      CentreRepresents(order[i].box, d[p.At(x, y)], d[p.At(x, y) + 1], d[p.At(x, y) + 2]);
    }
  }

  lemma NoColours(h: seq<nat>)
    requires |h| == POINTS && forall i :: 0 <= i < |h| ==> h[i] == 0
    ensures h == Hist([]) && AllColours([])
  {
  }

  lemma AtLeastOne(a: nat, b: nat)
    requires a >= 1 && b >= 1
    ensures a * b >= 1
  {
    Product(a - 1, b);
    assert a * b == (a - 1) * b + b;
  }

  lemma HasLabel(p: Picture, d: seq<Byte>, x: nat, y: nat, labels: seq<nat>, order: seq<Cell>)
    requires p.Fits(d) && x < p.w && y < p.h && AllColours(Colours(p, d, p.h))
    requires var h := Hist(Colours(p, d, p.h)); Tiling(h, order) && LabelledUpTo(h, labels, order, |order|)
    ensures var q := Colour(p, d, x, y);
            q < POINTS && q < |labels| && labels[q] < |order| && In(order[labels[q]].box, q)
  {
    var q, all := Colour(p, d, x, y), Colours(p, d, p.h);
    ColourCounted(p, d, x, y, p.h);
    var i :| 0 <= i < |all| && all[i] == q;
    assert q in multiset(all);
    LabelOf(Hist(all), labels, order, q);
  }

  lemma CellCount(all: seq<nat>, order: seq<Cell>, i: nat)
    requires AllColours(all) && Tiling(Hist(all), order) && i < |order|
    ensures order[i].freq == CountIn(all, order[i].box)
  {
    SumCounts(all, order[i].box);
    assert Good(Hist(all), order[i]);
  }

  lemma TilingDisjoint(h: seq<nat>, order: seq<Cell>)
    requires Tiling(h, order)
    ensures PairwiseDisjoint(order)
  {
  }
}
