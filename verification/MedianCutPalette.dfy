/** Median cut: the palette, the labels and the mapping of gbm_pal_mcut, gbm_add_to_mcut and
    gbm_map_mcut. */
module MedianCutPalette {
  import opened Palettes
  import opened Counting
  import opened ColourBoxes
  import opened MedianCut

  // ---- sorting the cells ----

  /** s and inv are permutations of 0 .. |s| - 1, each the inverse of the other. */
  ghost predicate Inverses(s: seq<nat>, inv: seq<nat>) {
    && |s| == |inv|
    && (forall i :: 0 <= i < |s| ==> s[i] < |s| && inv[s[i]] == i)
    && (forall m :: 0 <= m < |s| ==> inv[m] < |s| && s[inv[m]] == m)
  }

  ghost predicate Descending(cs: seq<Cell>, s: seq<nat>, lo: nat, hi: nat)
    requires hi <= |s| && forall i :: 0 <= i < |s| ==> s[i] < |cs|
  {
    forall i, j :: lo <= i < j < hi ==> cs[s[i]].freq >= cs[s[j]].freq
  }

  /** Cells with equally many pixels are in the order of their numbers. */
  ghost predicate Stable(cs: seq<Cell>, s: seq<nat>)
    requires forall i :: 0 <= i < |s| ==> s[i] < |cs|
  {
    forall i, j :: 0 <= i < j < |s| && cs[s[i]].freq == cs[s[j]].freq ==> s[i] < s[j]
  }

  lemma SwapStable(cs: seq<Cell>, s: seq<nat>, i: nat)
    requires i + 1 < |s| && forall i :: 0 <= i < |s| ==> s[i] < |cs|
    requires Stable(cs, s) && cs[s[i]].freq != cs[s[i + 1]].freq
    ensures Stable(cs, Swapped(s, i))
  {
    var s' := Swapped(s, i);
    forall m, n | 0 <= m < n < |s| && cs[s'[m]].freq == cs[s'[n]].freq
      ensures s'[m] < s'[n]
    {
      var m' := if m == i then i + 1 else if m == i + 1 then i else m;
      var n' := if n == i then i + 1 else if n == i + 1 then i else n;
      assert s'[m] == s[m'] && s'[n] == s[n'] && m' < n';
    }
  }

  /** `order` lists the cells in the order of their frequencies, and else of their numbers. */
  ghost predicate RankedCells(cs: seq<Cell>, s: seq<nat>, order: seq<Cell>) {
    && Permutation(s, |cs|) && |order| == |cs|
    && (forall i :: 0 <= i < |s| ==> order[i] == cs[s[i]])
    && (forall i, j :: 0 <= i < j < |s| ==>
          cs[s[i]].freq > cs[s[j]].freq || (cs[s[i]].freq == cs[s[j]].freq && s[i] < s[j]))
  }

  lemma IsRanked(cs: seq<Cell>, s: seq<nat>, inv: seq<nat>)
    requires |s| == |cs| && Inverses(s, inv) && Descending(cs, s, 0, |cs|) && Stable(cs, s)
    ensures RankedCells(cs, s, Ordered(cs, s))
  {
    forall i, j | 0 <= i < j < |s|
      ensures s[i] != s[j]
    {
      assert inv[s[i]] != inv[s[j]];
    }
  }

  /** Everything before position j is at least as frequent as everything from j on. */
  ghost predicate Sunk(cs: seq<Cell>, s: seq<nat>, j: nat)
    requires j <= |s| && forall i :: 0 <= i < |s| ==> s[i] < |cs|
  {
    forall i, k :: 0 <= i < j <= k < |s| ==> cs[s[i]].freq >= cs[s[k]].freq
  }

  function Swapped(s: seq<nat>, i: nat): seq<nat>
    requires i + 1 < |s|
  {
    s[i := s[i + 1]][i + 1 := s[i]]
  }

  lemma SwapInverses(s: seq<nat>, inv: seq<nat>, i: nat)
    requires Inverses(s, inv) && i + 1 < |s|
    ensures Inverses(Swapped(s, i), inv[s[i] := i + 1][s[i + 1] := i])
  {
    assert s[i] != s[i + 1];
  }

  /** Swapping within the part not yet sorted leaves the sorted part sorted and at the end. */
  lemma SwapSunk(cs: seq<Cell>, s: seq<nat>, i: nat, j: nat)
    requires i + 1 < j <= |s| && forall i :: 0 <= i < |s| ==> s[i] < |cs|
    requires Descending(cs, s, j, |s|) && Sunk(cs, s, j)
    ensures var s' := Swapped(s, i); Descending(cs, s', j, |s|) && Sunk(cs, s', j)
  {
    var s' := Swapped(s, i);
    forall m, k | 0 <= m < j <= k < |s|
      ensures cs[s'[m]].freq >= cs[s'[k]].freq
    {
      var m' := if m == i then i + 1 else if m == i + 1 then i else m;
      assert cs[s[m']].freq >= cs[s[k]].freq;
    }
  }

  /** The least frequent cell of positions 0 .. i is at position i. */
  ghost predicate LeastLast(cs: seq<Cell>, s: seq<nat>, i: nat)
    requires i < |s| && forall i :: 0 <= i < |s| ==> s[i] < |cs|
  {
    forall k :: 0 <= k <= i ==> cs[s[k]].freq >= cs[s[i]].freq
  }

  ghost predicate InOrder(cs: seq<Cell>, s: seq<nat>, i: nat)
    requires i < |s| && forall i :: 0 <= i < |s| ==> s[i] < |cs|
  {
    forall k :: 0 <= k < i ==> cs[s[k]].freq >= cs[s[k + 1]].freq
  }

  /** Adjacent elements in order are all in order. */
  lemma {:induction false} AdjacentDescending(cs: seq<Cell>, s: seq<nat>, j: nat)
    requires j <= |s| && forall i :: 0 <= i < |s| ==> s[i] < |cs|
    requires j > 0 ==> InOrder(cs, s, j - 1)
    ensures Descending(cs, s, 0, j)
  {
    if j > 1 {
      AdjacentDescending(cs, s, j - 1);
      forall i | 0 <= i < j - 1
        ensures cs[s[i]].freq >= cs[s[j - 1]].freq
      {
        assert cs[s[j - 2]].freq >= cs[s[j - 1]].freq;
      }
    }
  }

  /** One pass over the first j positions: the least frequent of them sinks to the last. */
  method SortPass(cs: seq<Cell>, reorder: array<nat>, ghost inv: seq<nat>, j: nat)
    returns (noswaps: bool, ghost inv': seq<nat>)
    requires reorder.Length == |cs| && 0 < j <= |cs| && Inverses(reorder[..], inv)
    requires Descending(cs, reorder[..], j, |cs|) && Sunk(cs, reorder[..], j) && Stable(cs, reorder[..])
    modifies reorder
    ensures Inverses(reorder[..], inv') && Stable(cs, reorder[..])
    ensures Descending(cs, reorder[..], j, |cs|) && Sunk(cs, reorder[..], j)
    ensures LeastLast(cs, reorder[..], j - 1)
    ensures noswaps ==> InOrder(cs, reorder[..], j - 1)
  {
    hide Descending, Sunk, Stable;
    hide LeastLast, InOrder;
    noswaps, inv' := true, inv;
    var i := 0;
    PassStart(cs, reorder[..]);
    while i < j - 1
      invariant 0 <= i <= j - 1 && Inverses(reorder[..], inv')
      invariant Descending(cs, reorder[..], j, |cs|) && Sunk(cs, reorder[..], j) && Stable(cs, reorder[..])
      invariant LeastLast(cs, reorder[..], i)
      invariant noswaps ==> InOrder(cs, reorder[..], i)
    {
      if cs[reorder[i]].freq < cs[reorder[i + 1]].freq {
        ghost var s := reorder[..];
        SwapInverses(s, inv', i);
        SwapSunk(cs, s, i, j);
        SwapStable(cs, s, i);
        LeastSwapped(cs, s, i);
        inv' := inv'[reorder[i] := i + 1][reorder[i + 1] := i];
        SwapWithNext(reorder, i);
        noswaps := false;
      } else {
        LeastKept(cs, reorder[..], i);
      }
      i := i + 1;
    }
  }

  method SwapWithNext(a: array<nat>, i: nat)
    requires i + 1 < a.Length
    modifies a
    ensures a[..] == Swapped(old(a[..]), i)
  {
    var t := a[i];
    a[i] := a[i + 1];
    a[i + 1] := t;
  }

  lemma PassStart(cs: seq<Cell>, s: seq<nat>)
    requires s != [] && forall i :: 0 <= i < |s| ==> s[i] < |cs|
    ensures LeastLast(cs, s, 0) && InOrder(cs, s, 0)
  {
  }

  lemma LeastSwapped(cs: seq<Cell>, s: seq<nat>, i: nat)
    requires i + 1 < |s| && (forall i :: 0 <= i < |s| ==> s[i] < |cs|) && LeastLast(cs, s, i)
    requires cs[s[i]].freq < cs[s[i + 1]].freq
    ensures LeastLast(cs, Swapped(s, i), i + 1)
  {
  }

  lemma LeastKept(cs: seq<Cell>, s: seq<nat>, i: nat)
    requires i + 1 < |s| && (forall i :: 0 <= i < |s| ==> s[i] < |cs|) && LeastLast(cs, s, i)
    requires cs[s[i]].freq >= cs[s[i + 1]].freq
    ensures LeastLast(cs, s, i + 1) && (InOrder(cs, s, i) ==> InOrder(cs, s, i + 1))
  {
  }

  lemma SortStart(cs: seq<Cell>, s: seq<nat>, inv: seq<nat>)
    requires |s| == |inv| == |cs| && forall i :: 0 <= i < |s| ==> s[i] == inv[i] == i
    ensures Inverses(s, inv) && Descending(cs, s, |cs|, |cs|) && Sunk(cs, s, |cs|) && Stable(cs, s)
  {
  }

  lemma SortNext(cs: seq<Cell>, s: seq<nat>, j: nat)
    requires |s| == |cs| && 0 < j <= |cs| && forall i :: 0 <= i < |s| ==> s[i] < |cs|
    requires Descending(cs, s, j, |cs|) && Sunk(cs, s, j) && LeastLast(cs, s, j - 1)
    ensures Descending(cs, s, j - 1, |cs|) && Sunk(cs, s, j - 1)
  {
  }

  lemma SortedEarly(cs: seq<Cell>, s: seq<nat>, j: nat)
    requires |s| == |cs| && 0 < j <= |cs| && forall i :: 0 <= i < |s| ==> s[i] < |cs|
    requires Descending(cs, s, j, |cs|) && Sunk(cs, s, j) && InOrder(cs, s, j - 1)
    ensures Descending(cs, s, 0, |cs|)
  {
    AdjacentDescending(cs, s, j);
  }

  /** Bubble sort of the cell numbers by descending frequency, with early exit. */
  method SortCells(cs: seq<Cell>) returns (reorder: array<nat>, ghost inv: seq<nat>)
    ensures fresh(reorder) && reorder.Length == |cs|
    ensures Inverses(reorder[..], inv)
    ensures Descending(cs, reorder[..], 0, |cs|) && Stable(cs, reorder[..])
  {
    hide Sunk, Descending, LeastLast, InOrder, Stable;
    var n := |cs|;
    reorder := new nat[n](i => i);
    inv := seq(n, (i: int) requires 0 <= i < n => i);
    SortStart(cs, reorder[..], inv);
    var j := n;
    while j > 0
      invariant 0 <= j <= n && Inverses(reorder[..], inv)
      invariant Descending(cs, reorder[..], j, n) && Sunk(cs, reorder[..], j) && Stable(cs, reorder[..])
    {
      var noswaps;
      noswaps, inv := SortPass(cs, reorder, inv, j);
      if noswaps {
        SortedEarly(cs, reorder[..], j);
        return;
      }
      SortNext(cs, reorder[..], j);
      j := j - 1;
    }
  }

  // ---- palette and labels ----

  /** The middle of a box, in 8-bit components: ((x + y) / 2) << 3 written as (x + y) << 2. */
  function Centre(c: Box): Rgb
    requires c.r0 < c.r1 <= SIDE && c.g0 < c.g1 <= SIDE && c.b0 < c.b1 <= SIDE
  {
    Rgb((c.r0 + c.r1) * 4, (c.g0 + c.g1) * 4, (c.b0 + c.b1) * 4)
  }

  /** The colours of the box are labelled i, the others are as they were. */
  ghost predicate Labelled(before: seq<nat>, after: seq<nat>, c: Box, i: nat) {
    && |before| == |after|
    && forall p: nat {:trigger after[p]} :: p < |after| ==> after[p] == if In(c, p) then i else before[p]
  }

  lemma LabelNothing(s: seq<nat>, c: Box, a: Axis, i: nat)
    ensures Labelled(s, s, c.Below(a, c.Lo(a)), i)
  {
  }

  lemma LabelStep(s: seq<nat>, s': seq<nat>, s'': seq<nat>, c: Box, a: Axis, k: nat, i: nat)
    requires Labelled(s, s', c.Below(a, k), i) && Labelled(s', s'', c.Slice(a, k), i) && c.Lo(a) <= k
    ensures Labelled(s, s'', c.Below(a, k + 1), i)
  {
    forall p: nat | p < |s|
      ensures s''[p] == if In(c.Below(a, k + 1), p) then i else s[p]
    {
      assert In(c.Below(a, k + 1), p) <==> In(c.Below(a, k), p) || In(c.Slice(a, k), p);
    }
  }

  lemma LabelPoint(s: seq<nat>, r: nat, g: nat, b: nat, i: nat)
    requires |s| == POINTS && r < SIDE && g < SIDE && b < SIDE
    ensures Point(r, g, b) < POINTS
    ensures Labelled(s, s[Point(r, g, b) := i], Box(r, r + 1, g, g + 1, b, b + 1), i)
  {
    PointCoords(r, g, b);
    var c := Box(r, r + 1, g, g + 1, b, b + 1);
    forall p: nat | p < POINTS
      ensures In(c, p) <==> p == Point(r, g, b)
    {
      OnePoint(Point(r, g, b), p);
    }
  }

  method LabelBox(freqs: array<nat>, c: Box, i: nat)
    requires freqs.Length == POINTS && c.Valid()
    modifies freqs
    ensures Labelled(old(freqs[..]), freqs[..], c, i)
  {
    hide Labelled;
    ghost var s0 := freqs[..];
    LabelNothing(s0, c, R, i);
    for r := c.r0 to c.r1
      invariant Labelled(s0, freqs[..], c.Below(R, r), i)
    {
      ghost var s1 := freqs[..];
      LabelNothing(s1, c.Slice(R, r), G, i);
      for g := c.g0 to c.g1
        invariant Labelled(s1, freqs[..], c.Slice(R, r).Below(G, g), i)
      {
        ghost var s2 := freqs[..];
        LabelNothing(s2, c.Slice(R, r).Slice(G, g), B, i);
        for b := c.b0 to c.b1
          invariant Labelled(s2, freqs[..], c.Slice(R, r).Slice(G, g).Below(B, b), i)
        {
          ghost var s3 := freqs[..];
          LabelPoint(s3, r, g, b, i);
          freqs[Point(r, g, b)] := i;
          LabelStep(s2, s3, freqs[..], c.Slice(R, r).Slice(G, g), B, b, i);
        }
        LabelStep(s1, s2, freqs[..], c.Slice(R, r), G, g, i);
      }
      LabelStep(s0, s1, freqs[..], c, R, r, i);
    }
  }

  /** After the first n cells in the given order have been labelled. */
  ghost predicate LabelledUpTo(h: seq<nat>, after: seq<nat>, order: seq<Cell>, n: nat)
    requires n <= |order|
  {
    && |after| == |h|
    && (forall p: nat, i :: p < |h| && 0 <= i < n && In(order[i].box, p) ==> after[p] == i)
    && (forall p: nat {:trigger after[p]} :: p < |h| && !Covered(order[..n], p) ==> after[p] == h[p])
  }

  lemma LabelNext(h: seq<nat>, s: seq<nat>, s': seq<nat>, order: seq<Cell>, n: nat)
    requires n < |order| && PairwiseDisjoint(order)
    requires LabelledUpTo(h, s, order, n) && Labelled(s, s', order[n].box, n)
    ensures LabelledUpTo(h, s', order, n + 1)
  {
    forall p: nat, i | p < |h| && 0 <= i <= n && In(order[i].box, p)
      ensures s'[p] == i
    {
      if i < n {
        assert Disjoint(order[i].box, order[n].box);
      }
    }
    forall p: nat | p < |h| && !Covered(order[..n + 1], p)
      ensures s'[p] == h[p]
    {
      CoveredMore(order, n, p);
    }
  }

  lemma CoveredMore(order: seq<Cell>, n: nat, p: nat)
    requires n < |order|
    ensures Covered(order[..n], p) || In(order[n].box, p) ==> Covered(order[..n + 1], p)
  {
    if Covered(order[..n], p) {
      var i :| 0 <= i < n && In(order[..n][i].box, p);
      assert In(order[..n + 1][i].box, p);
    } else if In(order[n].box, p) {
      assert In(order[..n + 1][n].box, p);
    }
  }

  lemma LabelStart(h: seq<nat>, order: seq<Cell>)
    ensures LabelledUpTo(h, h, order, 0)
  {
  }

  /** The cells in the order of their new numbers. */
  ghost function Ordered(cs: seq<Cell>, s: seq<nat>): seq<Cell>
    requires forall i :: 0 <= i < |s| ==> s[i] < |cs|
  {
    seq(|s|, (i: int) requires 0 <= i < |s| => cs[s[i]])
  }

  lemma OrderedTiling(h: seq<nat>, cs: seq<Cell>, s: seq<nat>, inv: seq<nat>)
    requires Tiling(h, cs) && Inverses(s, inv) && |s| == |cs|
    ensures Tiling(h, Ordered(cs, s))
  {
    hide In, Good, Disjoint;
    var order := Ordered(cs, s);
    forall i, j | 0 <= i < j < |order|
      ensures Disjoint(order[i].box, order[j].box)
    {
      assert inv[s[i]] != inv[s[j]];
      DisjointEither(cs, s[i], s[j]);
    }
    forall p: nat | p < |h| && h[p] > 0
      ensures Covered(order, p)
    {
      assert Covered(cs, p);
      var m :| 0 <= m < |cs| && In(cs[m].box, p);
      assert order[inv[m]] == cs[m];
    }
  }

  lemma DisjointEither(cs: seq<Cell>, i: nat, j: nat)
    requires PairwiseDisjoint(cs) && i < |cs| && j < |cs| && i != j
    ensures Disjoint(cs[i].box, cs[j].box)
  {
    assert i < j ==> Disjoint(cs[i].box, cs[j].box);
    assert j < i ==> Disjoint(cs[j].box, cs[i].box);
  }

  /** gbm_pal_mcut: splits the colour cube, then sets up the palette, most used cell first, and turns
      the histogram into a map from colours to palette entries. */
  method BuildPalette(m: Mcut, wanted: int, palette: array<Rgb>)
    returns (ghost order: seq<Cell>, ghost steps: seq<seq<Cell>>, ghost s: seq<nat>)
    requires m.Sized() && m.freqs != m.cells as object && palette.Length == 0x100
    requires palette as object != m.freqs && palette as object != m.cells
    requires m.total == Sum(m.freqs[..], Whole()) > 0
    modifies m`nCells, m.cells, m.freqs, palette
    ensures m.Sized()
    ensures var h := old(m.freqs[..]);
            && Tiling(h, order) && 1 <= |order| <= MAX_CELLS
            && (forall i, j :: 0 <= i < j < |order| ==> order[i].freq >= order[j].freq)
            && LabelledUpTo(h, m.freqs[..], order, |order|)
            && Steps(h, steps) && RankedCells(steps[|steps| - 1], s, order)
            && |order| == CellsFor(h, wanted)
            && (|UsedColours(h)| <= Most(wanted) ==> forall i :: 0 <= i < |order| ==> Single(order[i].box))
    ensures forall i :: 0 <= i < |order| ==> order[i].box.Valid() && palette[i] == Centre(order[i].box)
    ensures forall i :: |order| <= i < 0x100 ==> palette[i] == GREY
  {
    hide In, Unused, Sum, Tight, Shrunk, Covered, FreqSum, Disjoint, Labelled, LabelledUpTo, Good, Inverses;
    hide CellsFor, UsedColours, Steps, RankedCells, Stable;
    ghost var h := m.freqs[..];
    steps := m.SplitCells(wanted);
    var cs := m.cells[..m.nCells];
    var reorder;
    ghost var inv;
    reorder, inv := SortCells(cs);
    s := reorder[..];
    InverseBounds(s, inv);
    order := Ordered(cs, s);
    IsRanked(cs, s, inv);
    OrderedTiling(h, cs, s, inv);
    LabelStart(h, order);
    assert forall i :: 0 <= i < |order| ==> order[i] == m.cells[s[i]];
    LabelCells(m, cs, reorder, palette, h, order);
    GreyRest(palette, |cs|);
  }

  /** The loop of gbm_pal_mcut over the cells: palette entries, and labels for the colours of each cell. */
  method LabelCells(m: Mcut, cs: seq<Cell>, reorder: array<nat>, palette: array<Rgb>, ghost h: seq<nat>,
                    ghost order: seq<Cell>)
    requires m.freqs.Length == POINTS && palette.Length == 0x100 && |cs| == reorder.Length <= 0x100 && |h| == POINTS
    requires palette as object != m.freqs && reorder != m.freqs && palette as object != reorder
    requires |order| == |cs| && forall i :: 0 <= i < |cs| ==> reorder[i] < |cs| && order[i] == cs[reorder[i]]
    requires Tiling(h, order) && LabelledUpTo(h, m.freqs[..], order, 0)
    modifies m.freqs, palette
    ensures LabelledUpTo(h, m.freqs[..], order, |cs|)
    ensures forall k :: 0 <= k < |cs| ==> order[k].box.Valid() && palette[k] == Centre(order[k].box)
  {
    hide In, Unused, Sum, Tight, Shrunk, Covered, FreqSum, Disjoint, Labelled, LabelledUpTo, Good, Tiling;
    for i := 0 to |cs|
      modifies m.freqs, palette
      invariant LabelledUpTo(h, m.freqs[..], order, i)
      invariant forall k :: 0 <= k < i ==> order[k].box.Valid() && palette[k] == Centre(order[k].box)
    {
      var c := cs[reorder[i]].box;
      GoodCell(h, order, i);
      palette[i] := Centre(c);
      ghost var before := m.freqs[..];
      LabelBox(m.freqs, c, i);
      LabelNext(h, before, m.freqs[..], order, i);
    }
  }

  lemma GoodCell(h: seq<nat>, order: seq<Cell>, i: nat)
    requires Tiling(h, order) && i < |order|
    ensures order[i].box.Valid() && PairwiseDisjoint(order)
  {
    GoodValid(h, order[i]);
  }

  /** Palette entries that are not needed. */
  method GreyRest(palette: array<Rgb>, from: nat)
    requires from <= palette.Length
    modifies palette
    ensures forall k :: 0 <= k < from ==> palette[k] == old(palette[k])
    ensures forall k :: from <= k < palette.Length ==> palette[k] == GREY
  {
    for i := from to palette.Length
      invariant forall k :: 0 <= k < from ==> palette[k] == old(palette[k])
      invariant forall k :: from <= k < i ==> palette[k] == GREY
    {
      palette[i] := GREY;
    }
  }

  lemma InverseBounds(s: seq<nat>, inv: seq<nat>)
    requires Inverses(s, inv)
    ensures forall i :: 0 <= i < |s| ==> s[i] < |s|
  {
  }

  lemma GoodValid(h: seq<nat>, c: Cell)
    requires Good(h, c)
    ensures c.box.Valid()
  {
  }
}
