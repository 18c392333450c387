/** Median cut: the cell splitting of gbm_pal_mcut. */
module MedianCut {
  import opened Counting
  import opened ColourBoxes

  const MAX_CELLS := 0x100

  /** A cell: a box of colours, the number of pixels in it, and the directions it can be divided in.
      The three flags are the three bits of the C field `dividable`. */
  datatype Cell = Cell(freq: nat, box: Box, divR: bool, divG: bool, divB: bool) {
    function Div(a: Axis): bool {
      match a case R => divR case G => divG case B => divB
    }

    predicate Dividable() { divR || divG || divB }
  }

  /** What holds of every cell: its box is tight, its frequency is the number of pixels in the box, and
      it is dividable in the directions in which the box is wide. */
  ghost predicate Good(h: seq<nat>, c: Cell) {
    && Tight(h, c.box)
    && c.freq == Sum(h, c.box)
    && forall a: Axis :: c.Div(a) <==> c.box.Hi(a) - c.box.Lo(a) > 1
  }

  ghost predicate Disjoint(c: Box, d: Box) {
    forall p: nat {:trigger In(c, p)} {:trigger In(d, p)} :: !(In(c, p) && In(d, p))
  }

  ghost function FreqSum(cs: seq<Cell>): nat {
    if cs == [] then 0 else FreqSum(cs[..|cs| - 1]) + cs[|cs| - 1].freq
  }

  /** The cells are disjoint tight boxes and cover every counted colour. */
  ghost predicate Tiling(h: seq<nat>, cs: seq<Cell>) {
    && (forall i :: 0 <= i < |cs| ==> Good(h, cs[i]))
    && PairwiseDisjoint(cs)
    && (forall p: nat :: p < |h| && h[p] > 0 ==> Covered(cs, p))
  }

  /** And they share out all the pixels. */
  ghost predicate Partition(h: seq<nat>, total: nat, cs: seq<Cell>) {
    Tiling(h, cs) && FreqSum(cs) == total
  }

  ghost predicate Covered(cs: seq<Cell>, p: nat) {
    exists i :: 0 <= i < |cs| && In(cs[i].box, p)
  }

  lemma {:induction false} FreqSumUpdate(cs: seq<Cell>, i: nat, c: Cell)
    requires i < |cs|
    ensures FreqSum(cs[i := c]) == FreqSum(cs) - cs[i].freq + c.freq
  {
    var cs' := cs[i := c];
    if i == |cs| - 1 {
      assert cs'[..|cs| - 1] == cs[..|cs| - 1];
    } else {
      assert cs'[..|cs| - 1] == cs[..|cs| - 1][i := c];
      FreqSumUpdate(cs[..|cs| - 1], i, c);
    }
  }

  lemma {:induction false} FreqSumSnoc(cs: seq<Cell>, c: Cell)
    ensures FreqSum(cs + [c]) == FreqSum(cs) + c.freq
  {
    assert (cs + [c])[..|cs|] == cs;
  }

  /** Box d holds exactly the used colours of box c. */
  ghost predicate Shrunk(h: seq<nat>, c: Box, d: Box) {
    && Inside(d, c)
    && (forall p: nat {:trigger In(c, p)} :: p < |h| && h[p] > 0 && In(c, p) ==> In(d, p))
  }

  ghost predicate Inside(d: Box, c: Box) {
    forall p: nat {:trigger In(d, p)} :: In(d, p) ==> In(c, p)
  }

  lemma DisjointInside(c: Box, d: Box, c': Box, d': Box)
    requires Disjoint(c, d) || Disjoint(d, c)
    requires Inside(c', c) && Inside(d', d)
    ensures Disjoint(c', d')
  {
  }

  lemma HalvesApart(c: Box, a: Axis, k: nat, low: Box, high: Box)
    requires c.Lo(a) <= k <= c.Hi(a) && Inside(low, c.Below(a, k)) && Inside(high, c.From(a, k))
    ensures Inside(low, c) && Inside(high, c) && Disjoint(low, high)
  {
    assert Inside(c.Below(a, k), c) && Inside(c.From(a, k), c) && Disjoint(c.Below(a, k), c.From(a, k));
  }

  ghost predicate PairwiseDisjoint(cs: seq<Cell>) {
    forall i, j :: 0 <= i < j < |cs| ==> Disjoint(cs[i].box, cs[j].box)
  }

  lemma SplitDisjoint(cs: seq<Cell>, i: nat, low: Cell, high: Cell)
    requires PairwiseDisjoint(cs) && i < |cs|
    requires Inside(low.box, cs[i].box) && Inside(high.box, cs[i].box) && Disjoint(low.box, high.box)
    ensures PairwiseDisjoint(cs[i := low] + [high])
  {
    var cs' := cs[i := low] + [high];
    forall m, n | 0 <= m < n < |cs'|
      ensures Disjoint(cs'[m].box, cs'[n].box)
    {
      var n' := if n == |cs| then i else n;
      if m != n' {
        assert Disjoint(cs[m].box, cs[n'].box) || Disjoint(cs[n'].box, cs[m].box);
        DisjointInside(cs[m].box, cs[n'].box, cs'[m].box, cs'[n].box);
      }
    }
  }

  lemma SplitCovers(h: seq<nat>, cs: seq<Cell>, i: nat, a: Axis, k: nat, low: Cell, high: Cell,
                     p: nat)
    requires i < |cs| && cs[i].box.Lo(a) <= k <= cs[i].box.Hi(a)
    requires Shrunk(h, cs[i].box.Below(a, k), low.box) && Shrunk(h, cs[i].box.From(a, k), high.box)
    requires p < |h| && h[p] > 0 && Covered(cs, p)
    ensures Covered(cs[i := low] + [high], p)
  {
    var cs' := cs[i := low] + [high];
    var m :| 0 <= m < |cs| && In(cs[m].box, p);
    if m != i {
      assert In(cs'[m].box, p);
    } else if In(cs[i].box.Below(a, k), p) {
      assert In(cs'[i].box, p);
    } else {
      assert In(cs[i].box.From(a, k), p);
      assert In(cs'[|cs|].box, p);
    }
  }

  /** Splitting a cell in two and shrinking the halves keeps the partition. */
  lemma SplitKeeps(h: seq<nat>, total: nat, cs: seq<Cell>, i: nat, a: Axis, k: nat, low: Cell,
                    high: Cell)
    requires Partition(h, total, cs) && i < |cs|
    requires cs[i].box.Lo(a) <= k <= cs[i].box.Hi(a)
    requires Good(h, low) && Shrunk(h, cs[i].box.Below(a, k), low.box)
    requires Good(h, high) && Shrunk(h, cs[i].box.From(a, k), high.box)
    ensures Partition(h, total, cs[i := low] + [high])
  {
    hide In, Good, Tight;
    var c := cs[i].box;
    CutFreq(h, cs[i], a, k, low, high);
    FreqSumUpdate(cs, i, low);
    FreqSumSnoc(cs[i := low], high);
    HalvesApart(c, a, k, low.box, high.box);
    SplitDisjoint(cs, i, low, high);
    forall p: nat | p < |h| && h[p] > 0
      ensures Covered(cs[i := low] + [high], p)
    {
      SplitCovers(h, cs, i, a, k, low, high, p);
    }
  }

  lemma CutFreq(h: seq<nat>, c: Cell, a: Axis, k: nat, low: Cell, high: Cell)
    requires Good(h, c) && c.box.Lo(a) <= k <= c.box.Hi(a)
    requires Good(h, low) && Shrunk(h, c.box.Below(a, k), low.box)
    requires Good(h, high) && Shrunk(h, c.box.From(a, k), high.box)
    ensures c.freq == low.freq + high.freq
  {
    SumCut(h, c.box, a, k);
    ShrunkSum(h, c.box.Below(a, k), low.box);
    ShrunkSum(h, c.box.From(a, k), high.box);
  }

  /** The axis a cell is divided along: the longest side among those it is dividable in, green before
      red before blue. */
  function Longest(c: Cell): Axis {
    var dr := if c.divR then c.box.r1 - c.box.r0 else 0;
    var dg := if c.divG then c.box.g1 - c.box.g0 else 0;
    var db := if c.divB then c.box.b1 - c.box.b0 else 0;
    if dg >= dr && dg >= db then G else if dr >= db then R else B
  }

  lemma LongestIsWide(h: seq<nat>, c: Cell)
    requires Good(h, c) && c.Dividable()
    ensures var a := Longest(c);
            && c.Div(a)
            && (forall b: Axis :: c.box.Hi(b) - c.box.Lo(b) <= c.box.Hi(a) - c.box.Lo(a))
            && (a != G ==> c.box.g1 - c.box.g0 < c.box.Hi(a) - c.box.Lo(a))
            && (a == B ==> c.box.r1 - c.box.r0 < c.box.Hi(a) - c.box.Lo(a))
  {
    hide Good;
    WideSides(h, c);
    forall b: Axis
      ensures c.box.Hi(b) - c.box.Lo(b) <= c.box.Hi(Longest(c)) - c.box.Lo(Longest(c))
    {
      match b case R => case G => case B =>
    }
  }

  lemma WideSides(h: seq<nat>, c: Cell)
    requires Good(h, c)
    ensures (c.divR <==> c.box.r1 - c.box.r0 > 1) && (c.divG <==> c.box.g1 - c.box.g0 > 1)
    ensures c.divB <==> c.box.b1 - c.box.b0 > 1
  {
    hide Tight, Sum;
    assert (c.Div(R) <==> c.box.Hi(R) - c.box.Lo(R) > 1)
        && (c.Div(G) <==> c.box.Hi(G) - c.box.Lo(G) > 1)
        && (c.Div(B) <==> c.box.Hi(B) - c.box.Lo(B) > 1);
  }

  /** Where the median cut falls: the first boundary with at least half the pixels below it, or the one
      before when that is the far end of the cell. */
  ghost predicate IsMedian(h: seq<nat>, c: Cell, a: Axis, k: nat) {
    && c.box.Lo(a) < k < c.box.Hi(a)
    && Sum(h, c.box.Below(a, k - 1)) < c.freq / 2
    && (Sum(h, c.box.Below(a, k)) >= c.freq / 2 || k == c.box.Hi(a) - 1)
  }

  /** Shrinking along one axis keeps the used faces of the others. */
  lemma FaceKept(h: seq<nat>, c: Box, d: Box, a: Axis, k: nat)
    requires Shrunk(h, c, d) && c.Lo(a) == d.Lo(a) && c.Hi(a) == d.Hi(a) && c.Lo(a) <= k < c.Hi(a)
    requires !Unused(h, c.Slice(a, k))
    ensures !Unused(h, d.Slice(a, k))
  {
    var p: nat :| p < |h| && In(c.Slice(a, k), p) && h[p] > 0;
    assert In(c, p);
    assert In(d, p);
    assert In(d.Slice(a, k), p);
  }

  lemma DropLow(h: seq<nat>, c: Box, a: Axis)
    requires c.Valid() && !Unused(h, c) && Unused(h, c.Slice(a, c.Lo(a)))
    ensures c.Hi(a) - c.Lo(a) > 1
    ensures var d := c.With(a, c.Lo(a) + 1, c.Hi(a)); Shrunk(h, c, d) && !Unused(h, d)
  {
    var p: nat :| p < |h| && In(c, p) && h[p] > 0;
    assert !In(c.Slice(a, c.Lo(a)), p);
    var d := c.With(a, c.Lo(a) + 1, c.Hi(a));
    assert In(d, p);
    forall p: nat | p < |h| && h[p] > 0 && In(c, p)
      ensures In(d, p)
    {
      assert !In(c.Slice(a, c.Lo(a)), p);
    }
  }

  lemma DropHigh(h: seq<nat>, c: Box, a: Axis)
    requires c.Valid() && !Unused(h, c) && c.Hi(a) - c.Lo(a) > 1 && Unused(h, c.Slice(a, c.Hi(a) - 1))
    ensures var d := c.With(a, c.Lo(a), c.Hi(a) - 1); Shrunk(h, c, d) && !Unused(h, d)
  {
    var p: nat :| p < |h| && In(c, p) && h[p] > 0;
    assert !In(c.Slice(a, c.Hi(a) - 1), p);
    var d := c.With(a, c.Lo(a), c.Hi(a) - 1);
    assert In(d, p);
    forall p: nat | p < |h| && h[p] > 0 && In(c, p)
      ensures In(d, p)
    {
      assert !In(c.Slice(a, c.Hi(a) - 1), p);
    }
  }

  lemma ShrunkTwice(h: seq<nat>, c: Box, d: Box, e: Box)
    requires Shrunk(h, c, d) && Shrunk(h, d, e)
    ensures Shrunk(h, c, e)
  {
  }

  lemma SameBox(h: seq<nat>, c: Box)
    ensures Shrunk(h, c, c)
  {
  }

  lemma ShrunkSum(h: seq<nat>, c: Box, d: Box)
    requires Shrunk(h, c, d)
    ensures Sum(h, c) == Sum(h, d)
  {
    SumSame(h, c, d);
  }

  /** The median-cut data: the histogram of 5-bit colours and the cells. */
  class Mcut {
    const freqs: array<nat>
    var total: nat
    const cells: array<Cell>
    var nCells: nat

    /** gbm_create_mcut: an empty histogram. */
    constructor ()
      ensures Sized() && total == 0 && nCells == 0
      ensures fresh(freqs) && fresh(cells) && freqs != cells as object
      ensures forall i :: 0 <= i < POINTS ==> freqs[i] == 0
    {
      freqs := new nat[POINTS](_ => 0);
      cells := new Cell[MAX_CELLS](_ => Cell(0, Box(0, 0, 0, 0, 0, 0), false, false, false));
      total, nCells := 0, 0;
    }

    ghost predicate Sized()
      reads this
    {
      freqs.Length == POINTS && cells.Length == MAX_CELLS && nCells <= MAX_CELLS
    }

    ghost function Cells(): seq<Cell>
      reads this, cells
      requires Sized()
    {
      cells[..nCells]
    }

    /** Is any colour of the box used? */
    method AnyUsed(c: Box) returns (any: bool)
      requires freqs.Length == POINTS && c.r1 <= SIDE && c.g1 <= SIDE && c.b1 <= SIDE
      requires c.r0 <= c.r1 && c.g0 <= c.g1 && c.b0 <= c.b1
      ensures any <==> !Unused(freqs[..], c)
    {
      ghost var h := freqs[..];
      for r := c.r0 to c.r1
        invariant Unused(h, c.Below(R, r))
      {
        for g := c.g0 to c.g1
          invariant Unused(h, c.Slice(R, r).Below(G, g))
        {
          for b := c.b0 to c.b1
            invariant Unused(h, c.Slice(R, r).Slice(G, g).Below(B, b))
          {
            PointCoords(r, g, b);
            if freqs[Point(r, g, b)] != 0 {
              assert In(c, Point(r, g, b)) && h[Point(r, g, b)] > 0;
              return true;
            }
            SumPoint(h, r, g, b);
            SumZero(h, c.Slice(R, r).Slice(G, g).Slice(B, b));
            UnusedStep(h, c.Slice(R, r).Slice(G, g), B, b);
          }
          UnusedStep(h, c.Slice(R, r), G, g);
        }
        UnusedStep(h, c, R, r);
      }
      return false;
    }

    /** The number of pixels in the box. */
    method CountBox(c: Box) returns (s: nat)
      requires freqs.Length == POINTS && c.Valid()
      ensures s == Sum(freqs[..], c)
    {
      ghost var h := freqs[..];
      s := 0;
      NothingBelow(h, c, R);
      for r := c.r0 to c.r1
        invariant s == Sum(h, c.Below(R, r))
      {
        ghost var s0 := s;
        NothingBelow(h, c.Slice(R, r), G);
        for g := c.g0 to c.g1
          invariant s == s0 + Sum(h, c.Slice(R, r).Below(G, g))
        {
          ghost var s1 := s;
          NothingBelow(h, c.Slice(R, r).Slice(G, g), B);
          for b := c.b0 to c.b1
            invariant s == s1 + Sum(h, c.Slice(R, r).Slice(G, g).Below(B, b))
          {
            PointCoords(r, g, b);
            s := s + freqs[Point(r, g, b)];
            SumPoint(h, r, g, b);
            SumCut(h, c.Slice(R, r).Slice(G, g).Below(B, b + 1), B, b);
          }
          SumCut(h, c.Slice(R, r).Below(G, g + 1), G, g);
        }
        SumCut(h, c.Below(R, r + 1), R, r);
      }
    }

    /** Moves both bounds along one axis inwards up to the first and last used slice. */
    method ShrinkAxis(c: Box, a: Axis) returns (d: Box)
      requires freqs.Length == POINTS && c.Valid() && !Unused(freqs[..], c)
      ensures d.Valid() && Shrunk(freqs[..], c, d) && !Unused(freqs[..], d)
      ensures d == c.With(a, d.Lo(a), d.Hi(a))
      ensures !Unused(freqs[..], d.Slice(a, d.Lo(a))) && !Unused(freqs[..], d.Slice(a, d.Hi(a) - 1))
    {
      hide In, Unused, Shrunk;
      ghost var h := freqs[..];
      SameBox(h, c);
      d := c;
      var any := AnyUsed(d.Slice(a, d.Lo(a)));
      while !any
        invariant d.Valid() && Shrunk(h, c, d) && !Unused(h, d) && d == c.With(a, d.Lo(a), d.Hi(a))
        invariant any <==> !Unused(h, d.Slice(a, d.Lo(a)))
        decreases d.Hi(a) - d.Lo(a), !any
      {
        DropLow(h, d, a);
        ghost var d0 := d;
        d := d.With(a, d.Lo(a) + 1, d.Hi(a));
        ShrunkTwice(h, c, d0, d);
        any := AnyUsed(d.Slice(a, d.Lo(a)));
      }
      ghost var lo := d.Lo(a);
      while d.Hi(a) - d.Lo(a) > 1
        invariant d.Valid() && Shrunk(h, c, d) && !Unused(h, d) && d == c.With(a, lo, d.Hi(a))
        invariant !Unused(h, d.Slice(a, lo))
        decreases d.Hi(a)
      {
        any := AnyUsed(d.Slice(a, d.Hi(a) - 1));
        if any {
          return;
        }
        DropHigh(h, d, a);
        ghost var d0 := d;
        d := d.With(a, d.Lo(a), d.Hi(a) - 1);
        ShrunkTwice(h, c, d0, d);
      }
    }

    /** Shrinks a cell to the bounding box of its used colours and works out where it can be divided. */
    method Shrink(c: Cell) returns (d: Cell)
      requires freqs.Length == POINTS && c.box.Valid() && c.freq == Sum(freqs[..], c.box) > 0
      ensures Good(freqs[..], d) && Shrunk(freqs[..], c.box, d.box) && d.freq == c.freq
    {
      hide In, Unused, Sum, Shrunk;
      ghost var h := freqs[..];
      SumZero(h, c.box);
      var b1 := ShrinkAxis(c.box, R);
      var b2 := ShrinkAxis(b1, G);
      var b3 := ShrinkAxis(b2, B);
      FaceKept(h, b1, b2, R, b1.r0);
      FaceKept(h, b1, b2, R, b1.r1 - 1);
      FaceKept(h, b2, b3, R, b1.r0);
      FaceKept(h, b2, b3, R, b1.r1 - 1);
      FaceKept(h, b2, b3, G, b2.g0);
      FaceKept(h, b2, b3, G, b2.g1 - 1);
      ShrunkTwice(h, c.box, b1, b2);
      ShrunkTwice(h, c.box, b2, b3);
      ShrunkSum(h, c.box, b3);
      d := Cell(c.freq, b3, b3.r1 - b3.r0 > 1, b3.g1 - b3.g0 > 1, b3.b1 - b3.b0 > 1);
      assert forall a: Axis :: d.Div(a) <==> b3.Hi(a) - b3.Lo(a) > 1;
    }

    /** Finds the median boundary of a cell along an axis. Both sides of it hold pixels. */
    method FindSplit(c: Cell, a: Axis) returns (k: nat, low: nat)
      requires freqs.Length == POINTS && Good(freqs[..], c) && c.Div(a)
      ensures IsMedian(freqs[..], c, a, k) && c.box.Lo(a) < k < c.box.Hi(a)
      ensures Sum(freqs[..], c.box.Below(a, k - 1)) < c.freq / 2
      ensures Sum(freqs[..], c.box.Below(a, k)) >= c.freq / 2 || k == c.box.Hi(a) - 1
      ensures low == Sum(freqs[..], c.box.Below(a, k)) > 0
      ensures c.freq - low == Sum(freqs[..], c.box.From(a, k)) > 0
    {
      hide In, Unused, Sum, Tight;
      ghost var h := freqs[..];
      var slice := 0;
      k, low := c.box.Lo(a), 0;
      TightFaces(h, c.box, a);
      NothingBelow(h, c.box, a);
      WideHasTwo(h, c.box, a);
      ghost var prev := 0;
      while low < c.freq / 2
        invariant c.box.Lo(a) <= k <= c.box.Hi(a) && low == Sum(h, c.box.Below(a, k))
        invariant k > c.box.Lo(a) ==> low == prev + slice && prev == Sum(h, c.box.Below(a, k - 1)) < c.freq / 2
        invariant k > c.box.Lo(a) ==> slice == Sum(h, c.box.Slice(a, k - 1))
        decreases c.box.Hi(a) - k
      {
        AtEnd(h, c, a, k);
        slice := CountBox(c.box.Slice(a, k));
        SumCut(h, c.box.Below(a, k + 1), a, k);
        prev := low;
        low := low + slice;
        k := k + 1;
      }
      EndsUsed(h, c, a, k);
      if k == c.box.Hi(a) && low > slice {
        k := k - 1;
        low := low - slice;
        EndsUsed(h, c, a, k);
        LessBelow(h, c, a, k);
      }
    }

    /** Splits cell m at its median along its longest side and shrinks the halves. The C code wraps this
        in a loop that would try another direction if the upper half held no pixels; it never does. */
    method Divide(m: nat)
      requires Sized() && m < nCells < MAX_CELLS && Partition(freqs[..], total, Cells())
      requires cells[m].Dividable() && freqs != cells as object
      modifies this`nCells, cells
      ensures Sized() && nCells == old(nCells) + 1
      ensures Partition(freqs[..], total, Cells()) && freqs[..] == old(freqs[..])
      ensures SplitOf(freqs[..], old(cells[m]), cells[m], cells[old(nCells)])
      ensures forall i :: 0 <= i < old(nCells) && i != m ==> cells[i] == old(cells[i])
    {
      hide In, Unused, Sum, Tight, Shrunk, Covered, PairwiseDisjoint, FreqSum, IsMedian;
      ghost var h, before, n := freqs[..], Cells(), nCells;
      var c := cells[m];
      assert c == before[m];
      LongestIsWide(h, c);
      var a := Longest(c);
      var k, low := FindSplit(c, a);
      CutValid(h, c, a, k);
      var upper := c.(box := c.box.From(a, k), freq := c.freq - low);
      var lower := c.(box := c.box.Below(a, k), freq := low);
      if upper.freq > 0 {
        nCells := nCells + 1;
        lower := Shrink(lower);
        upper := Shrink(upper);
        cells[m] := lower;
        cells[nCells - 1] := upper;
      } else {
        assert false;  // the C code would give up this direction here
      }
      assert Cells() == before[m := lower] + [upper];
      SplitKeeps(h, total, before, m, a, k, lower, upper);
      assert HalvesAt(h, c, lower, upper, k);
    }

    /** The first of the cells with the most pixels, among those that can be divided; -1 if none. */
    method PickCell() returns (m: int)
      requires Sized()
      ensures -1 <= m < nCells
      ensures m == -1 ==> forall j :: 0 <= j < nCells ==> !(cells[j].freq > 1 && cells[j].Dividable())
      ensures m >= 0 ==> cells[m].freq > 1 && cells[m].Dividable()
      ensures m >= 0 ==> forall j :: 0 <= j < nCells && cells[j].Dividable() ==> cells[j].freq <= cells[m].freq
      ensures m >= 0 ==> forall j :: 0 <= j < m && cells[j].Dividable() ==> cells[j].freq < cells[m].freq
    {
      m := -1;
      var freqMax := 1;
      for j := 0 to nCells
        invariant -1 <= m < j
        invariant if m == -1 then freqMax == 1 else freqMax == cells[m].freq > 1 && cells[m].Dividable()
        invariant forall i :: 0 <= i < j && cells[i].Dividable() ==> cells[i].freq <= freqMax
        invariant m >= 0 ==> forall i :: 0 <= i < m && cells[i].Dividable() ==> cells[i].freq < freqMax
      {
        if cells[j].freq > freqMax && cells[j].Dividable() {
          m := j;
          freqMax := cells[j].freq;
        }
      }
    }

    /** The splitting loop of gbm_pal_mcut, for a histogram that is not empty. */
    method SplitCells(wanted: int) returns (ghost steps: seq<seq<Cell>>)
      requires Sized() && freqs != cells as object
      requires total == Sum(freqs[..], Whole()) > 0
      modifies this`nCells, cells
      ensures Sized() && freqs[..] == old(freqs[..]) && Partition(freqs[..], total, Cells())
      ensures Steps(freqs[..], steps) && steps[|steps| - 1] == Cells()
      ensures nCells == CellsFor(freqs[..], wanted) >= 1
      ensures |UsedColours(freqs[..])| <= Most(wanted) ==> forall i :: 0 <= i < nCells ==> Single(cells[i].box)
    {
      hide In, Unused, Sum, Tight, Shrunk, Covered, PairwiseDisjoint, FreqSum, Steps, SplitOf, DividedAt;
      ghost var h := freqs[..];
      var most := Most(wanted);
      var first := Shrink(Cell(total, Whole(), false, false, false));
      cells[0] := first;
      nCells := 1;
      assert Cells() == [first];
      OneCell(h, total, first);
      steps := [Cells()];
      FirstStep(h, first);
      while nCells < most
        invariant Sized() && 1 <= nCells && (nCells <= most || nCells == 1)
        invariant freqs[..] == h && Partition(h, total, Cells())
        invariant Steps(h, steps) && steps != [] && steps[|steps| - 1] == Cells()
        decreases most - nCells
      {
        ghost var before := Cells();
        var m := PickCell();
        if m == -1 {
          forall i | 0 <= i < nCells
            ensures Single(cells[i].box)
          {
            assert Cells()[i] == cells[i];
            NarrowIsSingle(h, cells[i]);
          }
          CellsAreUsed(h, Cells());
          SinglesSuffice(h, Cells());
          return;
        }
        Divide(m);
        NextStep(h, steps, before, Cells(), m);
        steps := steps + [Cells()];
      }
      CellsAreUsed(h, Cells());
      if |UsedColours(h)| <= most {
        forall i | 0 <= i < nCells
          ensures Single(cells[i].box)
        {
          FewColours(h, Cells(), i);
          assert Cells()[i] == cells[i];
        }
      }
    }
  }

  function Whole(): Box { Box(0, SIDE, 0, SIDE, 0, SIDE) }

  /** A cell that is a single colour. */
  predicate Single(c: Box) { c.r1 - c.r0 == 1 && c.g1 - c.g0 == 1 && c.b1 - c.b0 == 1 }

  /** The number of cells asked for, as far as there is room. */
  function Most(wanted: int): int { if wanted > MAX_CELLS then MAX_CELLS else wanted }

  /** Median cut makes as many cells as asked for, or as there are colours if they are fewer; at least
      one. */
  ghost function CellsFor(h: seq<nat>, wanted: int): int {
    var used := |UsedColours(h)|;
    if Most(wanted) < 1 then 1 else if used < Most(wanted) then used else Most(wanted)
  }

  lemma CellsForIs(h: seq<nat>, wanted: int)
    ensures 1 <= wanted <= 0x100 ==>
              CellsFor(h, wanted) == if |UsedColours(h)| < wanted then |UsedColours(h)| else wanted
    ensures wanted <= 0 ==> CellsFor(h, wanted) == 1
    ensures wanted > 0x100 ==> CellsFor(h, wanted) == CellsFor(h, 0x100)
  {
  }

  ghost function UsedColours(h: seq<nat>): set<nat> { set p: nat | p < |h| && h[p] > 0 }

  // ---- the course of the splitting ----

  /** Cell m is the first of those with the most pixels, among those that can be divided. */
  ghost predicate Picked(cs: seq<Cell>, m: nat) {
    && m < |cs| && cs[m].freq > 1 && cs[m].Dividable()
    && (forall j :: 0 <= j < |cs| && cs[j].Dividable() ==> cs[j].freq <= cs[m].freq)
    && (forall j :: 0 <= j < m && cs[j].Dividable() ==> cs[j].freq < cs[m].freq)
  }

  /** Cell m is picked and divided at its median along its longest side: the lower half takes its place,
      the upper half comes last, both shrunk, and the others stay. */
  ghost predicate DividedAt(h: seq<nat>, cs: seq<Cell>, cs': seq<Cell>, m: nat) {
    && Picked(cs, m) && |cs'| == |cs| + 1
    && SplitOf(h, cs[m], cs'[m], cs'[|cs|]) && Good(h, cs'[m]) && Good(h, cs'[|cs|])
    && forall i :: 0 <= i < |cs| && i != m ==> cs'[i] == cs[i]
  }

  ghost predicate Divided(h: seq<nat>, cs: seq<Cell>, cs': seq<Cell>) {
    exists m: nat :: DividedAt(h, cs, cs', m)
  }

  /** The lists of cells the splitting goes through, from the whole cube shrunk to its used colours. */
  ghost predicate Steps(h: seq<nat>, steps: seq<seq<Cell>>) {
    && steps != [] && |steps[0]| == 1 && Good(h, steps[0][0]) && Shrunk(h, Whole(), steps[0][0].box)
    && forall i :: 0 < i < |steps| ==> Divided(h, steps[i - 1], steps[i])
  }

  lemma FirstStep(h: seq<nat>, first: Cell)
    requires Good(h, first) && Shrunk(h, Whole(), first.box)
    ensures Steps(h, [[first]])
  {
  }

  lemma NextStep(h: seq<nat>, steps: seq<seq<Cell>>, cs: seq<Cell>, cs': seq<Cell>, m: nat)
    requires Steps(h, steps) && steps[|steps| - 1] == cs && Picked(cs, m)
    requires |cs'| == |cs| + 1 && SplitOf(h, cs[m], cs'[m], cs'[|cs|]) && Tiling(h, cs')
    requires forall i :: 0 <= i < |cs| && i != m ==> cs'[i] == cs[i]
    ensures Steps(h, steps + [cs'])
  {
    hide Good, Shrunk, SplitOf, PairwiseDisjoint, Covered;
    assert DividedAt(h, cs, cs', m);
    assert Divided(h, cs, cs');
  }

  /** What one step does: cell m, the first of the dividable ones with the most pixels, is divided along
      its longest side (green before red before blue) at the first boundary k below which at least half
      of its pixels lie, or the one before if that is its end. */
  lemma EveryStep(h: seq<nat>, steps: seq<seq<Cell>>, i: nat) returns (m: nat, a: Axis, k: nat)
    requires Steps(h, steps) && 0 < i < |steps|
    ensures var cs, cs' := steps[i - 1], steps[i];
            && m < |cs| && |cs'| == |cs| + 1 && cs[m].freq > 1 && cs[m].Div(a)
            && (forall j :: 0 <= j < |cs| && cs[j].Dividable() ==>
                  cs[j].freq < cs[m].freq || (cs[j].freq == cs[m].freq && m <= j))
            && (forall j :: 0 <= j < |cs| && j != m ==> cs'[j] == cs[j])
            && var c := cs[m].box;
               && (forall b: Axis :: c.Hi(b) - c.Lo(b) <= c.Hi(a) - c.Lo(a))
               && (a != G ==> c.g1 - c.g0 < c.Hi(a) - c.Lo(a)) && (a == B ==> c.r1 - c.r0 < c.Hi(a) - c.Lo(a))
               && c.Lo(a) < k < c.Hi(a) && Sum(h, c.With(a, c.Lo(a), k - 1)) < cs[m].freq / 2
               && (Sum(h, c.With(a, c.Lo(a), k)) >= cs[m].freq / 2 || k == c.Hi(a) - 1)
               && cs'[m].freq == Sum(h, c.With(a, c.Lo(a), k)) && cs'[|cs|].freq == Sum(h, c.With(a, k, c.Hi(a)))
  {
    hide Sum, Shrunk, Good;
    var cs, cs' := steps[i - 1], steps[i];
    assert Divided(h, cs, cs');
    m :| DividedAt(h, cs, cs', m);
    a := Longest(cs[m]);
    k :| HalvesAt(h, cs[m], cs'[m], cs'[|cs|], k);
    AllGood(h, steps, i - 1, m);
    LongestIsWide(h, cs[m]);
  }

  lemma {:induction false} AllGood(h: seq<nat>, steps: seq<seq<Cell>>, i: nat, j: nat)
    requires Steps(h, steps) && i < |steps| && j < |steps[i]|
    ensures Good(h, steps[i][j])
  {
    hide SplitOf, Good, Shrunk;
    if i > 0 {
      assert Divided(h, steps[i - 1], steps[i]);
      if j < |steps[i]| - 1 {
        AllGood(h, steps, i - 1, j);
      }
    }
  }

  /** A tight box is determined by the box it was shrunk from. */
  lemma SameTight(h: seq<nat>, c: Box, d: Box, d': Box)
    requires Shrunk(h, c, d) && Shrunk(h, c, d') && Tight(h, d) && Tight(h, d')
    ensures d == d'
  {
    forall a: Axis
      ensures d.Lo(a) == d'.Lo(a) && d.Hi(a) == d'.Hi(a)
    {
      Reaches(h, c, d, d', a);
      Reaches(h, c, d', d, a);
    }
    assert d.Lo(R) == d'.Lo(R) && d.Hi(R) == d'.Hi(R) && d.Lo(G) == d'.Lo(G) && d.Hi(G) == d'.Hi(G);
    assert d.Lo(B) == d'.Lo(B) && d.Hi(B) == d'.Hi(B);
  }

  lemma InBoth(h: seq<nat>, c: Box, d: Box, d': Box, p: nat)
    requires Shrunk(h, c, d) && Shrunk(h, c, d') && p < |h| && h[p] > 0 && In(d, p)
    ensures In(d', p)
  {
    hide In;
    assert In(c, p);
  }

  lemma Reaches(h: seq<nat>, c: Box, d: Box, d': Box, a: Axis)
    requires Shrunk(h, c, d) && Shrunk(h, c, d') && Tight(h, d)
    ensures d'.Lo(a) <= d.Lo(a) && d.Hi(a) <= d'.Hi(a)
  {
    hide In, Shrunk, Tight, Unused;
    TightFaces(h, d, a);
    var p := FacePoint(h, d, a, d.Lo(a));
    var q := FacePoint(h, d, a, d.Hi(a) - 1);
    InBoth(h, c, d, d', p);
    InBoth(h, c, d, d', q);
    Within(d', p, a);
    Within(d', q, a);
  }

  lemma Within(c: Box, p: nat, a: Axis)
    requires In(c, p)
    ensures c.Lo(a) <= Coord(a, p) < c.Hi(a)
  {
  }

  /** There is one median. */
  lemma OneMedian(h: seq<nat>, c: Cell, a: Axis, k: nat, k': nat)
    requires IsMedian(h, c, a, k) && IsMedian(h, c, a, k')
    ensures k == k'
  {
    if k < k' {
      SumToMonotone(h, c.box.Below(a, k), c.box.Below(a, k' - 1), |h|);
    } else if k' < k {
      SumToMonotone(h, c.box.Below(a, k'), c.box.Below(a, k - 1), |h|);
    }
  }

  lemma OneHalving(h: seq<nat>, c: Cell, low: Cell, high: Cell, low': Cell, high': Cell)
    requires SplitOf(h, c, low, high) && Good(h, low) && Good(h, high)
    requires SplitOf(h, c, low', high') && Good(h, low') && Good(h, high')
    ensures low == low' && high == high'
  {
    hide IsMedian, Shrunk, Sum, Tight;
    var a := Longest(c);
    var k: nat :| HalvesAt(h, c, low, high, k);
    var k': nat :| HalvesAt(h, c, low', high', k');
    OneMedian(h, c, a, k, k');
    SameTight(h, c.box.Below(a, k), low.box, low'.box);
    SameTight(h, c.box.From(a, k), high.box, high'.box);
    SameCell(h, low, low');
    SameCell(h, high, high');
  }

  lemma SameCell(h: seq<nat>, c: Cell, d: Cell)
    requires Good(h, c) && Good(h, d) && c.box == d.box
    ensures c == d
  {
    assert c.Div(R) == d.Div(R) && c.Div(G) == d.Div(G) && c.Div(B) == d.Div(B);
  }

  lemma OneDivision(h: seq<nat>, cs: seq<Cell>, cs': seq<Cell>, cs'': seq<Cell>)
    requires Divided(h, cs, cs') && Divided(h, cs, cs'')
    ensures cs' == cs''
  {
    hide SplitOf, Good;
    var m: nat :| DividedAt(h, cs, cs', m);
    var n: nat :| DividedAt(h, cs, cs'', n);
    assert m == n;
    OneHalving(h, cs[m], cs'[m], cs'[|cs|], cs''[m], cs''[|cs|]);
  }

  /** The histogram and the number of cells determine the cells. */
  lemma {:induction false} OneCourse(h: seq<nat>, steps: seq<seq<Cell>>, steps': seq<seq<Cell>>)
    requires Steps(h, steps) && Steps(h, steps') && |steps| == |steps'|
    ensures steps == steps'
  {
    hide Divided, Good, Shrunk;
    var n := |steps| - 1;
    if n == 0 {
      StartSame(h, steps[0][0], steps'[0][0]);
      assert steps[0] == [steps[0][0]] && steps'[0] == [steps'[0][0]];
    } else {
      OneCourse(h, steps[..n], steps'[..n]);
      assert steps[n - 1] == steps[..n][n - 1] && steps'[n - 1] == steps'[..n][n - 1];
      OneDivision(h, steps[n - 1], steps[n], steps'[n]);
      assert steps == steps[..n] + [steps[n]] && steps' == steps'[..n] + [steps'[n]];
    }
  }

  lemma StartSame(h: seq<nat>, c: Cell, d: Cell)
    requires Good(h, c) && Good(h, d) && Shrunk(h, Whole(), c.box) && Shrunk(h, Whole(), d.box)
    ensures c == d
  {
    SameTight(h, Whole(), c.box, d.box);
    SameCell(h, c, d);
  }

  /** Cells low and high are the halves of cell c at its median along its longest side. */
  ghost predicate SplitOf(h: seq<nat>, c: Cell, low: Cell, high: Cell) {
    exists k: nat :: HalvesAt(h, c, low, high, k)
  }

  ghost predicate HalvesAt(h: seq<nat>, c: Cell, low: Cell, high: Cell, k: nat) {
    var a := Longest(c);
    && IsMedian(h, c, a, k)
    && Shrunk(h, c.box.Below(a, k), low.box) && low.freq == Sum(h, c.box.Below(a, k)) > 0
    && Shrunk(h, c.box.From(a, k), high.box) && high.freq == Sum(h, c.box.From(a, k)) > 0
  }

  lemma CutValid(h: seq<nat>, c: Cell, a: Axis, k: nat)
    requires Good(h, c) && IsMedian(h, c, a, k)
    ensures c.box.Lo(a) <= k <= c.box.Hi(a) && c.box.Below(a, k).Valid() && c.box.From(a, k).Valid()
  {
  }

  lemma OneCell(h: seq<nat>, total: nat, c: Cell)
    requires |h| == POINTS && Good(h, c) && Shrunk(h, Whole(), c.box) && c.freq == total
    ensures Partition(h, total, [c])
  {
    FreqSumSnoc([], c);
    assert [] + [c] == [c];
    forall p: nat | p < |h| && h[p] > 0
      ensures Covered([c], p)
    {
      CoordsPoint(p);
      assert In(Whole(), p);
      assert In([c][0].box, p);
    }
  }

  lemma NarrowIsSingle(h: seq<nat>, c: Cell)
    requires Good(h, c) && !(c.freq > 1 && c.Dividable())
    ensures Single(c.box)
  {
    forall a: Axis
      ensures c.box.Hi(a) - c.box.Lo(a) == 1
    {
      TightFaces(h, c.box, a);
      assert c.Div(a) <==> c.box.Hi(a) - c.box.Lo(a) > 1;
      if c.box.Hi(a) - c.box.Lo(a) > 1 {
        WideHasTwo(h, c.box, a);
      }
    }
    assert c.box.Hi(R) - c.box.Lo(R) == 1 && c.box.Hi(G) - c.box.Lo(G) == 1 && c.box.Hi(B) - c.box.Lo(B) == 1;
  }

  // ---- as many cells as colours ----

  /** One used colour from each of the first n cells. */
  lemma {:induction false} Representatives(h: seq<nat>, cs: seq<Cell>, n: nat) returns (reps: seq<nat>)
    requires Tiling(h, cs) && n <= |cs|
    ensures |reps| == n
    ensures forall i :: 0 <= i < n ==> reps[i] < |h| && h[reps[i]] > 0 && In(cs[i].box, reps[i])
  {
    hide Covered, PairwiseDisjoint, Sum, Unused, In;
    reps := [];
    if n > 0 {
      reps := Representatives(h, cs, n - 1);
      assert Good(h, cs[n - 1]);
      TightFaces(h, cs[n - 1].box, R);
      var p := FacePoint(h, cs[n - 1].box, R, cs[n - 1].box.r0);
      reps := reps + [p];
    }
  }

  lemma FacePoint(h: seq<nat>, c: Box, a: Axis, k: nat) returns (p: nat)
    requires !Unused(h, c.Slice(a, k)) && c.Lo(a) <= k < c.Hi(a)
    ensures p < |h| && h[p] > 0 && In(c, p) && Coord(a, p) == k
  {
    p :| p < |h| && In(c.Slice(a, k), p) && h[p] > 0;
  }

  /** With no more used colours than cells, every cell is a single colour. */
  lemma FewColours(h: seq<nat>, cs: seq<Cell>, i: nat)
    requires Tiling(h, cs) && |UsedColours(h)| <= |cs| && i < |cs|
    ensures Single(cs[i].box)
  {
    assert Good(h, cs[i]);
    forall a: Axis
      ensures cs[i].box.Hi(a) - cs[i].box.Lo(a) == 1
    {
      TightFaces(h, cs[i].box, a);
      if cs[i].box.Hi(a) - cs[i].box.Lo(a) > 1 {
        TwoColours(h, cs, i, a);
      }
    }
    assert cs[i].box.Hi(R) - cs[i].box.Lo(R) == 1 && cs[i].box.Hi(G) - cs[i].box.Lo(G) == 1
        && cs[i].box.Hi(B) - cs[i].box.Lo(B) == 1;
  }

  /** A wide cell makes the used colours outnumber the cells. */
  lemma TwoColours(h: seq<nat>, cs: seq<Cell>, i: nat, a: Axis)
    requires Tiling(h, cs) && i < |cs| && cs[i].box.Hi(a) - cs[i].box.Lo(a) > 1
    ensures |UsedColours(h)| > |cs|
  {
    hide Covered, Sum, Unused, In, PairwiseDisjoint, UsedColours;
    assert Good(h, cs[i]);
    TightFaces(h, cs[i].box, a);
    var reps := Representatives(h, cs, |cs|);
    var p := FacePoint(h, cs[i].box, a, cs[i].box.Lo(a));
    var q := FacePoint(h, cs[i].box, a, cs[i].box.Hi(a) - 1);
    var s := reps[i := p] + [q];
    forall j, k | 0 <= j < k < |s|
      ensures s[j] != s[k]
    {
      var k' := if k == |cs| then i else k;
      if j != k' {
        ApartColours(cs, j, k', s[j], s[k]);
      }
    }
    AllUsed(h, s);
    DistinctIn(s, UsedColours(h));
  }

  /** Every cell holds a used colour of its own. */
  lemma CellsAreUsed(h: seq<nat>, cs: seq<Cell>)
    requires Tiling(h, cs)
    ensures |cs| <= |UsedColours(h)|
  {
    hide Covered, Sum, Unused, In, PairwiseDisjoint, UsedColours;
    var reps := Representatives(h, cs, |cs|);
    forall j, k | 0 <= j < k < |reps|
      ensures reps[j] != reps[k]
    {
      ApartColours(cs, j, k, reps[j], reps[k]);
    }
    AllUsed(h, reps);
    DistinctIn(reps, UsedColours(h));
  }

  /** If every cell is a single colour, there are no more used colours than cells. */
  lemma SinglesSuffice(h: seq<nat>, cs: seq<Cell>)
    requires Tiling(h, cs) && |h| == POINTS && forall i :: 0 <= i < |cs| ==> Single(cs[i].box)
    ensures |UsedColours(h)| <= |cs|
  {
    hide Good, PairwiseDisjoint;
    var corners := seq(|cs|, (i: int) requires 0 <= i < |cs| => Point(cs[i].box.r0, cs[i].box.g0, cs[i].box.b0));
    forall p | p in UsedColours(h)
      ensures p in Elements(corners)
    {
      assert Covered(cs, p);
      var i :| 0 <= i < |cs| && In(cs[i].box, p);
      CoordsPoint(p);
      assert corners[i] == p;
    }
    SubsetSize(UsedColours(h), Elements(corners));
  }

  lemma ApartColours(cs: seq<Cell>, i: nat, j: nat, p: nat, q: nat)
    requires PairwiseDisjoint(cs) && i < |cs| && j < |cs| && i != j && In(cs[i].box, p) && In(cs[j].box, q)
    ensures p != q
  {
    assert Disjoint(cs[i].box, cs[j].box) || Disjoint(cs[j].box, cs[i].box);
  }

  lemma AllUsed(h: seq<nat>, s: seq<nat>)
    requires forall i :: 0 <= i < |s| ==> s[i] < |h| && h[s[i]] > 0
    ensures forall i :: 0 <= i < |s| ==> s[i] in UsedColours(h)
  {
  }

  lemma AtEnd(h: seq<nat>, c: Cell, a: Axis, k: nat)
    requires Good(h, c) && c.box.Lo(a) <= k <= c.box.Hi(a) && Sum(h, c.box.Below(a, k)) < c.freq / 2
    ensures k < c.box.Hi(a) && c.box.Slice(a, k).Valid()
  {
    hide Sum, Tight;
    TightFaces(h, c.box, a);
    TightIsValid(h, c.box);
    assert c.box.Below(a, c.box.Hi(a)) == c.box;
  }

  lemma TightIsValid(h: seq<nat>, c: Box)
    requires Tight(h, c)
    ensures c.Valid()
  {
  }

  /** In a tight wide cell both sides of an inner boundary are used, and so is everything up to the end. */
  lemma EndsUsed(h: seq<nat>, c: Cell, a: Axis, k: nat)
    requires Good(h, c) && c.Div(a) && c.box.Lo(a) < k <= c.box.Hi(a)
    ensures Sum(h, c.box.Below(a, k)) > 0
    ensures k < c.box.Hi(a) ==> Sum(h, c.box.From(a, k)) > 0
    ensures c.freq == Sum(h, c.box.Below(a, k)) + Sum(h, c.box.From(a, k))
    ensures k == c.box.Hi(a) ==> Sum(h, c.box.Below(a, k)) == c.freq > Sum(h, c.box.Slice(a, k - 1))
  {
    hide Sum, Unused, Tight, In;
    var b, lo, hi := c.box, c.box.Lo(a), c.box.Hi(a);
    TightFaces(h, b, a);
    SumCut(h, b, a, k);
    SliceUsed(h, b, a, lo, b.Below(a, k));
    if k < hi {
      SliceUsed(h, b, a, hi - 1, b.From(a, k));
    } else {
      SumCut(h, b, a, hi - 1);
      assert c.Div(a) ==> hi - lo > 1;
      SliceUsed(h, b, a, lo, b.Below(a, hi - 1));
      assert b.Below(a, hi) == b && b.From(a, hi - 1) == b.Slice(a, hi - 1);
    }
  }

  lemma SliceUsed(h: seq<nat>, c: Box, a: Axis, k: nat, d: Box)
    requires !Unused(h, c.Slice(a, k)) && d == c.With(a, d.Lo(a), d.Hi(a)) && d.Lo(a) <= k < d.Hi(a)
    ensures Sum(h, d) > 0
  {
    var p: nat :| p < |h| && In(c.Slice(a, k), p) && h[p] > 0;
    assert In(d, p);
    SumZero(h, d);
  }

  lemma LessBelow(h: seq<nat>, c: Cell, a: Axis, k: nat)
    requires Good(h, c) && c.box.Lo(a) < k && Sum(h, c.box.Below(a, k)) < c.freq / 2
    ensures Sum(h, c.box.Below(a, k - 1)) < c.freq / 2
  {
    SumCut(h, c.box.Below(a, k), a, k - 1);
    assert c.box.Below(a, k).Below(a, k - 1) == c.box.Below(a, k - 1);
  }

  lemma NothingBelow(h: seq<nat>, c: Box, a: Axis)
    ensures Sum(h, c.Below(a, c.Lo(a))) == 0
  {
    SumZero(h, c.Below(a, c.Lo(a)));
  }

  lemma UnusedStep(h: seq<nat>, c: Box, a: Axis, k: nat)
    requires Unused(h, c.Below(a, k)) && Unused(h, c.Slice(a, k))
    ensures Unused(h, c.Below(a, k + 1))
  {
    forall p: nat | p < |h| && In(c.Below(a, k + 1), p)
      ensures h[p] == 0
    {
      assert In(c.Below(a, k), p) || In(c.Slice(a, k), p);
    }
  }
}
