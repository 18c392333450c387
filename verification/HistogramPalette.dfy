/** The palette of the most frequent colours of a histogram: gbm_pal_hist. */
module HistogramPalette {
  import opened Palettes
  import opened Counting
  import opened Histogram
  import opened NearestColour

  /** Among the entries not in `used`, entry m is the most frequent, the first of those as frequent. */
  ghost predicate FirstMost(fs: seq<Freq>, used: seq<nat>, m: nat) {
    && m < |fs| && m !in used
    && forall j: nat :: j < |fs| && j !in used ==> fs[j].freq + (if j < m then 1 else 0) <= fs[m].freq
  }

  /** The entries chosen, in the order they are chosen. */
  ghost predicate Ranked(fs: seq<Freq>, order: seq<nat>) {
    forall i :: 0 <= i < |order| ==> FirstMost(fs, order[..i], order[i])
  }

  lemma RankedMore(fs: seq<Freq>, order: seq<nat>, m: nat)
    requires Ranked(fs, order) && FirstMost(fs, order, m)
    ensures Ranked(fs, order + [m])
  {
    var order' := order + [m];
    forall i | 0 <= i < |order'|
      ensures FirstMost(fs, order'[..i], order'[i])
    {
      if i < |order| {
        assert order'[..i] == order[..i];
        assert FirstMost(fs, order[..i], order[i]);
      } else {
        assert order'[..i] == order;
      }
    }
  }

  lemma RankedDistinct(fs: seq<Freq>, order: seq<nat>)
    requires Ranked(fs, order)
    ensures Distinct(order)
  {
    forall i, j | 0 <= i < j < |order|
      ensures order[i] != order[j]
    {
      assert FirstMost(fs, order[..j], order[j]);
      assert order[..j][i] == order[i];
    }
  }

  /** The ranking is by frequency: what is chosen first is at least as frequent as what is chosen
      later or not at all, and no entry is chosen twice. */
  lemma MostFrequent(fs: seq<Freq>, order: seq<nat>, i: nat, j: nat)
    requires Ranked(fs, order) && i < |order| && j < |fs|
    requires forall k :: 0 <= k <= i ==> order[k] != j
    ensures Distinct(order) && order[i] < |fs| && fs[j].freq <= fs[order[i]].freq
    ensures fs[j].freq == fs[order[i]].freq ==> order[i] < j
  {
    RankedDistinct(fs, order);
    assert FirstMost(fs, order[..i], order[i]);
    assert j !in order[..i];
  }

  /** The entries after those in `order` have been taken out. */
  ghost predicate Taken(was: seq<Freq>, fs: seq<Freq>, order: seq<nat>) {
    && |fs| == |was|
    && (forall r :: 0 <= r < |order| ==>
          order[r] < |fs| && fs[order[r]].freq == 0 && fs[order[r]].nearest == r &&
            fs[order[r]].colour == was[order[r]].colour)
    && (forall j: nat :: j < |fs| && j !in order ==> fs[j] == was[j])
  }

  lemma TakeOne(was: seq<Freq>, fs: seq<Freq>, order: seq<nat>, m: nat)
    requires Taken(was, fs, order) && m < |fs| && m !in order
    ensures Taken(was, fs[m := fs[m].(nearest := |order|, freq := 0)], order + [m])
  {
  }

  /** The search for the most frequent entry; those taken have frequency 0. */
  method FindMost(h: Hist, ghost was: seq<Freq>, ghost order: seq<nat>) returns (maxJ: nat)
    requires h.Sized() && |was| == h.nCols && Taken(was, h.f[..h.nCols], order)
    requires |order| < h.nCols && forall j :: 0 <= j < |was| ==> was[j].freq > 0
    ensures FirstMost(was, order, maxJ)
  {
    SomeUnused(order, h.nCols);
    ghost var free: nat :| free < h.nCols && free !in order;
    ghost var fs := h.f[..h.nCols];
    var maxFreq := 0;
    maxJ := 0;
    for j := 0 to h.nCols
      invariant if maxFreq == 0 then j <= free else maxJ < j && maxJ !in order && was[maxJ].freq == maxFreq
      invariant forall k: nat :: k < j && k !in order ==> was[k].freq + (if k < maxJ then 1 else 0) <= maxFreq
    {
      assert h.f[j] == fs[j];
      if j in order {
        ghost var r :| 0 <= r < |order| && order[r] == j;
        assert fs[order[r]].freq == 0;
      }
      if h.f[j].freq > maxFreq {
        maxJ, maxFreq := j, h.f[j].freq;
      }
    }
  }

  /** The palette holds the chosen colours in order, then grey. */
  ghost predicate PaletteOf(was: seq<Freq>, order: seq<nat>, palette: seq<Rgb>) {
    && |order| <= |palette| == 0x100
    && (forall r :: 0 <= r < |order| ==> order[r] < |was| && palette[r] == was[order[r]].colour)
    && (forall r :: |order| <= r < 0x100 ==> palette[r] == GREY)
  }

  /** The first loop of gbm_pal_hist: the most frequent colours become palette entries. */
  method ChooseColours(h: Hist, palette: array<Rgb>, wanted: nat) returns (i: nat, ghost order: seq<nat>)
    requires h.Sized() && palette.Length == 0x100 && wanted <= 0x100
    requires forall j :: 0 <= j < h.nCols ==> h.f[j].freq > 0
    modifies h.f, palette
    ensures i == |order| == (if wanted < h.nCols then wanted else h.nCols) && Ranked(old(h.f[..h.nCols]), order)
    ensures Taken(old(h.f[..h.nCols]), h.f[..h.nCols], order)
    ensures forall r :: 0 <= r < |order| ==> order[r] < h.nCols && palette[r] == old(h.f[..h.nCols])[order[r]].colour
  {
    hide Ranked, Taken, FirstMost;
    ghost var was := h.f[..h.nCols];
    i, order := 0, [];
    NothingTaken(was);
    while i < wanted && i < h.nCols
      modifies h.f, palette
      invariant i == |order| <= wanted && i <= h.nCols
      invariant Ranked(was, order) && Taken(was, h.f[..h.nCols], order)
      invariant forall r :: 0 <= r < i ==> order[r] < |was| && palette[r] == was[order[r]].colour
    {
      ghost var fs := h.f[..h.nCols];
      var maxJ := FindMost(h, was, order);
      TakenColour(was, fs, order, maxJ);
      h.f[maxJ] := h.f[maxJ].(nearest := i, freq := 0);
      palette[i] := h.f[maxJ].colour;
      RankedMore(was, order, maxJ);
      TakeOne(was, fs, order, maxJ);
      assert h.f[..h.nCols] == fs[maxJ := fs[maxJ].(nearest := i, freq := 0)];
      order, i := order + [maxJ], i + 1;
    }
  }

  lemma NothingTaken(was: seq<Freq>)
    ensures Taken(was, was, []) && Ranked(was, [])
  {
  }

  lemma TakenColour(was: seq<Freq>, fs: seq<Freq>, order: seq<nat>, m: nat)
    requires Taken(was, fs, order) && FirstMost(was, order, m)
    ensures m < |fs| == |was| && m !in order && fs[m] == was[m]
  {
  }

  /** A colour of the palette is its own nearest entry: colours are listed once, and grey comes after. */
  lemma OwnEntry(was: seq<Freq>, order: seq<nat>, palette: seq<Rgb>, wanted: nat, r: nat)
    requires PaletteOf(was, order, palette) && Ranked(was, order) && ColoursApart(was) && r < |order| <= wanted <= 0x100
    ensures IsNearest(palette[..wanted], palette[r], r)
  {
    hide Dist;
    forall k | 0 <= k < wanted
      ensures Dist(palette[r], palette[r]) + (if k < r then 1 else 0) <= Dist(palette[r], palette[k])
    {
      NoDistance(palette[r], palette[r]);
      NoDistance(palette[r], palette[k]);
      DistBound(palette[r], palette[k]);
      if k < r {
        assert FirstMost(was, order[..r], order[r]);
        assert order[..r][k] == order[k];
        assert order[k] < order[r] || order[r] < order[k];
      }
    }
  }

  /** The nearest entries found for the entries up to n, each with its own colour still. */
  ghost predicate Mapped(was: seq<Freq>, fs: seq<Freq>, order: seq<nat>, pal: seq<Rgb>, n: nat) {
    && |fs| == |was|
    && (forall j :: 0 <= j < |fs| ==> fs[j].colour == was[j].colour)
    && (forall r :: 0 <= r < |order| ==> order[r] < |fs| && fs[order[r]].nearest == r && fs[order[r]].freq == 0)
    && (forall j: nat :: j < |fs| && j !in order ==> fs[j].freq > 0)
    && (forall j: nat :: j < |fs| && (j < n || j in order) ==> IsNearest(pal, fs[j].colour, fs[j].nearest))
  }

  lemma MappedStart(was: seq<Freq>, fs: seq<Freq>, order: seq<nat>, palette: seq<Rgb>, wanted: nat)
    requires Taken(was, fs, order) && PaletteOf(was, order, palette) && Ranked(was, order) && ColoursApart(was)
    requires |order| <= wanted <= 0x100 && forall j :: 0 <= j < |was| ==> was[j].freq > 0
    ensures Mapped(was, fs, order, palette[..wanted], 0)
  {
    hide IsNearest, Ranked, ColoursApart;
    forall j: nat | j < |fs| && j in order
      ensures IsNearest(palette[..wanted], fs[j].colour, fs[j].nearest)
    {
      var r :| 0 <= r < |order| && order[r] == j;
      OwnEntry(was, order, palette, wanted, r);
    }
    forall j: nat | j < |fs|
      ensures fs[j].colour == was[j].colour
    {
      if j in order {
        var r :| 0 <= r < |order| && order[r] == j;
        assert fs[order[r]].colour == was[order[r]].colour;
      }
    }
  }

  lemma MapOne(was: seq<Freq>, fs: seq<Freq>, order: seq<nat>, pal: seq<Rgb>, n: nat, v: nat)
    requires Mapped(was, fs, order, pal, n) && n < |fs|
    requires fs[n].freq != 0 ==> IsNearest(pal, fs[n].colour, v)
    ensures Mapped(was, if fs[n].freq != 0 then fs[n := fs[n].(nearest := v)] else fs, order, pal, n + 1)
  {
    hide IsNearest;
  }

  /** gbm_pal_hist. */
  method PalHist(h: Hist, palette: array<Rgb>, wanted: nat) returns (ghost order: seq<nat>)
    requires h.Counting() && palette.Length == 0x100 && 1 <= wanted <= 0x100
    modifies h.f, palette
    ensures h.Valid()
    ensures |order| == (if wanted < h.nCols then wanted else h.nCols) && Ranked(old(h.f[..h.nCols]), order)
    ensures PaletteOf(old(h.f[..h.nCols]), order, palette[..])
    ensures Mapped(old(h.f[..h.nCols]), h.f[..h.nCols], order, palette[..wanted], h.nCols)
  {
    hide Ranked, Taken, FirstMost, Keys, Counts, Reachable, Mapped, IsNearest, ColoursApart;
    ghost var was := h.f[..h.nCols];
    EachCounted(was, h.seen);
    var chosen;
    chosen, order := ChooseColours(h, palette, wanted);
    ghost var fs := h.f[..h.nCols];
    for i := chosen to 0x100
      modifies palette
      invariant forall r :: 0 <= r < |order| ==> order[r] < |was| && palette[r] == was[order[r]].colour
      invariant forall r :: |order| <= r < i ==> palette[r] == GREY
      invariant h.f[..h.nCols] == fs
    {
      palette[i] := GREY;
    }
    MappedStart(was, fs, order, palette[..], wanted);
    ghost var pal := palette[..];
    for i := 0 to h.nCols
      modifies h.f
      invariant palette[..] == pal && Mapped(was, h.f[..h.nCols], order, pal[..wanted], i)
    {
      ghost var now := h.f[..h.nCols];
      if h.f[i].freq != 0 {
        var minJ := Nearest(h.f[i].colour, palette[..wanted]);
        h.f[i] := h.f[i].(nearest := minJ);
        assert h.f[..h.nCols] == now[i := now[i].(nearest := minJ)];
        MapOne(was, now, order, pal[..wanted], i, minJ);
      } else {
        MapOne(was, now, order, pal[..wanted], i, 0);
      }
    }
    KeysKept(was, h.f[..h.nCols], order, pal[..wanted], h.ht[..], h.slots, h.seen);
  }

  lemma EachCounted(fs: seq<Freq>, seen: multiset<Rgb>)
    requires Counts(fs, seen)
    ensures ColoursApart(fs) && forall j :: 0 <= j < |fs| ==> fs[j].freq > 0
  {
  }

  lemma KeysKept(was: seq<Freq>, fs: seq<Freq>, order: seq<nat>, pal: seq<Rgb>,
                  ht: seq<int>, slots: seq<nat>, seen: multiset<Rgb>)
    requires Reachable(was, ht, slots) && Keys(was, seen) && Mapped(was, fs, order, pal, |fs|)
    ensures Reachable(fs, ht, slots) && Keys(fs, seen)
  {
    hide IsNearest;
    SameColours(was, fs, ht, slots);
    forall c | c in seen
      ensures Has(fs, c)
    {
      assert Has(was, c);
      var i :| 0 <= i < |was| && was[i].colour == c;
      assert fs[i].colour == c;
    }
  }
}
