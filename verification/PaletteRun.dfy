/** Frames quantised one by one and shown with a common palette: rofreq_map and romcut_map of gbmcpal.c. */
module PaletteRun {
  import opened Bits
  import opened Palettes
  import opened Pictures
  import H = Histogram
  import opened HistogramPalette
  import opened HistogramImage
  import MC = MedianCut
  import opened MedianCutPalette
  import opened MedianCutImage
  import opened PaletteFrames

  /** A bitmap of 24-bit pixels. */
  datatype Source = Source(p: Picture, data: seq<Byte>) {
    ghost predicate Valid() { p.Fits(data) }
  }

  ghost predicate SameSize(s: Source, f: Frame) {
    && f.w == s.p.w && f.h == s.p.h && |f.palette| == 0x100 && |f.data| == s.p.h * Stride8(s.p.w)
  }

  // ---- quantised by frequency ----

  /** A frame is what gbm_hist makes of a bitmap. */
  ghost predicate ByFrequency(s: Source, f: Frame, ncols: nat, start: Masks)
    requires s.Valid()
  {
    && SameSize(s, f) && ncols <= 0x100
    && exists k: nat, fs, order :: MostFrequentShown(s, f, ncols, start, k, fs, order)
  }

  /** The masks are coarsened k times, as often as needed. Then fs counts the colours of the bitmap, the
      palette holds the most frequent ones in order, and every pixel has the entry nearest to its colour,
      which is its own if it is among them. */
  ghost predicate MostFrequentShown(s: Source, f: Frame, ncols: nat, start: Masks, k: nat, fs: seq<H.Freq>,
                                    order: seq<nat>)
    requires s.Valid() && SameSize(s, f) && ncols <= 0x100
  {
    var m := After(start, k);
    && (forall j: nat :: j < k ==> TooMany(Seen(After(start, j), s.p, s.data, s.p.h)))
    && !TooMany(Seen(m, s.p, s.data, s.p.h))
    && H.Counts(fs, Seen(m, s.p, s.data, s.p.h))
    && Ranked(fs, order) && |order| == (if ncols < |fs| then ncols else |fs|)
    && PaletteOf(fs, order, f.palette)
    && (forall r :: 0 <= r < |order| ==> PixelWithin(f.palette[r], m, s.p, s.data))
    && forall x: nat, y: nat :: x < s.p.w && y < s.p.h ==>
         s.p.At8(x, y) < |f.data|
         && BestEntry(f.palette, ncols, |order|, ColourAt(m, s.p, s.data, x, y), f.data[s.p.At8(x, y)])
  }

  // ---- quantised by median cut ----

  /** A frame is what gbm_mcut makes of a bitmap. */
  ghost predicate ByMedianCut(s: Source, f: Frame, ncols: nat)
    requires s.Valid()
  {
    SameSize(s, f) && exists steps, rank, order :: CellsShown(s, f, ncols, steps, rank, order)
  }

  /** The palette holds the centres of a tiling of the colours by as many boxes as asked for, or as there
      are colours, which come from dividing the most used box over and over; every pixel has the entry of
      its box; and the most used boxes come first. */
  ghost predicate CellsShown(s: Source, f: Frame, ncols: nat, steps: seq<seq<MC.Cell>>, rank: seq<nat>,
                             order: seq<MC.Cell>)
    requires s.Valid() && SameSize(s, f)
  {
    var h := Hist(Colours(s.p, s.data, s.p.h));
    && MC.Steps(h, steps) && RankedCells(steps[|steps| - 1], rank, order)
    && MC.Tiling(h, order) && |order| == MC.CellsFor(h, ncols) <= 0x100
    && (|MC.UsedColours(h)| <= ncols <= 0x100 ==> forall i :: 0 <= i < |order| ==> MC.Single(order[i].box))
    && (forall i :: 0 <= i < |order| ==> order[i].box.Valid() && f.palette[i] == Centre(order[i].box))
    && (forall i :: |order| <= i < 0x100 ==> f.palette[i] == GREY)
    && (forall x: nat, y: nat :: x < s.p.w && y < s.p.h ==> PixelMapped(s.p, s.data, f.data, f.palette, order, x, y))
    && (forall i: nat :: i < |order| ==> order[i].freq == Uses(s.p, f.data, i, s.p.h))
    && (forall i, j :: 0 <= i < j < |order| ==> order[i].freq >= order[j].freq)
  }

  /** Every byte that is not padding belongs to a pixel. */
  lemma {:induction false} PlaceOf(k: nat, w: nat, h: nat, stride: nat) returns (x: nat, y: nat)
    requires k < h * stride && InPicture(k, w, stride)
    ensures x < w && y < h && k == y * stride + x
  {
    if k < stride {
      x, y := k, 0;
      assert 0 * stride == 0 && h != 0;
    } else {
      assert (h - 1) * stride == h * stride - stride;
      x, y := PlaceOf(k - stride, w, h - 1, stride);
      assert (y + 1) * stride == y * stride + stride;
      y := y + 1;
    }
  }

  /** So a frame is valid if the indexes of its pixels are below the number of colours asked for. */
  lemma PixelsAreValid(s: Source, f: Frame, ncols: nat)
    requires SameSize(s, f)
    requires forall x: nat, y: nat :: x < s.p.w && y < s.p.h ==>
               s.p.At8(x, y) < |f.data| && f.data[s.p.At8(x, y)] < ncols
    ensures f.Valid(ncols)
  {
    forall k | 0 <= k < |f.data| && InPicture(k, f.w, f.Stride())
      ensures f.data[k] < ncols
    {
      var x, y := PlaceOf(k, f.w, f.h, f.Stride());
      assert k == s.p.At8(x, y);
    }
  }

  // ---- runs ----

  /** rofreq_map: every frame is written in the colours gbm_hist chose for it, and a still picture does
      not flicker. */
  method RoFreqMap(sources: seq<Source>, ncols: nat, ncolsextra: nat, start: Masks)
    returns (written: seq<Frame>, frames: seq<Frame>, ghost maps: seq<seq<nat>>)
    requires 1 <= ncols && ncolsextra <= ncols && ncols + ncolsextra <= 0x100
    requires forall i :: 0 <= i < |sources| ==> sources[i].Valid()
    ensures |written| == |frames| == |maps| == |sources|
    ensures forall i :: 0 <= i < |sources| ==> ByFrequency(sources[i], frames[i], ncols, start)
    ensures forall i :: 0 <= i < |sources| ==> SamePicture(written[i], frames[i])
    ensures forall i: nat :: CourseAt(frames, written, maps, ncols, ncolsextra, i)
    ensures forall i: nat :: SteadyAt(frames, written, ncols, i)
  {
    hide SamePicture, SteadyAt, CourseAt, ByFrequency, Frame.Valid;
    frames := [];
    for i := 0 to |sources|
      invariant |frames| == i
      invariant forall k :: 0 <= k < i ==> ByFrequency(sources[k], frames[k], ncols, start) && frames[k].Valid(ncols)
    {
      var f := GetAndHist(sources[i], ncols, start);
      frames := frames + [f];
    }
    written, maps := RoMap(frames, ncols, ncolsextra);
  }

  /** get_and_hist. */
  method GetAndHist(s: Source, ncols: nat, start: Masks) returns (f: Frame)
    requires s.Valid() && 1 <= ncols <= 0x100
    ensures ByFrequency(s, f, ncols, start) && f.Valid(ncols)
  {
    hide ColourAt, TooMany, Seen, H.Counts, Ranked, PaletteOf, PixelWithin, Frame.Valid, IsNearest, Stride8;
    var palette, data8;
    ghost var k, fs, order;
    palette, data8, k, fs, order := GbmHist(s.p, s.data, ncols, start);
    f := Frame(palette[..], s.p.w, s.p.h, data8[..]);
    assert MostFrequentShown(s, f, ncols, start, k, fs, order);
    NearestBelow(s, f, ncols, start, k, fs, order);
  }

  lemma NearestBelow(s: Source, f: Frame, ncols: nat, start: Masks, k: nat, fs: seq<H.Freq>,
                      order: seq<nat>)
    requires s.Valid() && SameSize(s, f) && ncols <= 0x100 && MostFrequentShown(s, f, ncols, start, k, fs, order)
    ensures f.Valid(ncols)
  {
    hide ColourAt, TooMany, Seen, H.Counts, Ranked, PaletteOf, PixelWithin, Frame.Valid, Stride8;
    PixelsAreValid(s, f, ncols);
  }

  /** romcut_map: the same with the colours gbm_mcut chose. */
  method RoMcutMap(sources: seq<Source>, ncols: nat, ncolsextra: nat)
    returns (written: seq<Frame>, frames: seq<Frame>, ghost maps: seq<seq<nat>>)
    requires 1 <= ncols && ncolsextra <= ncols && ncols + ncolsextra <= 0x100
    requires forall i :: 0 <= i < |sources| ==> sources[i].Valid() && sources[i].p.w >= 1 && sources[i].p.h >= 1
    ensures |written| == |frames| == |maps| == |sources|
    ensures forall i :: 0 <= i < |sources| ==> ByMedianCut(sources[i], frames[i], ncols)
    ensures forall i :: 0 <= i < |sources| ==> SamePicture(written[i], frames[i])
    ensures forall i: nat :: CourseAt(frames, written, maps, ncols, ncolsextra, i)
    ensures forall i: nat :: SteadyAt(frames, written, ncols, i)
  {
    hide SamePicture, SteadyAt, CourseAt, ByMedianCut, Frame.Valid;
    frames := [];
    for i := 0 to |sources|
      invariant |frames| == i
      invariant forall k :: 0 <= k < i ==> ByMedianCut(sources[k], frames[k], ncols) && frames[k].Valid(ncols)
    {
      var f := GetAndMcut(sources[i], ncols);
      frames := frames + [f];
    }
    written, maps := RoMap(frames, ncols, ncolsextra);
  }

  /** get_and_mcut. */
  method GetAndMcut(s: Source, ncols: nat) returns (f: Frame)
    requires s.Valid() && s.p.w >= 1 && s.p.h >= 1 && 1 <= ncols <= 0x100
    ensures ByMedianCut(s, f, ncols) && f.Valid(ncols)
  {
    hide MC.Tiling, MC.Steps, RankedCells, Hist, Colours, MC.CellsFor, MC.UsedColours, PixelMapped, Uses;
    hide Frame.Valid, Stride8, Stride24, CountIn, MC.PairwiseDisjoint, Centre;
    var data24 := new Byte[|s.data|](i requires 0 <= i < |s.data| => s.data[i]);
    assert data24[..] == s.data;
    var palette, data8;
    ghost var order, steps, rank;
    palette, data8, order, steps, rank := Quantise(s.p, data24, ncols);
    f := Frame(palette[..], s.p.w, s.p.h, data8[..]);
    assert CellsShown(s, f, ncols, steps, rank, order);
    CellBelow(s, f, ncols, steps, rank, order);
  }

  lemma CellBelow(s: Source, f: Frame, ncols: nat, steps: seq<seq<MC.Cell>>, rank: seq<nat>, order: seq<MC.Cell>)
    requires s.Valid() && SameSize(s, f) && 1 <= ncols <= 0x100 && CellsShown(s, f, ncols, steps, rank, order)
    ensures f.Valid(ncols)
  {
    hide MC.Tiling, MC.Steps, RankedCells, Hist, Colours, MC.UsedColours, Represents, Uses;
    hide Frame.Valid, Stride8, Stride24, CountIn;
    forall x: nat, y: nat | x < s.p.w && y < s.p.h
      ensures s.p.At8(x, y) < |f.data| && f.data[s.p.At8(x, y)] < ncols
    {
      assert PixelMapped(s.p, s.data, f.data, f.palette, order, x, y);
    }
    PixelsAreValid(s, f, ncols);
  }
}
