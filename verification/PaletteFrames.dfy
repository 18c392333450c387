/** A run of frames with one palette that is reordered from frame to frame: ro_map of gbmcpal.c. */
module PaletteFrames {
  import opened Bits
  import opened Palettes
  import opened Pictures
  import opened Counting
  import opened PaletteReorder

  /** A frame as the quantiser delivers it: rows padded to multiples of four bytes. */
  datatype Frame = Frame(palette: seq<Rgb>, w: nat, h: nat, data: seq<Byte>) {
    function Stride(): nat { Stride8(w) }

    ghost predicate Valid(ncols: nat) {
      && |palette| == 0x100 && |data| == h * Stride()
      && forall k :: 0 <= k < |data| && InPicture(k, w, Stride()) ==> data[k] < ncols
    }
  }

  /** The place of byte k in its row. */
  function Column(k: nat, stride: nat): nat
    requires stride > 0
  {
    if k < stride then k else Column(k - stride, stride)
  }

  /** Byte k of a bitmap is a pixel, not padding. */
  predicate InPicture(k: nat, w: nat, stride: nat) { stride > 0 && Column(k, stride) < w }

  lemma {:induction false} InRow(k: nat, y: nat, stride: nat)
    requires y * stride <= k < y * stride + stride
    ensures Column(k, stride) == k - y * stride
  {
    if y != 0 {
      Product(y - 1, stride);
      assert (y - 1) * stride == y * stride - stride;
      InRow(k - stride, y - 1, stride);
    }
  }

  /** Every pixel is shown in the colour it has in its own palette. */
  ghost predicate Shows(palette: seq<Rgb>, data: seq<Byte>, f: Frame)
    requires |f.palette| == |palette| == 0x100
  {
    && |data| == |f.data|
    && forall k :: 0 <= k < |data| && InPicture(k, f.w, f.Stride()) ==> palette[data[k]] == f.palette[f.data[k]]
  }

  /** s is `was` with its pixels before position n sent through `slots`. */
  ghost predicate Rewritten(was: seq<Byte>, s: seq<Byte>, slots: seq<nat>, f: Frame, n: nat)
  {
    && |s| == |was|
    && forall k :: 0 <= k < |s| ==>
         if k < n && InPicture(k, f.w, f.Stride()) then was[k] < |slots| && s[k] == slots[was[k]] else s[k] == was[k]
  }

  /** The loop over the pixels of a frame. */
  method RewritePixels(data: array<Byte>, f: Frame, slots: seq<nat>)
    requires f.Valid(|slots|) && data[..] == f.data && forall i :: 0 <= i < |slots| ==> slots[i] < 0x100
    modifies data
    ensures Rewritten(f.data, data[..], slots, f, data.Length)
  {
    var stride, p := f.Stride(), 0;
    assert 0 * stride == 0;
    for y := 0 to f.h
      invariant p == y * stride <= data.Length && Rewritten(f.data, data[..], slots, f, p)
    {
      RowsFit(y, f.h, stride);
      for x := 0 to f.w
        invariant Rewritten(f.data, data[..], slots, f, p + x)
      {
        InRow(p + x, y, stride);
        ghost var s := data[..];
        assert InPicture(p + x, f.w, stride) && s[p + x] == f.data[p + x];
        data[p + x] := slots[data[p + x]];
        assert data[..] == s[p + x := data[p + x]];
        RewriteOne(f.data, s, slots, f, p + x);
      }
      RowDone(f.data, data[..], slots, f, y);
      p := p + stride;
    }
  }

  lemma RewriteOne(was: seq<Byte>, s: seq<Byte>, slots: seq<nat>, f: Frame, k: nat)
    requires Rewritten(was, s, slots, f, k) && k < |was| && InPicture(k, f.w, f.Stride())
    requires was[k] < |slots| && slots[was[k]] < 0x100
    ensures Rewritten(was, s[k := slots[was[k]]], slots, f, k + 1)
  {
    hide InPicture;
  }

  lemma RowDone(was: seq<Byte>, s: seq<Byte>, slots: seq<nat>, f: Frame, y: nat)
    requires Rewritten(was, s, slots, f, y * f.Stride() + f.w)
    ensures Rewritten(was, s, slots, f, y * f.Stride() + f.Stride())
  {
    forall k | y * f.Stride() + f.w <= k < y * f.Stride() + f.Stride() && k < |s|
      ensures !InPicture(k, f.w, f.Stride())
    {
      InRow(k, y, f.Stride());
    }
  }

  // ---- one frame ----

  /** How the slots of a frame are chosen. The colour of rank i was in slot slots[i] and has claimed
      entry claims[i] of the new palette; unless that match is one of the worst, the entry takes over
      the slot. The worst take the extra slots and leave theirs as extra ones. */
  ghost predicate Chosen(before: seq<Rgb>, slots: seq<nat>, palP: seq<Rgb>, was: seq<int>, dists: seq<int>,
                         claims: seq<nat>, slots': seq<nat>)
    requires |before| == |palP| == |claims| <= |slots| == |slots'| && |was| == |dists| >= |palP|
  {
    var ncols := |palP|;
    && Greedy(before, palP, claims) && WorstMarked(was, dists, ncols) && Marked(dists, ncols) == |slots| - ncols
    && forall i :: 0 <= i < ncols ==> SlotChosen(before, slots, palP, was, dists, claims, slots', i)
  }

  ghost predicate SlotChosen(before: seq<Rgb>, slots: seq<nat>, palP: seq<Rgb>, was: seq<int>, dists: seq<int>,
                             claims: seq<nat>, slots': seq<nat>, i: nat)
    requires i < |before| == |palP| == |claims| <= |slots| == |slots'| && |was| == |dists| >= |palP|
  {
    var ncols, j := |palP|, claims[i];
    && j < ncols && was[j] == Dist(before[i], palP[j])
    && if dists[j] == -1 then
         var e := ncols + Marked(dists, j); e < |slots| && slots'[j] == slots[e] && slots'[e] == slots[i]
       else slots'[j] == slots[i]
  }

  lemma {:induction false} SlotsChosen(before: seq<Rgb>, slots: seq<nat>, palP: seq<Rgb>, mapP: seq<nat>, was: seq<int>,
                                       claims: seq<nat>, dists: seq<int>, slots': seq<nat>)
    requires |before| == |palP| == |claims| <= |slots| == |slots'| && |was| == |dists| >= |palP| && |mapP| >= |palP|
    requires Claimed(before, slots[..|palP|], palP, mapP, was, claims)
    requires WorstMarked(was, dists, |palP|) && Marked(dists, |palP|) == |slots| - |palP|
    requires Exchanged(mapP[..|palP|], slots[|palP|..], slots'[..|palP|], slots'[|palP|..], dists, |palP|)
    ensures Chosen(before, slots, palP, was, dists, claims, slots')
  {
    hide Dist, Greedy, Marked, WorstMarked;
    var ncols := |palP|;
    forall i | 0 <= i < ncols
      ensures SlotChosen(before, slots, palP, was, dists, claims, slots', i)
    {
      var j := claims[i];
      assert mapP[..ncols][j] == slots[i];
      assert slots'[..ncols][j] == slots'[j];
    }
  }

  /** The palette of a frame put into the slots of the common palette. */
  method UpdatePalette(palette: array<Rgb>, slots: seq<nat>, palP: seq<Rgb>)
    requires palette.Length == 0x100 && |slots| == |palP| && Distinct(slots) && AllBelow(slots, 0x100)
    modifies palette
    ensures forall i :: 0 <= i < |slots| ==> palette[slots[i]] == palP[i]
    ensures forall k :: 0 <= k < 0x100 && k !in slots ==> palette[k] == old(palette[k])
  {
    for i := 0 to |slots|
      invariant forall k :: 0 <= k < i ==> palette[slots[k]] == palP[k]
      invariant forall k :: 0 <= k < 0x100 && k !in slots ==> palette[k] == old(palette[k])
    {
      palette[slots[i]] := palP[i];
    }
  }

  /** The pixels of `data` are those of the frame, sent through `slots`. */
  ghost predicate InSlots(data: seq<Byte>, f: Frame, slots: seq<nat>) {
    && |data| == |f.data|
    && forall k :: 0 <= k < |data| && InPicture(k, f.w, f.Stride()) ==>
         f.data[k] < |slots| && data[k] == slots[f.data[k]]
  }

  lemma AllInSlots(f: Frame, data: seq<Byte>, slots: seq<nat>)
    requires Rewritten(f.data, data, slots, f, |data|)
    ensures InSlots(data, f, slots)
  {
    hide InPicture;
  }

  lemma AllShown(f: Frame, data: seq<Byte>, slots: seq<nat>, palette: seq<Rgb>)
    requires |f.palette| == |palette| == 0x100 && |slots| <= 0x100 && InSlots(data, f, slots)
    requires forall i :: 0 <= i < |slots| ==> slots[i] < 0x100 && palette[slots[i]] == f.palette[i]
    ensures Shows(palette, data, f)
  {
    hide InPicture;
  }

  lemma FirstPart(s: seq<nat>, part: seq<nat>, n: nat)
    requires Permutation(s, n) && part <= s && n <= 0x100
    ensures Distinct(part) && AllBelow(part, 0x100) && forall i :: 0 <= i < |part| ==> part[i] < 0x100
  {
  }

  function FirstColours(f: Frame, ncols: nat): (cs: seq<Rgb>)
    requires f.Valid(ncols) && ncols <= 0x100
    ensures |f.palette| == 0x100 && cs == f.palette[..ncols]
  {
    f.palette[..ncols]
  }

  /** Claiming, and exchanging the worst matches with the extra slots. */
  method ChooseSlots(palette: seq<Rgb>, slotMap: array<nat>, ncols: nat, ncolsextra: nat, palP: seq<Rgb>)
    returns (mapP: array<nat>, ghost was: seq<int>, ghost dists: seq<int>, ghost claims: seq<nat>)
    requires |palette| == slotMap.Length == 0x100 && |palP| == ncols && ncolsextra <= ncols &&
             ncols + ncolsextra <= 0x100
    requires Permutation(slotMap[..ncols + ncolsextra], ncols + ncolsextra)
    modifies slotMap
    ensures fresh(mapP) && mapP.Length == 0x100 && slotMap[..ncols] == old(slotMap[..ncols])
    ensures |claims| == ncols && |was| == |dists| == 0x100 && AllBelow(slotMap[..ncols], 0x100)
    ensures var slots' := mapP[..ncols] + slotMap[ncols..ncols + ncolsextra];
            && Permutation(slots', ncols + ncolsextra)
            && Chosen(Through(palette, slotMap[..ncols]), old(slotMap[..ncols + ncolsextra]), palP, was, dists,
              claims, slots')
  {
    hide Permutation, Distinct, Claimed, Exchanged, Marked, WorstMarked, Greedy, Chosen, Through;
    ghost var n := ncols + ncolsextra;
    ghost var slots := slotMap[..n];
    FirstPart(slots, slotMap[..ncols], n);
    ghost var before := Through(palette, slotMap[..ncols]);
    var distances := new int[0x100];
    mapP := new nat[0x100];
    claims := CalcMapP(palette, slotMap[..ncols], palP, mapP, distances);
    ghost var m := mapP[..];
    was := distances[..];
    assert slots == slotMap[..ncols] + slotMap[ncols..n];
    assert slots[..ncols] == slotMap[..ncols] && slots[ncols..] == slotMap[ncols..n];
    ClaimedPermutes(before, slotMap[..ncols], palP, m, was, claims, slotMap[ncols..n]);
    MarkWorst(distances, ncols, ncolsextra);
    dists := distances[..];
    SwapExtras(mapP, slotMap, distances, ncols, ncolsextra);
    ghost var e, slotsP := slotMap[ncols..n], mapP[..ncols];
    assert (slotsP + e)[..ncols] == slotsP && (slotsP + e)[ncols..] == e;
    SlotsChosen(before, slots, palP, m, was, claims, dists, slotsP + e);
  }

  /** memcpy of the map. */
  method CopySlots(slotMap: array<nat>, mapP: array<nat>, ncols: nat)
    requires slotMap != mapP && ncols <= slotMap.Length && ncols <= mapP.Length
    modifies slotMap
    ensures forall k :: 0 <= k < slotMap.Length ==> slotMap[k] == if k < ncols then mapP[k] else old(slotMap[k])
  {
    for i := 0 to ncols
      invariant forall k :: 0 <= k < slotMap.Length ==> slotMap[k] == if k < i then mapP[k] else old(slotMap[k])
    {
      slotMap[i] := mapP[i];
    }
  }

  /** The body of the frame loop of ro_map. */
  method NextFrame(palette: array<Rgb>, slotMap: array<nat>, ncols: nat, ncolsextra: nat, f: Frame, data: array<Byte>)
    returns (ghost was: seq<int>, ghost dists: seq<int>, ghost claims: seq<nat>)
    requires palette.Length == slotMap.Length == 0x100 && ncolsextra <= ncols && ncols + ncolsextra <= 0x100
    requires Permutation(slotMap[..ncols + ncolsextra], ncols + ncolsextra)
    requires f.Valid(ncols) && data[..] == f.data
    modifies palette, slotMap, data
    ensures var n := ncols + ncolsextra;
            && Permutation(slotMap[..n], n)
            && (forall k :: 0 <= k < 0x100 && k !in slotMap[..ncols] ==> palette[k] == old(palette[k]))
            && (forall i :: 0 <= i < ncols ==> slotMap[i] < 0x100 && palette[slotMap[i]] == f.palette[i])
            && InSlots(data[..], f, slotMap[..ncols]) && Shows(palette[..], data[..], f)
    ensures |claims| == ncols && |was| == |dists| == 0x100
    ensures AllBelow(old(slotMap[..ncols]), 0x100)
    ensures Chosen(Through(old(palette[..]), old(slotMap[..ncols])), old(slotMap[..ncols + ncolsextra]),
                   f.palette[..ncols], was, dists, claims, slotMap[..ncols + ncolsextra])
  {
    hide Permutation, Distinct, Chosen, Through, Shows, Rewritten, InSlots, Frame.Valid;
    ghost var n := ncols + ncolsextra;
    var palP := FirstColours(f, ncols);
    var mapP;
    FirstPart(slotMap[..n], slotMap[..ncols], n);
    mapP, was, dists, claims := ChooseSlots(palette[..], slotMap, ncols, ncolsextra, palP);
    ghost var e, slotsP := slotMap[ncols..n], mapP[..ncols];
    FirstPart(slotsP + e, slotsP, n);
    UpdatePalette(palette, mapP[..ncols], palP);
    RewritePixels(data, f, mapP[..ncols]);
    assert |data[..]| == data.Length;
    AllInSlots(f, data[..], slotsP);
    AllShown(f, data[..], slotsP, palette[..]);
    CopySlots(slotMap, mapP, ncols);
    assert slotMap[..ncols] == slotsP && slotMap[ncols..n] == e;
    assert slotMap[..n] == slotMap[..ncols] + slotMap[ncols..n];
  }

  // ---- all frames ----

  ghost predicate SamePicture(g: Frame, f: Frame) {
    g.w == f.w && g.h == f.h && |g.palette| == |f.palette| == 0x100 && Shows(g.palette, g.data, f)
  }

  /** If a frame has the colours of the last one, in whatever order, the picture `data` written for the
      last one still looks the same with the palette written for this one. */
  ghost predicate Steady(last: Frame, data: seq<Byte>, f: Frame, palette: seq<Rgb>, ncols: nat) {
    && |last.palette| == |f.palette| == |palette| == 0x100 && ncols <= 0x100
    && (multiset(f.palette[..ncols]) == multiset(last.palette[..ncols]) ==> Shows(palette, data, last))
  }

  ghost predicate SteadyAt(frames: seq<Frame>, written: seq<Frame>, ncols: nat, i: nat) {
    0 < i < |frames| && i < |written| ==>
      Steady(frames[i - 1], written[i - 1].data, frames[i], written[i].palette, ncols)
  }

  /** How the slots of one frame follow from those of the frame before: exactly the worst matches, as many
      as there are extra slots, exchange their slots with the extra ones. Slots the frame has not been
      given keep their colours. */
  ghost predicate NextSlots(palette: seq<Rgb>, slots: seq<nat>, f: Frame, slots': seq<nat>, palette': seq<Rgb>,
                            ncols: nat)
  {
    && |palette| == |palette'| == |f.palette| == 0x100 && ncols <= |slots| == |slots'| <= 0x100
    && AllBelow(slots, 0x100)
    && (forall k :: 0 <= k < 0x100 && k !in slots'[..ncols] ==> palette'[k] == palette[k])
    && exists was, dists, claims :: ChosenAs(palette, slots, f.palette[..ncols], slots', was, dists, claims)
  }

  ghost predicate ChosenAs(palette: seq<Rgb>, slots: seq<nat>, palP: seq<Rgb>, slots': seq<nat>, was: seq<int>,
                           dists: seq<int>, claims: seq<nat>)
    requires |palette| == 0x100 && |palP| <= |slots| == |slots'| && AllBelow(slots, 0x100)
  {
    && |was| == |dists| == 0x100 >= |palP| == |claims|
    && Chosen(Through(palette, slots[..|palP|]), slots, palP, was, dists, claims, slots')
  }

  /** The slots of frame i, first those of its entries and then the extra ones: at first the entries are
      in order, and each later frame is given slots by NextSlots. Every pixel is the slot of its entry. */
  ghost predicate CourseAt(frames: seq<Frame>, written: seq<Frame>, maps: seq<seq<nat>>, ncols: nat, ncolsextra: nat,
                           i: nat)
  {
    i < |frames| && i < |written| && i < |maps| ==>
      var f, g, slots := frames[i], written[i], maps[i];
      && Permutation(slots, ncols + ncolsextra) && |g.palette| == |f.palette| == 0x100 && ncols + ncolsextra <= 0x100
      && (forall k :: 0 <= k < ncols ==> g.palette[slots[k]] == f.palette[k])
      && InSlots(g.data, f, slots[..ncols])
      && if i == 0 then forall k :: 0 <= k < |slots| ==> slots[k] == k
         else NextSlots(written[i - 1].palette, maps[i - 1], f, slots, g.palette, ncols)
  }

  /** ro_map: every frame is written with the colours of its own palette, the entries that match worst
      use the extra slots, and a still picture does not flicker. */
  method RoMap(frames: seq<Frame>, ncols: nat, ncolsextra: nat)
    returns (written: seq<Frame>, ghost maps: seq<seq<nat>>)
    requires ncolsextra <= ncols && ncols + ncolsextra <= 0x100
    requires forall i :: 0 <= i < |frames| ==> frames[i].Valid(ncols)
    ensures |written| == |frames| == |maps|
    ensures forall i :: 0 <= i < |frames| ==> SamePicture(written[i], frames[i])
    ensures forall i: nat :: CourseAt(frames, written, maps, ncols, ncolsextra, i)
    ensures forall i: nat :: SteadyAt(frames, written, ncols, i)
  {
    hide Shows, Permutation, Chosen, InSlots, SteadyAt, Steady, Through, CourseAt, NextSlots;
    written, maps := [], [];
    forall i: nat
      ensures SteadyAt(frames, [], ncols, i) && CourseAt(frames, [], [], ncols, ncolsextra, i)
    {
      NotSteady(frames, [], ncols, i);
      NoCourse(frames, [], [], ncols, ncolsextra, i);
    }
    if |frames| == 0 {
      return;
    }
    var palette := new Rgb[0x100](i requires 0 <= i < 0x100 => frames[0].palette[i]);
    var slotMap := new nat[0x100];
    assert palette[..] == frames[0].palette;
    for i := 0 to ncols + ncolsextra
      modifies slotMap
      invariant forall k :: 0 <= k < i ==> slotMap[k] == k
    {
      slotMap[i] := i;
    }
    SameColours(frames[0]);
    InOrder(slotMap[..ncols + ncolsextra]);
    OwnSlots(frames[0], slotMap[..ncols]);
    written, maps := [frames[0]], [slotMap[..ncols + ncolsextra]];
    assert maps[0][..ncols] == slotMap[..ncols];
    NotSteady(frames, written, ncols, 0);
    FirstCourse(frames, written, maps, ncols, ncolsextra);
    for i := 1 to |frames|
      invariant |written| == i && Permutation(slotMap[..ncols + ncolsextra], ncols + ncolsextra)
      invariant forall k :: 0 <= k < i ==> SamePicture(written[k], frames[k])
      invariant forall k :: 0 <= k < ncols ==> slotMap[k] < 0x100 && palette[slotMap[k]] == frames[i - 1].palette[k]
      invariant InSlots(written[i - 1].data, frames[i - 1], slotMap[..ncols])
      invariant forall k: nat :: k < i ==> SteadyAt(frames, written, ncols, k)
      invariant |maps| == i && maps[i - 1] == slotMap[..ncols + ncolsextra] && written[i - 1].palette == palette[..]
      invariant forall k: nat :: k < i ==> CourseAt(frames, written, maps, ncols, ncolsextra, k)
    {
      var f, last := frames[i], frames[i - 1];
      var data := new Byte[|f.data|](k requires 0 <= k < |f.data| => f.data[k]);
      assert data[..] == f.data;
      ghost var shown, slots := palette[..], slotMap[..ncols + ncolsextra];
      assert slots[..ncols] == slotMap[..ncols];
      ghost var was, dists, claims := NextFrame(palette, slotMap, ncols, ncolsextra, f, data);
      ghost var picture, colours := written[i - 1].data, palette[..];
      StaysSteady(last, picture, f, shown, slots, was, dists, claims, slotMap[..ncols + ncolsextra], colours, ncols);
      SteadyMore(frames, written, Frame(colours, f.w, f.h, data[..]), ncols);
      ghost var g, slots' := Frame(colours, f.w, f.h, data[..]), slotMap[..ncols + ncolsextra];
      assert slots'[..ncols] == slotMap[..ncols];
      IsNext(shown, slots, f, slots', colours, ncols, was, dists, claims);
      CourseMore(frames, written, maps, ncols, ncolsextra, g, slots');
      written, maps := written + [Frame(palette[..], f.w, f.h, data[..])], maps + [slots'];
    }
    forall i: nat
      ensures SteadyAt(frames, written, ncols, i) && CourseAt(frames, written, maps, ncols, ncolsextra, i)
    {
      NotSteady(frames, written, ncols, i);
      NoCourse(frames, written, maps, ncols, ncolsextra, i);
    }
  }

  lemma NoCourse(frames: seq<Frame>, written: seq<Frame>, maps: seq<seq<nat>>, ncols: nat, ncolsextra: nat, i: nat)
    ensures i >= |frames| || i >= |written| ==> CourseAt(frames, written, maps, ncols, ncolsextra, i)
  {
  }

  lemma FirstCourse(frames: seq<Frame>, written: seq<Frame>, maps: seq<seq<nat>>, ncols: nat, ncolsextra: nat)
    requires |written| == |maps| == 1 <= |frames| && written[0] == frames[0] && frames[0].Valid(ncols)
    requires ncols + ncolsextra <= 0x100 && Permutation(maps[0], ncols + ncolsextra)
    requires forall k :: 0 <= k < |maps[0]| ==> maps[0][k] == k
    requires InSlots(frames[0].data, frames[0], maps[0][..ncols])
    ensures CourseAt(frames, written, maps, ncols, ncolsextra, 0)
  {
    hide InSlots;
  }

  lemma IsNext(palette: seq<Rgb>, slots: seq<nat>, f: Frame, slots': seq<nat>, palette': seq<Rgb>, ncols: nat,
               was: seq<int>, dists: seq<int>, claims: seq<nat>)
    requires |palette| == |palette'| == |f.palette| == 0x100 && ncols <= |slots| == |slots'| <= 0x100
    requires Permutation(slots, |slots|) && |was| == |dists| == 0x100 && |claims| == ncols
    requires forall k :: 0 <= k < 0x100 && k !in slots'[..ncols] ==> palette'[k] == palette[k]
    requires AllBelow(slots[..ncols], 0x100)
    requires Chosen(Through(palette, slots[..ncols]), slots, f.palette[..ncols], was, dists, claims, slots')
    ensures NextSlots(palette, slots, f, slots', palette', ncols)
  {
    hide Chosen;
    assert ChosenAs(palette, slots, f.palette[..ncols], slots', was, dists, claims);
  }

  lemma CourseMore(frames: seq<Frame>, written: seq<Frame>, maps: seq<seq<nat>>, ncols: nat, ncolsextra: nat, g: Frame,
                   slots: seq<nat>)
    requires 0 < |written| == |maps| < |frames| && ncols + ncolsextra <= 0x100
    requires forall k: nat :: k < |written| ==> CourseAt(frames, written, maps, ncols, ncolsextra, k)
    requires var i := |written|; var f := frames[i];
             && Permutation(slots, ncols + ncolsextra) && |g.palette| == |f.palette| == 0x100
             && (forall k :: 0 <= k < ncols ==> slots[k] < 0x100 && g.palette[slots[k]] == f.palette[k])
             && InSlots(g.data, f, slots[..ncols])
             && NextSlots(written[i - 1].palette, maps[i - 1], f, slots, g.palette, ncols)
    ensures forall k: nat :: k <= |written| ==> CourseAt(frames, written + [g], maps + [slots], ncols, ncolsextra, k)
  {
    hide NextSlots, InSlots;
    forall k: nat | k <= |written|
      ensures CourseAt(frames, written + [g], maps + [slots], ncols, ncolsextra, k)
    {
      assert k < |written| ==> CourseAt(frames, written, maps, ncols, ncolsextra, k);
    }
  }

  // ---- what the extra slots are for ----

  lemma {:induction false} MarkedAt(dists: seq<int>, n: nat, q: nat) returns (j: nat)
    requires n <= |dists| && q < Marked(dists, n)
    ensures j < n && dists[j] == -1 && Marked(dists, j) == q
  {
    if dists[n - 1] == -1 && Marked(dists, n - 1) == q {
      j := n - 1;
    } else {
      j := MarkedAt(dists, n - 1, q);
    }
  }

  /** With every frame all the extra slots come into use: each extra slot afterwards held a colour of the
      frame before, and still holds it. */
  lemma ExtrasRotate(frames: seq<Frame>, written: seq<Frame>, maps: seq<seq<nat>>, ncols: nat, ncolsextra: nat, i: nat,
                     e: nat)
    requires 0 < i < |frames| == |written| == |maps| && ncols <= e < ncols + ncolsextra <= 0x100
    requires CourseAt(frames, written, maps, ncols, ncolsextra, i - 1)
    requires CourseAt(frames, written, maps, ncols, ncolsextra, i)
    ensures |maps[i]| == |maps[i - 1]| == ncols + ncolsextra
    ensures maps[i][e] in maps[i - 1][..ncols] && maps[i][e] !in maps[i][..ncols] && maps[i][e] < 0x100
    ensures |written[i - 1].palette| == |written[i].palette| == 0x100
    ensures written[i].palette[maps[i][e]] == written[i - 1].palette[maps[i][e]]
  {
    hide InSlots, Greedy, WorstMarked, Dist;
    var f, slots, slots' := frames[i], maps[i - 1], maps[i];
    var was, dists, claims :| ChosenAs(written[i - 1].palette, slots, f.palette[..ncols], slots', was, dists, claims);
    var j := MarkedAt(dists, ncols, e - ncols);
    GreedyDistinct(Through(written[i - 1].palette, slots[..ncols]), f.palette[..ncols], claims);
    NoneUnused(claims, ncols, j);
    var k :| 0 <= k < ncols && claims[k] == j;
    assert SlotChosen(Through(written[i - 1].palette, slots[..ncols]), slots, f.palette[..ncols], was, dists, claims,
                      slots', k);
    assert slots[..ncols][k] == slots'[e];
  }

  lemma NotSteady(frames: seq<Frame>, written: seq<Frame>, ncols: nat, i: nat)
    ensures i == 0 || i >= |frames| || i >= |written| ==> SteadyAt(frames, written, ncols, i)
  {
  }

  lemma SteadyMore(frames: seq<Frame>, written: seq<Frame>, g: Frame, ncols: nat)
    requires 0 < |written| < |frames| && forall k: nat :: k < |written| ==> SteadyAt(frames, written, ncols, k)
    requires var i := |written|; Steady(frames[i - 1], written[i - 1].data, frames[i], g.palette, ncols)
    ensures forall k: nat :: k <= |written| ==> SteadyAt(frames, written + [g], ncols, k)
  {
    hide Steady;
    forall k: nat | k <= |written|
      ensures SteadyAt(frames, written + [g], ncols, k)
    {
      assert k < |written| ==> SteadyAt(frames, written, ncols, k);
    }
  }

  lemma StaysSteady(last: Frame, data: seq<Byte>, f: Frame, palette: seq<Rgb>, slots: seq<nat>,
                     was: seq<int>, dists: seq<int>, claims: seq<nat>, slots': seq<nat>,
                     palette': seq<Rgb>, ncols: nat)
    requires |last.palette| == |f.palette| == |palette| == |palette'| == 0x100
    requires ncols == |claims| <= |slots| == |slots'| <= 0x100 && |was| == |dists| == 0x100
    requires Permutation(slots, |slots|) && Permutation(slots', |slots'|) && InSlots(data, last, slots[..ncols])
    requires forall i :: 0 <= i < ncols ==> palette[slots[i]] == last.palette[i]
    requires Chosen(Through(palette, slots[..ncols]), slots, f.palette[..ncols], was, dists, claims, slots')
    requires forall i :: 0 <= i < ncols ==> palette'[slots'[i]] == f.palette[i]
    requires forall k :: 0 <= k < 0x100 && k !in slots'[..ncols] ==> palette'[k] == palette[k]
    ensures Steady(last, data, f, palette', ncols)
  {
    hide InSlots, Chosen, Shows;
    if multiset(f.palette[..ncols]) == multiset(last.palette[..ncols]) {
      assert Through(palette, slots[..ncols]) == last.palette[..ncols];
      StillFrame(palette, slots, f.palette[..ncols], was, dists, claims, slots', palette');
      AllShown(last, data, slots[..ncols], palette');
    }
  }

  /** With as many extra slots as colours no picture ever flickers: the one written before looks the same
      with the new palette, whatever the new frame is. */
  lemma NeverFlickers(frames: seq<Frame>, written: seq<Frame>, maps: seq<seq<nat>>, ncols: nat, i: nat)
    requires 0 < i < |frames| == |written| == |maps| && ncols + ncols <= 0x100
    requires CourseAt(frames, written, maps, ncols, ncols, i - 1) && CourseAt(frames, written, maps, ncols, ncols, i)
    ensures |frames[i - 1].palette| == |written[i].palette| == 0x100
    ensures Shows(written[i].palette, written[i - 1].data, frames[i - 1])
  {
    hide InSlots, NextSlots, Shows;
    var last, slots, slots' := frames[i - 1], maps[i - 1], maps[i];
    var extra := slots'[ncols..];
    forall e | 0 <= e < |extra|
      ensures extra[e] in slots[..ncols]
      ensures written[i].palette[extra[e]] == written[i - 1].palette[extra[e]]
    {
      ExtrasRotate(frames, written, maps, ncols, ncols, i, ncols + e);
    }
    forall k | 0 <= k < ncols
      ensures written[i].palette[slots[k]] == last.palette[k]
    {
      AllTaken(slots[..ncols], extra, slots[k]);
      var e :| 0 <= e < |extra| && extra[e] == slots[k];
    }
    AllShown(last, written[i - 1].data, slots[..ncols], written[i].palette);
  }

  /** As many distinct elements as a list has, all from that list, are all of it. */
  lemma AllTaken(s: seq<nat>, part: seq<nat>, x: nat)
    requires Distinct(part) && |part| == |s| && x in s && forall e :: 0 <= e < |part| ==> part[e] in s
    ensures x in part
  {
    if x !in part {
      DistinctIn(part + [x], Elements(s));
    }
  }

  lemma OwnSlots(f: Frame, slots: seq<nat>)
    requires f.Valid(|slots|) && forall k :: 0 <= k < |slots| ==> slots[k] == k
    ensures InSlots(f.data, f, slots)
  {
    hide InPicture;
  }

  lemma SameColours(f: Frame)
    requires |f.palette| == 0x100
    ensures Shows(f.palette, f.data, f)
  {
  }

  lemma InOrder(s: seq<nat>)
    requires forall k :: 0 <= k < |s| ==> s[k] == k
    ensures Permutation(s, |s|)
  {
  }

  // ---- a still picture does not flicker ----

  /** The places of colour c among the first n, in order. */
  function Where(cs: seq<Rgb>, c: Rgb, n: nat): (ks: seq<nat>)
    requires n <= |cs|
    ensures forall i :: 0 <= i < |ks| ==> ks[i] < n && cs[ks[i]] == c
    ensures forall k: nat :: k < n && cs[k] == c ==> k in ks
    ensures Distinct(ks)
  {
    if n == 0 then [] else Where(cs, c, n - 1) + if cs[n - 1] == c then [n - 1] else []
  }

  lemma {:induction false} WhereCounts(cs: seq<Rgb>, c: Rgb, n: nat)
    requires n <= |cs|
    ensures |Where(cs, c, n)| == multiset(cs[..n])[c]
  {
    if n > 0 {
      WhereCounts(cs, c, n - 1);
      assert cs[..n] == cs[..n - 1] + [cs[n - 1]];
    }
  }

  lemma {:induction false} WhereGrows(cs: seq<Rgb>, c: Rgb, m: nat, n: nat)
    requires m <= n <= |cs|
    ensures |Where(cs, c, m)| <= |Where(cs, c, n)|
  {
    if m < n {
      WhereGrows(cs, c, m, n - 1);
    }
  }

  /** Every old colour has claimed an equal one. */
  ghost predicate EqualClaims(cs: seq<Rgb>, palP: seq<Rgb>, claims: seq<nat>) {
    && |claims| <= |cs|
    && forall i :: 0 <= i < |claims| ==> claims[i] < |palP| && palP[claims[i]] == cs[i]
  }

  /** If the new palette holds the old colours in some order, a colour whose rank has come still has
      an unclaimed equal. */
  lemma EqualIsFree(cs: seq<Rgb>, palP: seq<Rgb>, claims: seq<nat>)
    requires multiset(cs) == multiset(palP) && |claims| < |cs| && EqualClaims(cs, palP, claims)
    ensures exists j: nat :: j < |palP| && palP[j] == cs[|claims|] && j !in claims
  {
    var i := |claims|;
    var c := cs[i];
    var equal, ms := Where(palP, c, |palP|), Where(cs, c, i);
    var used := Through(claims, ms);
    SameCount(cs, palP, c);
    WhereGrows(cs, c, i + 1, |cs|);
    assert |equal| > |used|;
    DistinctSize(equal);
    forall k: nat | k < i && cs[k] == c
      ensures claims[k] in used
    {
      assert k in ms;
      var b :| 0 <= b < |ms| && ms[b] == k;
      assert used[b] == claims[k];
    }
    if Elements(equal) <= Elements(used) {
      SubsetSize(Elements(equal), Elements(used));
      assert false;
    }
    var j :| j in Elements(equal) && j !in Elements(used);
    var a :| 0 <= a < |equal| && equal[a] == j;
    assert palP[j] == c;
  }

  lemma {:induction false} SameCount(cs: seq<Rgb>, palP: seq<Rgb>, c: Rgb)
    requires multiset(cs) == multiset(palP)
    ensures |Where(cs, c, |cs|)| == |Where(palP, c, |palP|)|
  {
    WhereCounts(cs, c, |cs|);
    WhereCounts(palP, c, |palP|);
    assert cs[..|cs|] == cs && palP[..|palP|] == palP;
  }

  /** Then every old colour claims an equal one. */
  lemma {:induction false} StillClaims(cs: seq<Rgb>, palP: seq<Rgb>, claims: seq<nat>, n: nat)
    requires |cs| == |palP| == |claims| && multiset(cs) == multiset(palP) && n <= |cs| && Greedy(cs, palP, claims)
    ensures EqualClaims(cs, palP, claims[..n])
  {
    hide Dist;
    if n > 0 {
      var i := n - 1;
      StillClaims(cs, palP, claims, i);
      EqualIsFree(cs, palP, claims[..i]);
      var j: nat :| j < |palP| && palP[j] == cs[i] && j !in claims[..i];
      assert NearestUnclaimed(cs[i], palP, claims[..i], claims[i]);
      NoDistance(cs[i], palP[j]);
      NoDistance(cs[i], palP[claims[i]]);
      DistBound(cs[i], palP[claims[i]]);
    }
  }

  /** A frame with the colours of the one before leaves them all in their slots: a good match takes over
      its slot with an equal colour, and the slot of a bad one is left alone. */
  lemma StillFrame(palette: seq<Rgb>, slots: seq<nat>, palP: seq<Rgb>, was: seq<int>,
                    dists: seq<int>, claims: seq<nat>, slots': seq<nat>, palette': seq<Rgb>)
    requires |palette| == |palette'| == 0x100 && |palP| == |claims| <= |slots| == |slots'| <= 0x100
    requires |was| == |dists| >= |palP| && AllBelow(slots, |slots|) && Permutation(slots', |slots'|)
    requires var before := Through(palette, slots[..|palP|]);
             Chosen(before, slots, palP, was, dists, claims, slots') && multiset(before) == multiset(palP)
    requires forall i :: 0 <= i < |palP| ==> palette'[slots'[i]] == palP[i]
    requires forall k :: 0 <= k < 0x100 && k !in slots'[..|palP|] ==> palette'[k] == palette[k]
    ensures forall i :: 0 <= i < |palP| ==> palette'[slots[i]] == palette[slots[i]]
  {
    hide Dist, Greedy;
    var ncols, before := |palP|, Through(palette, slots[..|palP|]);
    StillClaims(before, palP, claims, ncols);
    assert claims[..ncols] == claims;
    forall i | 0 <= i < ncols
      ensures palette'[slots[i]] == palette[slots[i]]
    {
      assert SlotChosen(before, slots, palP, was, dists, claims, slots', i);
      var j := claims[i];
      if dists[j] == -1 {
        var e := ncols + Marked(dists, j);
        assert slots'[e] == slots[i];
        assert forall k :: 0 <= k < ncols ==> slots'[..ncols][k] == slots'[k];
      }
    }
  }
}
