/** Reordering of palettes from frame to frame, as ro_map of gbmcpal.c does it. */
module PaletteReorder {
  import opened Palettes
  import opened Counting

  const UNCLAIMED := 0xffff

  // ---- claiming ----

  /** Among the entries of `palP` not in `claimed`, entry j is nearest to c, the first of those as near. */
  ghost predicate NearestUnclaimed(c: Rgb, palP: seq<Rgb>, claimed: seq<nat>, j: nat) {
    && j < |palP| && j !in claimed
    && forall k: nat :: k < |palP| && k !in claimed ==>
         Dist(c, palP[j]) + (if k < j then 1 else 0) <= Dist(c, palP[k])
  }

  /** Old colours, the most used first, have claimed entries of the new palette one after the other. */
  ghost predicate Greedy(before: seq<Rgb>, palP: seq<Rgb>, claims: seq<nat>) {
    |claims| <= |before| && forall i :: 0 <= i < |claims| ==> NearestUnclaimed(before[i], palP, claims[..i], claims[i])
  }

  /** The colour of rank i gets the nearest entry that none before it has claimed. */
  lemma ClaimIsNearest(before: seq<Rgb>, palP: seq<Rgb>, claims: seq<nat>, i: nat, k: nat)
    requires Greedy(before, palP, claims) && i < |claims| && k < |palP| && k !in claims[..i]
    ensures claims[i] < |palP| && claims[i] !in claims[..i]
    ensures Dist(before[i], palP[claims[i]]) <= Dist(before[i], palP[k])
    ensures Dist(before[i], palP[claims[i]]) == Dist(before[i], palP[k]) ==> claims[i] <= k
  {
    assert NearestUnclaimed(before[i], palP, claims[..i], claims[i]);
  }

  lemma GreedyDistinct(before: seq<Rgb>, palP: seq<Rgb>, claims: seq<nat>)
    requires Greedy(before, palP, claims)
    ensures Distinct(claims) && AllBelow(claims, |palP|)
  {
    forall i, j | 0 <= i < j < |claims|
      ensures claims[i] != claims[j]
    {
      assert NearestUnclaimed(before[j], palP, claims[..j], claims[j]);
      assert claims[..j][i] == claims[i];
    }
    forall i | 0 <= i < |claims|
      ensures claims[i] < |palP|
    {
      assert NearestUnclaimed(before[i], palP, claims[..i], claims[i]);
    }
  }

  lemma GreedyMore(before: seq<Rgb>, palP: seq<Rgb>, claims: seq<nat>, j: nat)
    requires Greedy(before, palP, claims) && |claims| < |before|
    requires NearestUnclaimed(before[|claims|], palP, claims, j)
    ensures Greedy(before, palP, claims + [j])
  {
    var claims' := claims + [j];
    forall i | 0 <= i < |claims'|
      ensures NearestUnclaimed(before[i], palP, claims'[..i], claims'[i])
    {
      if i < |claims| {
        assert claims'[..i] == claims[..i];
        assert NearestUnclaimed(before[i], palP, claims[..i], claims[i]);
      } else {
        assert claims'[..i] == claims;
      }
    }
  }

  /** The inner loop of calc_mapP; the first ncols entries of mapP say what is claimed. */
  method NearestFree(c: Rgb, palP: seq<Rgb>, mapP: array<nat>, ghost claims: seq<nat>) returns (minJ: nat, minDist: nat)
    requires |palP| <= mapP.Length && |claims| < |palP|
    requires forall j: nat :: j < |palP| ==> (mapP[j] == UNCLAIMED <==> j !in claims)
    ensures NearestUnclaimed(c, palP, claims, minJ) && minDist == Dist(c, palP[minJ])
  {
    hide Dist;
    SomeUnused(claims, |palP|);
    ghost var free: nat :| free < |palP| && free !in claims;
    minJ, minDist := 0, 255 * 255 * 3 + 1;
    for j := 0 to |palP|
      invariant if minDist == 255 * 255 * 3 + 1 then j <= free
                else minJ < j && minJ !in claims && minDist == Dist(c, palP[minJ])
      invariant forall k: nat :: k < j && k !in claims ==>
                  minDist + (if k < minJ then 1 else 0) <= Dist(c, palP[k])
    {
      DistBound(c, palP[j]);
      var dist := Dist(c, palP[j]);
      if dist < minDist && mapP[j] == UNCLAIMED {
        minJ, minDist := j, dist;
      }
    }
  }

  /** What calc_mapP computes: `claims` says in which order the entries were claimed. */
  ghost predicate Claimed(before: seq<Rgb>, slots: seq<nat>, palP: seq<Rgb>, mapP: seq<nat>, dists: seq<int>,
                          claims: seq<nat>)
    requires |before| == |slots| && |mapP| >= |palP| && |dists| >= |palP|
  {
    && Greedy(before, palP, claims)
    && (forall i :: 0 <= i < |claims| ==>
          claims[i] < |palP| && mapP[claims[i]] == slots[i] && dists[claims[i]] == Dist(before[i], palP[claims[i]]))
    && (forall j: nat :: j < |palP| ==> (mapP[j] == UNCLAIMED <==> j !in claims))
  }

  /** The elements of s at the given places, such as the colours in the slots of a map. */
  function Through<T>(s: seq<T>, at: seq<nat>): (r: seq<T>)
    requires forall i :: 0 <= i < |at| ==> at[i] < |s|
    ensures |r| == |at| && forall i :: 0 <= i < |at| ==> r[i] == s[at[i]]
  {
    seq(|at|, (i: int) requires 0 <= i < |at| => s[at[i]])
  }

  /** calc_mapP. */
  method CalcMapP(palette: seq<Rgb>, slots: seq<nat>, palP: seq<Rgb>, mapP: array<nat>, dists: array<int>)
    returns (ghost claims: seq<nat>)
    requires |slots| == |palP| <= 0x100 == |palette| && mapP.Length == dists.Length == 0x100
    requires forall i :: 0 <= i < |slots| ==> slots[i] < 0x100
    modifies mapP, dists
    ensures Claimed(Through(palette, slots), slots, palP, mapP[..], dists[..], claims) && |claims| == |palP|
  {
    hide Dist, Greedy, NearestUnclaimed, Claimed;
    var ncols := |slots|;
    ghost var before := Through(palette, slots);
    for i := 0 to ncols
      invariant forall j :: 0 <= j < i ==> mapP[j] == UNCLAIMED
    {
      mapP[i] := UNCLAIMED;
    }
    claims := [];
    NothingClaimed(before, slots, palP, mapP[..], dists[..]);
    for i := 0 to ncols
      invariant |claims| == i && Claimed(before, slots, palP, mapP[..], dists[..], claims)
    {
      FreeIsUnclaimed(before, slots, palP, mapP[..], dists[..], claims);
      var minJ, minDist := NearestFree(palette[slots[i]], palP, mapP, claims);
      ghost var m, d := mapP[..], dists[..];
      IsBelow(palette[slots[i]], palP, claims, minJ);
      dists[minJ] := minDist;
      mapP[minJ] := slots[i];
      ClaimMore(before, slots, palP, m, d, claims, minJ, minDist);
      assert mapP[..] == m[minJ := slots[i]] && dists[..] == d[minJ := minDist];
      claims := claims + [minJ];
    }
  }

  lemma NothingClaimed(before: seq<Rgb>, slots: seq<nat>, palP: seq<Rgb>, mapP: seq<nat>,
                        dists: seq<int>)
    requires |before| == |slots| && |mapP| >= |palP| && |dists| >= |palP|
    requires forall j :: 0 <= j < |palP| ==> mapP[j] == UNCLAIMED
    ensures Claimed(before, slots, palP, mapP, dists, [])
  {
  }

  lemma FreeIsUnclaimed(before: seq<Rgb>, slots: seq<nat>, palP: seq<Rgb>, mapP: seq<nat>,
                         dists: seq<int>, claims: seq<nat>)
    requires |before| == |slots| && |mapP| >= |palP| && |dists| >= |palP|
    requires Claimed(before, slots, palP, mapP, dists, claims)
    ensures forall j: nat :: j < |palP| ==> (mapP[j] == UNCLAIMED <==> j !in claims)
  {
  }

  lemma IsBelow(c: Rgb, palP: seq<Rgb>, claims: seq<nat>, j: nat)
    requires NearestUnclaimed(c, palP, claims, j)
    ensures j < |palP|
  {
  }

  lemma ClaimMore(before: seq<Rgb>, slots: seq<nat>, palP: seq<Rgb>, mapP: seq<nat>, dists: seq<int>,
                   claims: seq<nat>, j: nat, d: nat)
    requires |before| == |slots| && |mapP| >= |palP| && |dists| >= |palP|
    requires Claimed(before, slots, palP, mapP, dists, claims) && |claims| < |slots|
    requires NearestUnclaimed(before[|claims|], palP, claims, j) && d == Dist(before[|claims|], palP[j])
    requires slots[|claims|] != UNCLAIMED
    ensures Claimed(before, slots, palP, mapP[j := slots[|claims|]], dists[j := d], claims + [j])
  {
    hide Dist, Greedy;
    GreedyMore(before, palP, claims, j);
    var claims' := claims + [j];
    forall i | 0 <= i < |claims|
      ensures claims[i] != j
    {
    }
  }

  /** Once every old colour has claimed an entry the slots have only changed places. */
  lemma ClaimedPermutes(before: seq<Rgb>, slots: seq<nat>, palP: seq<Rgb>, mapP: seq<nat>,
                         dists: seq<int>, claims: seq<nat>, extra: seq<nat>)
    requires |before| == |slots| == |palP| == |claims| && |mapP| >= |palP| && |dists| >= |palP|
    requires Claimed(before, slots, palP, mapP, dists, claims) && Permutation(slots + extra, |slots + extra|)
    ensures Permutation(mapP[..|palP|] + extra, |slots + extra|)
    ensures forall j :: 0 <= j < |palP| ==> dists[j] >= 0
  {
    hide Dist, Greedy, Permutation;
    var n, all := |palP|, slots + extra;
    GreedyDistinct(before, palP, claims);
    var order := claims + seq(|extra|, (k: int) requires 0 <= k < |extra| => n + k);
    Extended(claims, n, |extra|);
    var inverse := Inverse(order, |all|);
    var s := mapP[..n] + extra;
    forall j | 0 <= j < |all|
      ensures s[j] == all[inverse[j]] && (j < n ==> dists[j] >= 0)
    {
      var i := inverse[j];
      assert order[i] == j;
      if i < n {
        assert mapP[claims[i]] == slots[i];
        DistBound(before[i], palP[claims[i]]);
      }
    }
    Rearranged(all, s, inverse, |all|);
  }

  // ---- the worst matches take the extra slots ----

  function Marked(dists: seq<int>, n: nat): nat
    requires n <= |dists|
  {
    if n == 0 then 0 else Marked(dists, n - 1) + if dists[n - 1] == -1 then 1 else 0
  }

  lemma {:induction false} MarkOne(dists: seq<int>, j: nat, n: nat)
    requires j < |dists| && n <= |dists| && dists[j] != -1
    ensures Marked(dists[j := -1], n) == Marked(dists, n) + if j < n then 1 else 0
  {
    if n > 0 {
      MarkOne(dists, j, n - 1);
    }
  }

  lemma {:induction false} NoneMarked(dists: seq<int>, n: nat)
    requires n <= |dists| && forall j :: 0 <= j < n ==> dists[j] != -1
    ensures Marked(dists, n) == 0
  {
    if n > 0 {
      NoneMarked(dists, n - 1);
    }
  }

  lemma {:induction false} SomeUnmarked(dists: seq<int>, n: nat)
    requires n <= |dists| && Marked(dists, n) < n
    ensures exists j :: 0 <= j < n && dists[j] != -1
  {
    if dists[n - 1] == -1 {
      SomeUnmarked(dists, n - 1);
    }
  }

  lemma {:induction false} MarkedMonotone(dists: seq<int>, j: nat, n: nat)
    requires j <= n <= |dists|
    ensures Marked(dists, j) <= Marked(dists, n)
  {
    if j < n {
      MarkedMonotone(dists, j, n - 1);
    }
  }

  /** Marks stand on the worst of the n distances, earlier ones first. */
  ghost predicate WorstMarked(was: seq<int>, dists: seq<int>, n: nat)
    requires n <= |was| == |dists|
  {
    && (forall j :: 0 <= j < |was| ==> dists[j] == -1 || dists[j] == was[j])
    && (forall j, k :: 0 <= j < n && 0 <= k < n && dists[j] == -1 && dists[k] != -1 ==>
          was[j] > was[k] || (was[j] == was[k] && j < k))
  }

  /** A match that is marked is at least as bad as one that is not, and earlier if it is as bad. */
  lemma MarkedIsWorse(was: seq<int>, dists: seq<int>, n: nat, j: nat, k: nat)
    requires n <= |was| == |dists| && WorstMarked(was, dists, n)
    requires j < n && k < n && dists[j] == -1 && dists[k] != -1
    ensures was[j] >= was[k] == dists[k] && (was[j] == was[k] ==> j < k)
  {
  }

  /** The first half of the extra entry handling: ncolsextra distances are marked with -1. */
  method MarkWorst(dists: array<int>, ncols: nat, ncolsextra: nat)
    requires ncolsextra <= ncols <= dists.Length && forall j :: 0 <= j < ncols ==> dists[j] >= 0
    modifies dists
    ensures WorstMarked(old(dists[..]), dists[..], ncols) && Marked(dists[..], ncols) == ncolsextra
  {
    ghost var was := dists[..];
    NoneMarked(was, ncols);
    for i := 0 to ncolsextra
      invariant WorstMarked(was, dists[..], ncols) && Marked(dists[..], ncols) == i
    {
      SomeUnmarked(dists[..], ncols);
      ghost var free: nat :| free < ncols && dists[free] != -1;
      var jmax: nat, maxDist := 0, -1;
      for j := 0 to ncols
        invariant if maxDist == -1 then j <= free else jmax < j && dists[jmax] == maxDist == was[jmax]
        invariant maxDist >= -1
        invariant forall k :: 0 <= k < j && dists[k] != -1 ==>
                    maxDist > dists[k] || (maxDist == dists[k] && jmax <= k)
      {
        if dists[j] != -1 && dists[j] > maxDist {
          jmax, maxDist := j, dists[j];
        }
      }
      MarkOne(dists[..], jmax, ncols);
      ghost var d := dists[..];
      dists[jmax] := -1;
      assert dists[..] == d[jmax := -1];
    }
  }

  lemma SwapPermutes(a: seq<nat>, x: seq<nat>, j: nat, i: nat, n: nat)
    requires Permutation(a + x, n) && j < |a| && i < |x|
    ensures Permutation(a[j := x[i]] + x[i := a[j]], n)
  {
    var s, k := a + x, |a| + i;
    assert a[j := x[i]] + x[i := a[j]] == s[j := s[k]][k := s[j]];
  }

  /** Where a mark stands the slot comes from the extra ones, in order, and the old one goes there. */
  ghost predicate Exchanged(mapP: seq<nat>, extra: seq<nat>, mapP': seq<nat>, extra': seq<nat>, dists: seq<int>, j: nat)
    requires j <= |mapP| == |mapP'| <= |dists| && |extra| == |extra'|
  {
    && (forall k :: 0 <= k < |mapP| && (k >= j || dists[k] != -1) ==> mapP'[k] == mapP[k])
    && (forall k :: 0 <= k < j && dists[k] == -1 ==>
          var i := Marked(dists, k); i < |extra| && mapP'[k] == extra[i] && extra'[i] == mapP[k])
    && (forall i :: Marked(dists, j) <= i < |extra| ==> extra'[i] == extra[i])
  }

  method SwapWith(a: array<nat>, j: nat, b: array<nat>, k: nat)
    requires a != b && j < a.Length && k < b.Length
    modifies a, b
    ensures a[..] == old(a[..])[j := old(b[k])] && b[..] == old(b[..])[k := old(a[j])]
  {
    var t := a[j];
    a[j] := b[k];
    b[k] := t;
  }

  /** The second half. The extra slots are map[ncols..ncols + ncolsextra]. */
  method SwapExtras(mapP: array<nat>, slotMap: array<nat>, dists: array<int>, ncols: nat, ncolsextra: nat)
    requires mapP.Length == slotMap.Length == dists.Length == 0x100 && mapP != slotMap && ncols + ncolsextra <= 0x100
    requires Marked(dists[..], ncols) == ncolsextra
    requires Permutation(mapP[..ncols] + slotMap[ncols..ncols + ncolsextra], ncols + ncolsextra)
    modifies mapP, slotMap
    ensures slotMap[..ncols] == old(slotMap[..ncols])
    ensures Exchanged(old(mapP[..ncols]), old(slotMap[ncols..ncols + ncolsextra]), mapP[..ncols],
            slotMap[ncols..ncols + ncolsextra], dists[..], ncols)
    ensures Permutation(mapP[..ncols] + slotMap[ncols..ncols + ncolsextra], ncols + ncolsextra)
  {
    hide Marked, Exchanged, Permutation;
    ghost var m, e, d, n := mapP[..ncols], slotMap[ncols..ncols + ncolsextra], dists[..], ncols + ncolsextra;
    var j: nat := 0;
    MarkedZero(d);
    NothingExchanged(m, e, d);
    for i := 0 to ncolsextra
      invariant j <= ncols && Marked(d, j) == i && slotMap[..ncols] == old(slotMap[..ncols])
      invariant Exchanged(m, e, mapP[..ncols], slotMap[ncols..n], d, j)
      invariant Permutation(mapP[..ncols] + slotMap[ncols..n], n)
    {
      ghost var a, x, kept := mapP[..ncols], slotMap[ncols..n], slotMap[..ncols];
      MarkAhead(d, j, ncols);
      while dists[j] != -1
        invariant j < ncols && Marked(d, j) == i && Exchanged(m, e, a, x, d, j)
        invariant mapP[..ncols] == a && slotMap[ncols..n] == x && slotMap[..ncols] == kept
        decreases ncols - j
      {
        MarkedStep(d, j);
        Skip(m, e, a, x, d, j);
        j := j + 1;
        MarkAhead(d, j, ncols);
      }
      SwapWith(mapP, j, slotMap, ncols + i);
      SwapPermutes(a, x, j, i, n);
      assert slotMap[..ncols] == kept;
      assert mapP[..ncols] == a[j := x[i]] && slotMap[ncols..n] == x[i := a[j]];
      MarkedStep(d, j);
      ExchangeOne(m, e, a, x, d, j);
      j := j + 1;
    }
    NoMoreMarks(m, e, mapP[..ncols], slotMap[ncols..n], d, j);
  }

  lemma MarkAhead(dists: seq<int>, j: nat, n: nat)
    requires j <= n <= |dists| && Marked(dists, j) < Marked(dists, n)
    ensures j < n
  {
  }

  lemma Skip(mapP: seq<nat>, extra: seq<nat>, mapP': seq<nat>, extra': seq<nat>, dists: seq<int>,
              j: nat)
    requires j < |mapP| == |mapP'| <= |dists| && |extra| == |extra'| && dists[j] != -1
    requires Exchanged(mapP, extra, mapP', extra', dists, j)
    ensures Exchanged(mapP, extra, mapP', extra', dists, j + 1)
  {
    MarkedStep(dists, j);
  }

  lemma MarkedZero(dists: seq<int>)
    ensures Marked(dists, 0) == 0
  {
  }

  lemma MarkedStep(dists: seq<int>, j: nat)
    requires j < |dists|
    ensures Marked(dists, j + 1) == Marked(dists, j) + if dists[j] == -1 then 1 else 0
  {
  }

  lemma NothingExchanged(mapP: seq<nat>, extra: seq<nat>, dists: seq<int>)
    requires |mapP| <= |dists|
    ensures Exchanged(mapP, extra, mapP, extra, dists, 0)
  {
  }

  lemma {:induction false} ExchangeOne(mapP: seq<nat>, extra: seq<nat>, mapP': seq<nat>, extra': seq<nat>,
                                       dists: seq<int>, j: nat)
    requires j < |mapP| == |mapP'| <= |dists| && |extra| == |extra'|
    requires Exchanged(mapP, extra, mapP', extra', dists, j) && dists[j] == -1 && Marked(dists, j) < |extra|
    ensures var i := Marked(dists, j);
            Exchanged(mapP, extra, mapP'[j := extra'[i]], extra'[i := mapP'[j]], dists, j + 1)
  {
    hide Marked;
    MarkedStep(dists, j);
    forall k | 0 <= k < j && dists[k] == -1
      ensures Marked(dists, k) < Marked(dists, j)
    {
      MarkedStep(dists, k);
      MarkedMonotone(dists, k + 1, j);
    }
  }

  lemma {:induction false} NoMoreMarks(mapP: seq<nat>, extra: seq<nat>, mapP': seq<nat>, extra': seq<nat>,
                                       dists: seq<int>, j: nat)
    requires j <= |mapP| == |mapP'| <= |dists| && |extra| == |extra'| == Marked(dists, j) == Marked(dists, |mapP|)
    requires Exchanged(mapP, extra, mapP', extra', dists, j)
    ensures Exchanged(mapP, extra, mapP', extra', dists, |mapP|)
  {
    hide Marked;
    forall k | j <= k < |mapP|
      ensures dists[k] != -1
    {
      MarkedMonotone(dists, j, k);
      MarkedStep(dists, k);
      MarkedMonotone(dists, k + 1, |mapP|);
    }
  }
}
