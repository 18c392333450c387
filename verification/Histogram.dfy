/** The colour histogram of gbmhist.c: a hash table of the colours seen, with their counts. */
module Histogram {
  import opened Bits
  import opened Palettes
  import opened OpenAddressing

  const N_COLS := 2049
  const N_HASH := 5191

  const M := Marks(0, 0xffff)

  datatype Freq = Freq(colour: Rgb, freq: nat, nearest: nat)

  /** HASH. */
  function HashOf(c: Rgb): (h: nat)
    ensures h < N_HASH
  {
    (c.r + c.g) * (c.g + c.b) * (c.b + c.r) % N_HASH
  }

  ghost function Starts(fs: seq<Freq>): (s: seq<nat>)
    ensures |s| == |fs| && forall i :: 0 <= i < |fs| ==> s[i] == HashOf(fs[i].colour)
  {
    seq(|fs|, (i: int) requires 0 <= i < |fs| => HashOf(fs[i].colour))
  }

  /** No colour has two entries. */
  ghost predicate ColoursApart(fs: seq<Freq>) {
    forall i, j :: 0 <= i < j < |fs| ==> fs[i].colour != fs[j].colour
  }

  ghost predicate Has(fs: seq<Freq>, c: Rgb) {
    exists i :: 0 <= i < |fs| && fs[i].colour == c
  }

  /** The entries are the colours seen, each once. */
  ghost predicate Keys(fs: seq<Freq>, seen: multiset<Rgb>) {
    && ColoursApart(fs)
    && (forall i :: 0 <= i < |fs| ==> fs[i].colour in seen)
    && (forall c :: c in seen ==> Has(fs, c))
  }

  /** Each entry counts how often its colour was seen. */
  ghost predicate Counts(fs: seq<Freq>, seen: multiset<Rgb>) {
    Keys(fs, seen) && forall i :: 0 <= i < |fs| ==> fs[i].freq == seen[fs[i].colour]
  }

  /** Every colour that has an entry is found by probing from its hash. */
  ghost predicate Reachable(fs: seq<Freq>, ht: seq<int>, slots: seq<nat>) {
    |ht| == N_HASH && |fs| == |slots| <= N_COLS && Indexed(M, ht, Starts(fs), slots)
  }

  /** The first d slots probed from `start` hold other colours than c. */
  ghost predicate Probed(fs: seq<Freq>, ht: seq<int>, start: nat, d: nat, c: Rgb)
    requires start < |ht| && d <= |ht|
  {
    forall d': nat :: d' < d ==> var v := ht[Slot(|ht|, start, d')]; 0 <= v < |fs| && fs[v].colour != c
  }

  lemma ProbeNext(fs: seq<Freq>, ht: seq<int>, slots: seq<nat>, start: nat, d: nat, c: Rgb)
    requires Reachable(fs, ht, slots) && start < N_HASH && d < N_HASH && Probed(fs, ht, start, d, c)
    ensures Unbroken(M, ht, start, d)
    ensures var v := ht[Slot(N_HASH, start, d)];
            v == 0xffff || (0 <= v < |fs| && (fs[v].colour != c ==> d + 1 < N_HASH && Probed(fs, ht, start, d + 1, c)))
  {
    var v := ht[Slot(N_HASH, start, d)];
    if v != 0xffff && fs[v].colour != c {
      assert Probed(fs, ht, start, d + 1, c);
      assert Unbroken(M, ht, start, d + 1);
      ProbeEnds(M, ht, Starts(fs), slots, start, d + 1);
    }
  }

  /** A probe that meets an empty slot shows that the colour has no entry. */
  lemma ProbeMisses(fs: seq<Freq>, ht: seq<int>, slots: seq<nat>, d: nat, c: Rgb)
    requires Reachable(fs, ht, slots) && d < N_HASH && Probed(fs, ht, HashOf(c), d, c)
    requires ht[Slot(N_HASH, HashOf(c), d)] == 0xffff
    ensures !Has(fs, c)
  {
    hide HashOf;
    if i :| 0 <= i < |fs| && fs[i].colour == c {
      ProbeMeets(M, ht, Starts(fs), slots, i, d);
      assert false;
    }
  }

  lemma KeysMore(fs: seq<Freq>, seen: multiset<Rgb>, c: Rgb)
    requires Counts(fs, seen) && !Has(fs, c)
    ensures Counts(fs + [Freq(c, 1, 0)], seen + multiset{c})
  {
    var fs' := fs + [Freq(c, 1, 0)];
    assert c !in seen;
    assert fs'[|fs|].colour == c;
    forall k | k in seen + multiset{c}
      ensures Has(fs', k)
    {
      if k != c {
        assert Has(fs, k);
        var i :| 0 <= i < |fs| && fs[i].colour == k;
        assert fs'[i].colour == k;
      }
    }
  }

  lemma CountOne(fs: seq<Freq>, seen: multiset<Rgb>, i: nat)
    requires Counts(fs, seen) && i < |fs|
    ensures Counts(fs[i := fs[i].(freq := fs[i].freq + 1)], seen + multiset{fs[i].colour})
  {
    var fs' := fs[i := fs[i].(freq := fs[i].freq + 1)];
    forall k | k in seen + multiset{fs[i].colour}
      ensures Has(fs', k)
    {
      assert k in seen;
      var j :| 0 <= j < |fs| && fs[j].colour == k;
      assert fs'[j].colour == k;
    }
  }

  class Hist {
    const rm: Byte
    const gm: Byte
    const bm: Byte
    var nCols: nat
    const f: array<Freq>
    const ht: array<int>

    ghost var slots: seq<nat>
    /** The masked colours of all pixels added. */
    ghost var seen: multiset<Rgb>

    ghost predicate Sized()
      reads this
    {
      f.Length == N_COLS && ht.Length == N_HASH && nCols <= N_COLS
    }

    /** The table is exact, and every colour has its entry. */
    ghost predicate Valid()
      reads this, f, ht
    {
      Sized() && Reachable(f[..nCols], ht[..], slots) && Keys(f[..nCols], seen)
    }

    ghost predicate Counting()
      reads this, f, ht
    {
      Valid() && Counts(f[..nCols], seen)
    }

    /** gbm_create_hist. */
    constructor (rm: Byte, gm: Byte, bm: Byte)
      ensures Counting() && seen == multiset{} && nCols == 0 && fresh(f) && fresh(ht)
      ensures this.rm == rm && this.gm == gm && this.bm == bm
    {
      this.rm, this.gm, this.bm := rm, gm, bm;
      nCols := 0;
      f := new Freq[N_COLS](_ => Freq(Rgb(0, 0, 0), 0, 0));
      ht := new int[N_HASH](_ => 0xffff);
      slots, seen := [], multiset{};
      new;
      EmptyTable(M, ht[..]);
      assert Starts(f[..0]) == [];
    }

    /** The probing loop of gbm_add_to_hist: the entry of c, or the slot where it would go. */
    method Probe(c: Rgb) returns (hc: nat, inx: int, ghost d: nat)
      requires Valid()
      ensures d < N_HASH && hc == Slot(N_HASH, HashOf(c), d) && inx == ht[hc]
      ensures Unbroken(M, ht[..], HashOf(c), d)
      ensures inx == 0xffff ==> !Has(f[..nCols], c)
      ensures inx != 0xffff ==> 0 <= inx < nCols && f[inx].colour == c
    {
      hide HashOf, Reachable, Keys, Has, Unbroken;
      d, hc := 0, HashOf(c);
      IndexRange(f[..nCols], ht[..], slots);
      ghost var fs, t := f[..nCols], ht[..];
      ProbeNext(fs, t, slots, HashOf(c), 0, c);
      while true
        invariant d < N_HASH && hc == Slot(N_HASH, HashOf(c), d) && Probed(fs, t, HashOf(c), d, c)
        decreases N_HASH - d
      {
        inx := ht[hc];
        ProbeNext(fs, t, slots, HashOf(c), d, c);
        if inx == 0xffff || f[inx].colour == c {
          break;
        }
        hc, d := hc + 1, d + 1;
        if hc == N_HASH {
          hc := 0;
        }
      }
      if inx == 0xffff {
        ProbeMisses(fs, t, slots, d, c);
      }
    }

    /** One pixel of gbm_add_to_hist; it fails when the colour is new and there is no room. */
    method Add(c: Rgb) returns (ok: bool)
      requires Counting()
      modifies this, f, ht
      ensures ok ==> Counting() && seen == old(seen) + multiset{c}
      ensures !ok ==> Counting() && nCols == N_COLS && c !in seen && seen == old(seen)
    {
      hide HashOf, Reachable, Keys, Counts, Has, Unbroken, Starts;
      ghost var fs, t := f[..nCols], ht[..];
      var hc, inx;
      ghost var d;
      hc, inx, d := Probe(c);
      if inx == 0xffff {
        if nCols == N_COLS {
          NotSeen(fs, seen, c);
          return false;
        }
        f[nCols] := Freq(c, 1, 0);
        ht[hc] := nCols;
        nCols := nCols + 1;
        NewEntry(fs, t, slots, d, c);
        KeysMore(fs, seen, c);
        slots := slots + [hc];
        assert f[..nCols] == fs + [Freq(c, 1, 0)] && ht[..] == t[hc := |fs|];
      } else {
        f[inx] := f[inx].(freq := f[inx].freq + 1);
        CountOne(fs, seen, inx);
        SameColours(fs, f[..nCols], t, slots);
        assert f[..nCols] == fs[inx := f[inx]];
      }
      seen := seen + multiset{c};
      CountsKeys(f[..nCols], seen);
      ok := true;
    }

    /** The probing loop of gbm_map_hist, for a colour that was added. */
    method Lookup(c: Rgb) returns (inx: nat)
      requires Valid() && c in seen
      ensures inx < nCols && f[inx].colour == c
    {
      hide HashOf, Reachable, Keys, Has, Unbroken;
      ghost var d := 0;
      var hc: nat := HashOf(c);
      ghost var fs, t := f[..nCols], ht[..];
      Entered(fs, seen, c);
      IndexRange(fs, t, slots);
      Present(fs, t, slots, d, c);
      while f[ht[hc]].colour != c
        invariant d < N_HASH && hc == Slot(N_HASH, HashOf(c), d) && Probed(fs, t, HashOf(c), d, c)
        invariant 0 <= ht[hc] < nCols
        decreases N_HASH - d
      {
        ProbeNext(fs, t, slots, HashOf(c), d, c);
        hc, d := hc + 1, d + 1;
        if hc == N_HASH {
          hc := 0;
        }
        Present(fs, t, slots, d, c);
      }
      inx := ht[hc];
    }
  }

  /** The probe of a colour that has an entry meets no empty slot. */
  lemma Present(fs: seq<Freq>, ht: seq<int>, slots: seq<nat>, d: nat, c: Rgb)
    requires Reachable(fs, ht, slots) && d < N_HASH && Probed(fs, ht, HashOf(c), d, c) && Has(fs, c)
    ensures 0 <= ht[Slot(N_HASH, HashOf(c), d)] < |fs|
  {
    hide HashOf, Has;
    IndexRange(fs, ht, slots);
    if ht[Slot(N_HASH, HashOf(c), d)] == 0xffff {
      ProbeMisses(fs, ht, slots, d, c);
      assert false;
    }
  }

  lemma Entered(fs: seq<Freq>, seen: multiset<Rgb>, c: Rgb)
    requires Keys(fs, seen) && c in seen
    ensures Has(fs, c)
  {
  }

  lemma NotSeen(fs: seq<Freq>, seen: multiset<Rgb>, c: Rgb)
    requires Counts(fs, seen) && !Has(fs, c)
    ensures c !in seen
  {
  }

  lemma CountsKeys(fs: seq<Freq>, seen: multiset<Rgb>)
    requires Counts(fs, seen)
    ensures Keys(fs, seen)
  {
  }

  lemma NewEntry(fs: seq<Freq>, ht: seq<int>, slots: seq<nat>, d: nat, c: Rgb)
    requires Reachable(fs, ht, slots) && |fs| < N_COLS && d < N_HASH && Unbroken(M, ht, HashOf(c), d)
    requires ht[Slot(N_HASH, HashOf(c), d)] == 0xffff
    ensures var j := Slot(N_HASH, HashOf(c), d);
            Reachable(fs + [Freq(c, 1, 0)], ht[j := |fs|], slots + [j])
  {
    hide HashOf;
    OpenAddressing.Add(M, ht, Starts(fs), slots, HashOf(c), d, |fs|);
    assert Starts(fs + [Freq(c, 1, 0)]) == Starts(fs) + [HashOf(c)];
  }

  lemma SameColours(fs: seq<Freq>, fs': seq<Freq>, ht: seq<int>, slots: seq<nat>)
    requires Reachable(fs, ht, slots)
    requires |fs'| == |fs| && forall i :: 0 <= i < |fs| ==> fs'[i].colour == fs[i].colour
    ensures Reachable(fs', ht, slots)
  {
    assert Starts(fs') == Starts(fs);
  }

  lemma IndexRange(fs: seq<Freq>, ht: seq<int>, slots: seq<nat>)
    requires Reachable(fs, ht, slots)
    ensures forall j :: 0 <= j < |ht| ==> ht[j] == 0xffff || 0 <= ht[j] < |fs|
  {
  }
}
