/** The LZW encoder of gbmgif.c: greedy longest match through a dictionary that is found by hashing
    the string being matched. */
module GifEncoder {
  import opened Bits
  import opened GifBlocks
  import opened LzwStream
  import OA = OpenAddressing

  const MAX_HASH := 17777
  const MAX_DICT := 4096

  /** The cumulative hash of a string of pixels. */
  function HashOf(s: seq<nat>): (h: nat)
    requires s != []
    ensures |s| >= 2 ==> h < MAX_HASH
  {
    if |s| == 1 then (s[0] + 3) * 301
    else Mix(HashOf(Init(s)), Last(s) + |s| + 4)
  }

  /** One step of the hash, in 32-bit unsigned arithmetic. */
  function Mix(h: nat, k: nat): (r: nat)
    ensures r < MAX_HASH
  {
    h * k % 0x1_0000_0000 % MAX_HASH
  }

  /** Null pointers are -1; other pointers into the dictionary are the index they point at. */
  function Marks(f: Format): OA.Marks { OA.Marks(f.First(), -1) }

  ghost function StartOf(f: Format, e: seq<nat>, n: nat): nat
    requires Legal(f, e) && n < |e| - 1
    ensures StartOf(f, e, n) < MAX_HASH
  {
    HashOf(Str(f, e, f.First() + n))
  }

  /** The dictionary arrays hold the entries of the epoch. */
  ghost predicate DictHolds(f: Format, e: seq<nat>, tails: seq<nat>, cols: seq<Byte>)
    requires Legal(f, e)
  {
    && |tails| == |cols| == MAX_DICT
    && f.First() + |e| - 1 <= MAX_DICT
    && forall n: nat :: n < |e| - 1 ==>
         tails[f.First() + n] == Entry(f, e, n).0 && cols[f.First() + n] == Entry(f, e, n).1
  }

  /** The hash table indexes every entry under the hash of the string it spells. */
  ghost predicate TableIndexes(f: Format, e: seq<nat>, table: seq<int>, starts: seq<nat>, slots: seq<nat>)
    requires Legal(f, e)
  {
    && |table| == MAX_HASH
    && |slots| == |e| - 1
    && OA.Indexed(Marks(f), table, starts, slots)
    && forall n: nat :: n < |e| - 1 ==> starts[n] == StartOf(f, e, n)
  }

  ghost predicate Probed(table: seq<int>, tails: seq<nat>, cols: seq<Byte>, start: nat, d: nat, tail: nat, col: Byte)
    requires |tails| == |cols| && start < |table| && d <= |table|
  {
    forall k: nat {:trigger OA.Slot(|table|, start, k)} :: k < d ==>
      var c := table[OA.Slot(|table|, start, k)];
      0 <= c < |tails| && !(tails[c] == tail && cols[c] == col)
  }

  /** The hash index is exact: a probe from the hash of the matched string extended by col that ends
      at an empty slot proves that the dictionary has no entry (tail, col). */
  lemma {:induction false} ProbeMisses(f: Format, e: seq<nat>, tails: seq<nat>, cols: seq<Byte>,
      table: seq<int>, starts: seq<nat>, slots: seq<nat>, d: nat, tail: nat, col: Byte, n: nat)
    requires Legal(f, e) && e != [] && Last(e) == tail
    requires DictHolds(f, e, tails, cols) && TableIndexes(f, e, table, starts, slots)
    requires d < MAX_HASH && n < |e| - 1
    requires var start := HashOf(Str(f, e, tail) + [col]);
             Probed(table, tails, cols, start, d, tail, col) && table[OA.Slot(MAX_HASH, start, d)] == -1
    ensures Entry(f, e, n) != (tail, col)
  {
    StrUnsnoc(f, e, f.First() + n);
    assert Str(f, e, f.First() + n) == Str(f, e, e[n]) + [Entry(f, e, n).1];
    OA.ProbeMeets(Marks(f), table, starts, slots, n, d);
  }

  /** A used slot points at an entry. */
  lemma SlotInRange(f: Format, e: seq<nat>, table: seq<int>, starts: seq<nat>, slots: seq<nat>,
                     j: nat)
    requires Legal(f, e) && TableIndexes(f, e, table, starts, slots) && j < MAX_HASH
    ensures table[j] != -1 ==> f.First() <= table[j] < f.First() + |slots|
  {
  }

  /** Probing may go on past a slot that holds another entry, and does not run round the table. */
  lemma ProbeStep(f: Format, e: seq<nat>, tails: seq<nat>, cols: seq<Byte>,
      table: seq<int>, starts: seq<nat>, slots: seq<nat>, start: nat, d: nat, tail: nat, col: Byte)
    requires Legal(f, e) && DictHolds(f, e, tails, cols) && TableIndexes(f, e, table, starts, slots)
    requires start < MAX_HASH && d < MAX_HASH
    requires OA.Unbroken(Marks(f), table, start, d) && Probed(table, tails, cols, start, d, tail, col)
    requires var c := table[OA.Slot(MAX_HASH, start, d)];
             0 <= c < MAX_DICT && (tails[c] != tail || cols[c] != col)
    ensures d + 1 < MAX_HASH
    ensures OA.Unbroken(Marks(f), table, start, d + 1) && Probed(table, tails, cols, start, d + 1, tail, col)
  {
    OA.ProbeEnds(Marks(f), table, starts, slots, start, d + 1);
  }

  lemma ProbeStart(m: OA.Marks, table: seq<int>, tails: seq<nat>, cols: seq<Byte>, start: nat,
                    tail: nat, col: Byte)
    requires |tails| == |cols| && start < |table|
    ensures OA.Unbroken(m, table, start, 0) && Probed(table, tails, cols, start, 0, tail, col)
  {
  }

  lemma DictRoom(f: Format, e: seq<nat>, tails: seq<nat>, cols: seq<Byte>,
      table: seq<int>, starts: seq<nat>, slots: seq<nat>)
    requires Legal(f, e) && DictHolds(f, e, tails, cols) && TableIndexes(f, e, table, starts, slots)
    ensures |slots| == |e| - 1 && f.First() + |slots| <= MAX_DICT
  {
  }

  lemma {:induction false} HashSnoc(s: seq<nat>, col: nat)
    requires s != []
    ensures HashOf(s + [col]) == Mix(HashOf(s), col + |s| + 1 + 4)
  {
    hide Mix;
    var t := s + [col];
    assert Init(t) == s && Last(t) == col && |t| == |s| + 1;
  }

  /** The first pixel of an epoch: a match of one pixel and an empty dictionary. */
  lemma {:induction false} FirstPixel(f: Format, col: Byte, tails: seq<nat>, cols: seq<Byte>, table: seq<int>)
    requires f.Valid() && col < f.colours && |tails| == |cols| == MAX_DICT && |table| == MAX_HASH
    requires forall j :: 0 <= j < MAX_HASH ==> table[j] == -1
    ensures Pending(f, [], col) && [] + [col] == [col] && EntriesDiffer(f, [col])
    ensures DictHolds(f, [col], tails, cols) && TableIndexes(f, [col], table, [], [])
    ensures Str(f, [col], col) == [col] && HashOf([col]) == (col + 3) * 301
  {
    assert [] + [col] == [col];
    OA.EmptyTable(Marks(f), table);
  }

  lemma OnePixel(f: Format, e: seq<nat>, col: Byte)
    requires Legal(f, e) && col < f.colours
    ensures Pending(f, e, col) && Str(f, e + [col], col) == [col] && HashOf([col]) == (col + 3) * 301
  {
  }

  /** After code number k of the epoch the encoder's counter equals the decoder's next free code, and
      the width grows for both at the same time, never past 12 bits. */
  lemma CounterStep(f: Format, k: nat, w: nat, lastCode: nat)
    requires f.Valid() && w == Width(f, k) && lastCode == f.Eoi() + k + 1 < MAX_DICT
    ensures lastCode == NextFree(f, k + 1)
    ensures if lastCode >= Pow2(w) then
              w < 12 && Width(f, k + 1) == w + 1 && Pow2(w + 1) == 2 * Pow2(w) && lastCode < MAX_DICT - 2
            else Width(f, k + 1) == w && (lastCode >= MAX_DICT - 2 ==> w == 12)
  {
    WidthStep(f, k);
    WidthForRange(f.initSize, NextFree(f, k));
    Pow2Table();
    if w < 12 {
      Pow2Monotone(w, 11);
    }
  }

  /** A stream starts with a clear code. */
  lemma ClearAlone(f: Format)
    requires f.Valid()
    ensures WellFormed(f, [f.clear]) && Frugal(f, [f.clear]) && Text(f, [f.clear]) == []
    ensures Epoch(f, [f.clear]) == [] && StreamBits(f, [f.clear]) == LowBits(f.clear, Width(f, 0))
  {
    Snoc(f, [], f.clear);
    assert [] + [f.clear] == [f.clear];
    assert StreamBits(f, []) == [] && Epoch(f, []) == [];
  }

  /** Ending an epoch with a clear code. */
  lemma {:induction false} EndEpoch(f: Format, cs: seq<nat>)
    requires WellFormed(f, cs) && Frugal(f, cs) && EpochFull(f, Epoch(f, cs))
    ensures WellFormed(f, cs + [f.clear]) && Frugal(f, cs + [f.clear])
    ensures Epoch(f, cs + [f.clear]) == [] && Text(f, cs + [f.clear]) == Text(f, cs)
    ensures StreamBits(f, cs + [f.clear]) == StreamBits(f, cs) + LowBits(f.clear, Width(f, |Epoch(f, cs)|))
  {
    Snoc(f, cs, f.clear);
    assert Init(cs + [f.clear]) == cs;
  }

  // ---- how the matched string grows ----

  /** Replacing the last code by one whose string starts with the same pixel changes no entry. */
  lemma {:induction false} SameEntries(f: Format, e: seq<nat>, a: nat, b: nat, c: nat)
    requires Pending(f, e, a) && Pending(f, e, b) && Head(f, e + [a], a) == Head(f, e + [b], b)
    requires c < f.colours || f.First() <= c < f.First() + |e|
    ensures Head(f, e + [a], c) == Head(f, e + [b], c)
    ensures Str(f, e + [a], c) == Str(f, e + [b], c)
    ensures c >= f.First() ==> Entry(f, e + [a], c - f.First()) == Entry(f, e + [b], c - f.First())
    decreases c
  {
    if c >= f.colours {
      var n := c - f.First();
      SameEntries(f, e, a, b, e[n]);
      if n + 1 < |e| {
        HeadPrefix(f, e, e + [a], e[n + 1]);
        HeadPrefix(f, e, e + [b], e[n + 1]);
      }
    }
  }

  /** Following a dictionary entry (a, col) spells the string of a and then col. */
  lemma FollowEntry(f: Format, e: seq<nat>, a: nat, n: nat)
    requires Pending(f, e, a) && n < |e| && Entry(f, e + [a], n).0 == a && f.First() + n < MAX_CODES
    ensures var b := f.First() + n;
            && Pending(f, e, b)
            && Head(f, e + [b], b) == Head(f, e + [a], a)
            && Str(f, e + [b], b) == Str(f, e + [a], a) + [Entry(f, e + [a], n).1]
  {
    var b := f.First() + n;
    EntryHead(f, e, a, n);
    SameEntries(f, e, a, b, b);
  }

  lemma EntryHead(f: Format, e: seq<nat>, a: nat, n: nat)
    requires Pending(f, e, a) && n < |e| && e[n] == a && f.First() + n < MAX_CODES
    requires Pending(f, e, f.First() + n)
    ensures Head(f, e + [f.First() + n], f.First() + n) == Head(f, e + [a], a)
  {
    var b := f.First() + n;
    HeadPrefix(f, e, e + [a], a);
    HeadPrefix(f, e, e + [b], a);
  }

  lemma {:induction false} KeepIndex(f: Format, e: seq<nat>, a: nat, b: nat,
      tails: seq<nat>, cols: seq<Byte>, table: seq<int>, starts: seq<nat>, slots: seq<nat>)
    requires Pending(f, e, a) && Pending(f, e, b) && Head(f, e + [a], a) == Head(f, e + [b], b)
    requires DictHolds(f, e + [a], tails, cols) && TableIndexes(f, e + [a], table, starts, slots)
    requires EntriesDiffer(f, e + [a])
    ensures DictHolds(f, e + [b], tails, cols) && TableIndexes(f, e + [b], table, starts, slots)
    ensures EntriesDiffer(f, e + [b])
  {
    forall n: nat | n < |e|
      ensures Entry(f, e + [b], n) == Entry(f, e + [a], n)
      ensures StartOf(f, e + [b], n) == StartOf(f, e + [a], n)
    {
      SameEntries(f, e, a, b, f.First() + n);
    }
  }

  /** A new entry (tail, col) goes with starting a new match from col. */
  lemma GrowDict(f: Format, e: seq<nat>, col: Byte, tails: seq<nat>, cols: seq<Byte>, code: nat)
    requires Legal(f, e) && e != [] && col < f.colours && EntriesDiffer(f, e)
    requires code == f.First() + |e| - 1 < MAX_DICT
    requires DictHolds(f, e, tails, cols)
    requires forall n: nat :: n < |e| - 1 ==> Entry(f, e, n) != (Last(e), col)
    ensures Pending(f, e, col) && EntriesDiffer(f, e + [col])
    ensures DictHolds(f, e + [col], tails[code := Last(e)], cols[code := col])
  {
    NewEntry(f, e, col);
    forall n: nat | n < |e| - 1
      ensures Entry(f, e + [col], n) == Entry(f, e, n)
    {
      OldEntry(f, e, col, n);
    }
    DistinctGrows(f, e, col);
  }

  lemma {:induction false} GrowTable(f: Format, e: seq<nat>, col: Byte, table: seq<int>, starts: seq<nat>,
                                     slots: seq<nat>, start: nat, d: nat, j: nat, code: nat)
    requires Legal(f, e) && e != [] && col < f.colours
    requires code == f.First() + |e| - 1 && d < MAX_HASH
    requires TableIndexes(f, e, table, starts, slots)
    requires start == HashOf(Str(f, e, Last(e)) + [col]) && j == OA.Slot(MAX_HASH, start, d)
    requires OA.Unbroken(Marks(f), table, start, d) && table[j] == -1
    ensures Pending(f, e, col)
    ensures TableIndexes(f, e + [col], table[j := code], starts + [start], slots + [j])
  {
    hide StartOf, HashOf, Str, Entry, Head;
    OA.Add(Marks(f), table, starts, slots, start, d, code);
    NewEntry(f, e, col);
    forall n: nat | n < |e| - 1
      ensures StartOf(f, e + [col], n) == StartOf(f, e, n)
    {
      OldEntry(f, e, col, n);
    }
  }

  lemma {:induction false} OldEntry(f: Format, e: seq<nat>, col: Byte, n: nat)
    requires Legal(f, e) && n < |e| - 1 && col < f.colours
    ensures Pending(f, e, col)
    ensures Entry(f, e + [col], n) == Entry(f, e, n) && StartOf(f, e + [col], n) == StartOf(f, e, n)
  {
    HeadPrefix(f, e, e + [col], e[n + 1]);
    StrPrefix(f, e, e + [col], f.First() + n);
  }

  lemma {:induction false} NewEntry(f: Format, e: seq<nat>, col: Byte)
    requires Legal(f, e) && e != [] && col < f.colours
    ensures Pending(f, e, col)
    ensures Entry(f, e + [col], |e| - 1) == (Last(e), col)
    ensures StartOf(f, e + [col], |e| - 1) == HashOf(Str(f, e, Last(e)) + [col])
  {
    StrPrefix(f, e, e + [col], Last(e));
    StrUnsnoc(f, e + [col], f.First() + |e| - 1);
    assert Str(f, e + [col], f.First() + |e| - 1) == Str(f, e, Last(e)) + [col];
  }

  lemma DistinctGrows(f: Format, e: seq<nat>, col: Byte)
    requires Legal(f, e) && EntriesDiffer(f, e) && Pending(f, e, col) && e != []
    requires forall n: nat :: n < |e| - 1 ==> Entry(f, e + [col], n) == Entry(f, e, n)
    requires forall n: nat :: n < |e| - 1 ==> Entry(f, e, n) != Entry(f, e + [col], |e| - 1)
    ensures EntriesDiffer(f, e + [col])
  {
  }

  /** The state of the encoder: the dictionary and its hash table, the string matched so far and the
      bit writer. */
  class Encoder {
    const f: Format
    const w: WriteContext
    const dictTail: array<nat>
    const dictCol: array<Byte>
    const hashtable: array<int>
    var tail: nat
    var hashvalue: nat
    var lenstring: nat
    var lastCode: nat
    var maxCode: nat

    ghost var cs: seq<nat>      // the codes written
    ghost var pixels: seq<nat>  // the pixels taken in
    ghost var starts: seq<nat>
    ghost var slots: seq<nat>

    ghost predicate Apart()
      reads this
    {
      && dictTail as object != hashtable && dictTail as object != dictCol
      && dictCol as object != hashtable && w.buf as object != dictTail
      && w.buf != dictCol && w.buf as object != hashtable
      && dictTail.Length == dictCol.Length == MAX_DICT && hashtable.Length == MAX_HASH
    }

    /** The codes written are on the wire, and the counters agree with them. */
    ghost predicate Writing()
      reads this, w, w.buf
    {
      && Apart() && w.Valid() && f.Valid()
      && cs != [] && WellFormed(f, cs) && Frugal(f, cs)
      && w.stream == StreamBits(f, cs)
      && lastCode == f.Eoi() + |Epoch(f, cs)| < MAX_DICT - 2
      && w.codeSize == Width(f, |Epoch(f, cs)|)
      && maxCode == Pow2(w.codeSize)
    }

    /** The epoch with the code that stands for the string matched so far. */
    ghost function Current(): seq<nat>
      reads this
    {
      Epoch(f, cs) + [tail]
    }

    /** The pixels not yet covered by the codes written are the string of `tail`. */
    ghost predicate Matching()
      reads this, dictTail, dictCol, hashtable
      requires Apart() && WellFormed(f, cs)
    {
      var e := Epoch(f, cs);
      if lenstring == 0 then
        && e == [] && pixels == Text(f, cs)
        && starts == slots == []
        && forall j :: 0 <= j < MAX_HASH ==> hashtable[j] == -1
      else
        && Pending(f, e, tail) && EntriesDiffer(f, e + [tail])
        && DictHolds(f, e + [tail], dictTail[..], dictCol[..])
        && TableIndexes(f, e + [tail], hashtable[..], starts, slots)
        && var s := Str(f, e + [tail], tail);
           pixels == Text(f, cs) + s && lenstring == |s| && hashvalue == HashOf(s)
    }

    ghost predicate Valid()
      reads this, w, w.buf, dictTail, dictCol, hashtable
    {
      Writing() && Matching()
    }

    constructor (f: Format, fd: seq<Byte>)
      requires f.Valid()
      ensures Valid() && pixels == [] && this.f == f
      ensures w.header == fd && fresh(w) && fresh(w.buf)
      ensures fresh(dictTail) && fresh(dictCol) && fresh(hashtable)
    {
      this.f := f;
      w := new WriteContext(fd, f.initSize);
      dictTail := new nat[MAX_DICT](_ => 0);
      dictCol := new Byte[MAX_DICT](_ => 0);
      hashtable := new int[MAX_HASH](_ => -1);
      tail, hashvalue, lenstring := 0, 0, 0;
      lastCode, maxCode := f.clear + 1, Pow2(f.initSize);
      cs, pixels, starts, slots := [], [], [], [];
      new;
      hide LowBits, WriteContext.Valid, Shl, Width;
      WidthStart(f);
      CodeFits(f, 0, f.clear);
      w.WriteCode(f.clear);
      ClearAlone(f);
      cs := [f.clear];
    }

    /** Linear probing for the entry (tail, col), from slot `start` on. */
    method Probe(start: nat, col: Byte) returns (j: nat, ghost d: nat)
      requires Apart() && Pending(f, Epoch(f, cs), tail) && start < MAX_HASH
      requires DictHolds(f, Current(), dictTail[..], dictCol[..])
      requires TableIndexes(f, Current(), hashtable[..], starts, slots)
      ensures d < MAX_HASH && j == OA.Slot(MAX_HASH, start, d)
      ensures OA.Unbroken(Marks(f), hashtable[..], start, d)
      ensures Probed(hashtable[..], dictTail[..], dictCol[..], start, d, tail, col)
      ensures hashtable[j] != -1 ==>
                && f.First() <= hashtable[j] < f.First() + |slots|
                && dictTail[hashtable[j]] == tail && dictCol[hashtable[j]] == col
    {
      hide DictHolds, TableIndexes, Probed, OA.Unbroken;
      j, d := start, 0;
      ProbeStart(Marks(f), hashtable[..], dictTail[..], dictCol[..], start, tail, col);
      SlotInRange(f, Current(), hashtable[..], starts, slots, j);
      assert f.First() + |slots| <= MAX_DICT by {
        DictRoom(f, Current(), dictTail[..], dictCol[..], hashtable[..], starts, slots);
      }
      while hashtable[j] != -1 && (dictTail[hashtable[j]] != tail || dictCol[hashtable[j]] != col)
        invariant d < MAX_HASH && j == OA.Slot(MAX_HASH, start, d)
        invariant OA.Unbroken(Marks(f), hashtable[..], start, d)
        invariant Probed(hashtable[..], dictTail[..], dictCol[..], start, d, tail, col)
        invariant hashtable[j] != -1 ==> f.First() <= hashtable[j] < f.First() + |slots|
        decreases MAX_HASH - d
      {
        ProbeStep(f, Current(), dictTail[..], dictCol[..], hashtable[..], starts, slots, start, d, tail, col);
        j := j + 1;
        if j >= MAX_HASH {
          j := 0;
        }
        d := d + 1;
        SlotInRange(f, Current(), hashtable[..], starts, slots, j);
      }
    }

    /** Takes in one pixel. */
    method Step(col: Byte)
      requires Valid() && col < f.colours
      modifies this, w`fd, w`inx, w`codeSize, w`sent, w`stream, w.buf, dictTail, dictCol, hashtable
      ensures Valid() && pixels == old(pixels) + [col]
    {
      hide DictHolds, TableIndexes, EntriesDiffer, Probed, Mix, Str, Head, HashOf, Entry, WellFormed, Legal, Text;
      hide Frugal;
      ghost var e := Epoch(f, cs);
      lenstring := lenstring + 1;
      if lenstring == 1 {
        tail := col;
        hashvalue := (col + 3) * 301;
        pixels := pixels + [col];
        FirstPixel(f, col, dictTail[..], dictCol[..], hashtable[..]);
      } else {
        ghost var s := Str(f, Current(), tail);
        hashvalue := Mix(hashvalue, col + lenstring + 4);
        HashSnoc(s, col);
        ghost var d;
        var j;
        j, d := Probe(hashvalue, col);
        if hashtable[j] != -1 {
          // the extended string has a code
          Follow(hashtable[j], col);
        } else {
          // it has none yet
          forall n: nat | n < |e|
            ensures Entry(f, e + [tail], n) != (tail, col)
          {
            ProbeMisses(f, e + [tail], dictTail[..], dictCol[..], hashtable[..], starts, slots, d, tail, col, n);
          }
          NewString(j, d, col);
        }
      }
    }

    /** The matched string grows by the pixel of a dictionary entry. */
    method Follow(code: nat, col: Byte)
      requires Apart() && WellFormed(f, cs) && lenstring > 1
      requires Pending(f, Epoch(f, cs), tail) && EntriesDiffer(f, Current())
      requires DictHolds(f, Current(), dictTail[..], dictCol[..])
      requires TableIndexes(f, Current(), hashtable[..], starts, slots)
      requires f.First() <= code < f.First() + |slots| && dictTail[code] == tail && dictCol[code] == col
      requires var s := Str(f, Current(), tail);
               pixels == Text(f, cs) + s && lenstring == |s| + 1 && hashvalue == HashOf(s + [col])
      modifies this`tail, this`pixels
      ensures Matching() && pixels == old(pixels) + [col]
    {
      ghost var e, n := Epoch(f, cs), code - f.First();
      assert Entry(f, e + [tail], n) == (tail, col as nat);
      FollowEntry(f, e, tail, n);
      KeepIndex(f, e, tail, code, dictTail[..], dictCol[..], hashtable[..], starts, slots);
      tail := code;
      pixels := pixels + [col];
    }

    /** Writes the code of the matched string and enters that string extended by col. */
    method NewString(j: nat, ghost d: nat, col: Byte)
      requires Writing() && col < f.colours && d < MAX_HASH
      requires Pending(f, Epoch(f, cs), tail) && EntriesDiffer(f, Current())
      requires DictHolds(f, Current(), dictTail[..], dictCol[..])
      requires TableIndexes(f, Current(), hashtable[..], starts, slots)
      requires var s := Str(f, Current(), tail); var start := HashOf(s + [col]);
               && pixels == Text(f, cs) + s
               && j == OA.Slot(MAX_HASH, start, d) && OA.Unbroken(Marks(f), hashtable[..], start, d)
      requires hashtable[j] == -1
      requires forall n: nat :: n < |Epoch(f, cs)| ==> Entry(f, Current(), n) != (tail, col)
      modifies this, w`fd, w`inx, w`codeSize, w`sent, w`stream, w.buf, dictTail, dictCol, hashtable
      ensures Valid() && pixels == old(pixels) + [col]
    {
      hide DictHolds, TableIndexes, EntriesDiffer, Str, Head, HashOf, Entry, WellFormed, Legal, Text, Frugal;
      hide StreamBits, NextFree, Width, Epoch, OA.Unbroken;
      ghost var k := |Epoch(f, cs)|;
      EmitTail();
      EnterEntry(j, d, col);
      CounterStep(f, k, w.codeSize, lastCode);
      if lastCode >= maxCode {
        // one more bit from the next code on
        maxCode := 2 * maxCode;
        w.codeSize := w.codeSize + 1;
      } else if lastCode >= MAX_DICT - 2 {
        ResetTables();
      }
    }

    /** Fills the next dictionary entry and starts matching again from col. */
    method EnterEntry(j: nat, ghost d: nat, col: Byte)
      requires Apart() && col < f.colours && d < MAX_HASH && j < MAX_HASH
      requires WellFormed(f, cs) && Legal(f, Epoch(f, cs))
      requires var e := Epoch(f, cs);
               && e != [] && Last(e) == tail && EntriesDiffer(f, e)
               && lastCode + 1 == f.First() + |e| - 1 < MAX_DICT
               && DictHolds(f, e, dictTail[..], dictCol[..])
               && TableIndexes(f, e, hashtable[..], starts, slots)
               && pixels == Text(f, cs)
               && (forall n: nat :: n < |e| - 1 ==> Entry(f, e, n) != (tail, col))
               && var start := HashOf(Str(f, e, tail) + [col]);
                  j == OA.Slot(MAX_HASH, start, d) && OA.Unbroken(Marks(f), hashtable[..], start, d)
      requires hashtable[j] == -1
      modifies this`tail, this`hashvalue, this`lenstring, this`lastCode
      modifies this`pixels, this`starts, this`slots, dictTail, dictCol, hashtable
      ensures Matching() && pixels == old(pixels) + [col]
      ensures lastCode == old(lastCode) + 1 && lenstring == 1 && tail == col
    {
      hide DictHolds, TableIndexes, EntriesDiffer, Str, HashOf, Entry, WellFormed, Text, Mix, OA.Slot, OA.Unbroken;
      hide WidthFor;
      ghost var e, start := Epoch(f, cs), HashOf(Str(f, Epoch(f, cs), tail) + [col]);
      lastCode := lastCode + 1;
      GrowDict(f, e, col, dictTail[..], dictCol[..], lastCode);
      GrowTable(f, e, col, hashtable[..], starts, slots, start, d, j, lastCode);
      OnePixel(f, e, col);
      StoreEntry(j, col);
      starts, slots := starts + [start], slots + [j];
      tail := col;
      hashvalue := (col + 3) * 301;
      lenstring := 1;
      pixels := pixels + [col];
    }

    /** Puts (tail, col) into the dictionary under lastCode, and a pointer to it into slot j. */
    method StoreEntry(j: nat, col: Byte)
      requires Apart() && lastCode < MAX_DICT && j < MAX_HASH
      modifies dictTail, dictCol, hashtable
      ensures dictTail[..] == old(dictTail[..])[lastCode := tail] && dictCol[..] == old(dictCol[..])[lastCode := col]
      ensures hashtable[..] == old(hashtable[..])[j := lastCode]
    {
      hashtable[j] := lastCode;
      dictTail[lastCode] := tail;
      dictCol[lastCode] := col;
    }

    /** Writes out the one matched pixel and a clear code, and empties the dictionary. */
    method ResetTables()
      requires Apart() && w.Valid() && f.Valid() && lenstring == 1
      requires cs != [] && WellFormed(f, cs) && Frugal(f, cs)
      requires w.stream == StreamBits(f, cs) && w.codeSize == Width(f, |Epoch(f, cs)|) == 12
      requires Matching() && Epoch(f, cs) != [] && NextFree(f, |Epoch(f, cs)|) == MAX_DICT - 2
      modifies this, w`fd, w`inx, w`codeSize, w`sent, w`stream, w.buf, hashtable
      ensures Valid() && pixels == old(pixels)
    {
      hide DictHolds, TableIndexes, EntriesDiffer, Str, Head, HashOf, Entry, Text, StreamBits, Legal, WellFormed;
      hide Frugal, LowBits, WidthFor, Holds, ClearFrom, FullBlocks;
      WriteClear();
      lenstring := 0;
      lastCode := f.Eoi();
      w.codeSize := f.initSize;
      maxCode := Pow2(f.initSize);
      WidthStart(f);
      ClearHashtable();
      starts, slots := [], [];
    }

    /** Writes out the one matched pixel and a clear code. */
    method WriteClear()
      requires Apart() && w.Valid() && f.Valid() && WellFormed(f, cs) && Frugal(f, cs) && cs != []
      requires w.stream == StreamBits(f, cs) && w.codeSize == Width(f, |Epoch(f, cs)|) == 12
      requires Pending(f, Epoch(f, cs), tail) && EntriesDiffer(f, Current()) && tail < f.colours
      requires Epoch(f, cs) != [] && NextFree(f, |Epoch(f, cs)|) == MAX_DICT - 2
      modifies this`cs, w`fd, w`inx, w`sent, w`stream, w.buf
      ensures w.Valid() && cs != [] && WellFormed(f, cs) && Frugal(f, cs) && Epoch(f, cs) == []
      ensures Text(f, cs) == Text(f, old(cs)) + Str(f, old(Current()), tail)
      ensures w.stream == StreamBits(f, cs)
    {
      hide EntriesDiffer, Str, Text, StreamBits, Legal, WellFormed, Frugal, LowBits, WidthFor;
      hide WriteContext.Valid;
      EmitTail();
      WidthStep(f, |Epoch(f, cs)| - 1);
      CodeFits(f, |Epoch(f, cs)|, f.clear);
      w.WriteCode(f.clear);
      EndEpoch(f, cs);
      cs := cs + [f.clear];
    }

    /** Empties the hash table. */
    method ClearHashtable()
      requires hashtable.Length == MAX_HASH
      modifies hashtable
      ensures forall k :: 0 <= k < MAX_HASH ==> hashtable[k] == -1
    {
      for i := 0 to MAX_HASH
        invariant forall k :: 0 <= k < i ==> hashtable[k] == -1
      {
        hashtable[i] := -1;
      }
    }

    /** Writes the code of the matched string. */
    method EmitTail()
      requires Apart() && w.Valid() && WellFormed(f, cs) && Frugal(f, cs) && cs != []
      requires w.stream == StreamBits(f, cs) && w.codeSize == Width(f, |Epoch(f, cs)|)
      requires Pending(f, Epoch(f, cs), tail) && EntriesDiffer(f, Current())
      requires f.First() + |Epoch(f, cs)| < MAX_DICT
      modifies this`cs, w`fd, w`inx, w`sent, w`stream, w.buf
      ensures w.Valid() && WellFormed(f, cs) && Frugal(f, cs) && cs == old(cs) + [tail]
      ensures Epoch(f, cs) == old(Current())
      ensures Text(f, cs) == Text(f, old(cs)) + Str(f, old(Current()), tail)
      ensures w.stream == StreamBits(f, cs)
    {
      CodeFits(f, |Epoch(f, cs)|, tail);
      w.WriteCode(tail);
      Snoc(f, cs, tail);
      assert Init(cs + [tail]) == cs;
      cs := cs + [tail];
    }

    /** Writes what is still matched, the end code and the last block. */
    method Finish() returns (ghost payload: seq<Byte>)
      requires Valid()
      modifies this`cs, this`lastCode, w`fd, w`inx, w`codeSize, w`sent, w`stream, w.buf
      ensures WellFormed(f, cs) && Frugal(f, cs) && Text(f, cs) == pixels
      ensures cs != [] && f.First() + |Epoch(f, cs)| < MAX_DICT
      ensures Framed(w.fd, w.header, payload)
      ensures Carries(payload, StreamBits(f, cs) + LowBits(f.Eoi(), Width(f, |Epoch(f, cs)|)))
    {
      hide DictHolds, TableIndexes, EntriesDiffer, Str, Head, HashOf, Entry, StreamBits, Text, Legal, WellFormed;
      hide Frugal, LowBits, WidthFor, Framed;
      if lenstring != 0 {
        ghost var k := |Epoch(f, cs)|;
        EmitTail();
        lastCode := lastCode + 1;
        CounterStep(f, k, w.codeSize, lastCode);
        if lastCode >= maxCode {
          // one more bit for the end code
          w.codeSize := w.codeSize + 1;
        }
      }
      CodeFits(f, |Epoch(f, cs)|, f.Eoi());
      w.WriteCode(f.Eoi());
      payload := w.FlushCode();
    }
  }
}
