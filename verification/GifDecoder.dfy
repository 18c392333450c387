/** The LZW decoder of gbmgif.c. It rebuilds the dictionary one entry behind the encoder. */
module GifDecoder {
  import opened Bits
  import opened GifBlocks
  import opened LzwStream
  import opened GifOutput

  /** All the bits of a stream: its codes and the end of information code. */
  ghost function WholeBits(f: Format, cs: seq<nat>): seq<bool> {
    StreamBits(f, cs) + LowBits(f.Eoi(), Width(f, |Epoch(f, cs)|))
  }

  /** What reading returns when the blocks hold too few bits. */
  const NO_CODE := 0xffff

  /** The payload starts with the codes of a stream and goes on with the end code, or ends there. */
  ghost predicate Delivers(payload: seq<Byte>, f: Format, cs: seq<nat>, end: nat) {
    && StartsWith(payload, StreamBits(f, cs))
    && if end == f.Eoi() then StartsWith(payload, WholeBits(f, cs))
       else end == NO_CODE && 8 * |payload| < |StreamBits(f, cs)| + Width(f, |Epoch(f, cs)|)
  }

  /** The i-th code of the stream; after the codes comes its end. */
  ghost function CodeAt(cs: seq<nat>, end: nat, i: nat): nat
    requires i <= |cs|
  {
    if i < |cs| then cs[i] else end
  }

  ghost function WidthAt(f: Format, cs: seq<nat>, i: nat): nat
    requires i <= |cs|
  {
    Width(f, |Epoch(f, cs[..i])|)
  }

  /** The bits of code i sit right after those of the codes before it, and the code fits its width. */
  lemma {:induction false} CodeBits(f: Format, cs: seq<nat>, i: nat)
    requires WellFormed(f, cs) && i <= |cs|
    ensures var bits := StreamBits(f, cs[..i]) + LowBits(CodeAt(cs, f.Eoi(), i), WidthAt(f, cs, i));
            bits <= if i < |cs| then StreamBits(f, cs) else WholeBits(f, cs)
    ensures CodeAt(cs, f.Eoi(), i) < Pow2(WidthAt(f, cs, i)) && 1 <= WidthAt(f, cs, i) <= 12
  {
    WidthStep(f, |Epoch(f, cs[..i])|);
    if i == |cs| {
      assert cs[..i] == cs;
      CodeFits(f, |Epoch(f, cs)|, f.Eoi());
    } else {
      PrefixWellFormed(f, cs, i);
      PrefixWellFormed(f, cs, i + 1);
      assert Init(cs[..i + 1]) == cs[..i] && Last(cs[..i + 1]) == cs[i];
      CodeFits(f, |Epoch(f, cs[..i])|, cs[i]);
    }
  }

  /** A number read at the position of code i with its width is code i. */
  lemma ReadIsCode(f: Format, cs: seq<nat>, end: nat, i: nat, payload: seq<Byte>, code: nat)
    requires WellFormed(f, cs) && i <= |cs| && Delivers(payload, f, cs, end)
    requires var pos, w := |StreamBits(f, cs[..i])|, WidthAt(f, cs, i);
             if pos + w <= 8 * |payload| then
               && code < Pow2(w)
               && forall k: nat {:trigger Bit(code, k)} :: k < w ==> Bit(code, k) == BitAt(payload, pos + k)
             else code == NO_CODE
    ensures code == CodeAt(cs, end, i)
    ensures code != NO_CODE ==> |StreamBits(f, cs[..i])| + WidthAt(f, cs, i) <= 8 * |payload|
  {
    hide StreamBits, WholeBits, WellFormed, Epoch, Width;
    assert i == |cs| ==> cs[..i] == cs;
    if i < |cs| || end == f.Eoi() {
      CodeBits(f, cs, i);
      SameCode(StreamBits(f, cs[..i]), CodeAt(cs, f.Eoi(), i), WidthAt(f, cs, i),
               if i < |cs| then StreamBits(f, cs) else WholeBits(f, cs), payload, code);
    }
  }

  /** The arrays hold the dictionary of the epoch, as far as it is complete. */
  ghost predicate TableHolds(f: Format, e: seq<nat>, prefix: seq<nat>, suffix: seq<nat>)
    requires Legal(f, e)
  {
    && |prefix| == |suffix| == MAX_CODES
    && forall n: nat :: n < |e| - 1 && f.First() + n < MAX_CODES ==>
         prefix[f.First() + n] == Entry(f, e, n).0 && suffix[f.First() + n] == Entry(f, e, n).1
  }

  /** The string of a defined code is that of its prefix code and its suffix pixel. */
  lemma {:induction false} Unlink(f: Format, e: seq<nat>, c: nat, prefix: seq<nat>, suffix: seq<nat>, d: nat)
    requires Legal(f, e) && TableHolds(f, e, prefix, suffix) && Pending(f, e, c)
    requires f.First() <= d < f.First() + |e| - 1 && d < MAX_CODES
    ensures var p := prefix[d];
            && p == e[d - f.First()] && (p < f.colours || f.First() <= p < d)
            && Str(f, e + [c], d) == Str(f, e + [c], p) + [suffix[d]]
  {
    var n := d - f.First();
    assert Entry(f, e, n) == (prefix[d], suffix[d]);
    HeadPrefix(f, e, e + [c], e[n + 1]);
    assert d >= f.colours;
    assert (e + [c])[n] == e[n] && (e + [c])[n + 1] == e[n + 1];
  }

  /** The code that is not in the table yet spells the previous string and its own first pixel. */
  lemma NotYetDefined(f: Format, e: seq<nat>, c: nat)
    requires Pending(f, e, c) && e != [] && c == f.First() + |e| - 1
    ensures c >= f.colours
    ensures Last(e) < f.colours || f.First() <= Last(e) < c
    ensures Str(f, e + [c], c) == Str(f, e + [c], Last(e)) + [Head(f, e, Last(e))]
    ensures Head(f, e + [c], c) == Head(f, e, Last(e))
  {
    var e' := e + [c];
    assert e'[|e| - 1] == Last(e) && e'[|e|] == c;
    HeadPrefix(f, e, e', Last(e));
    assert Str(f, e', c) == Str(f, e', e'[|e| - 1]) + [Head(f, e', e'[|e|])];
  }

  lemma {:induction false} TableGrows(f: Format, e: seq<nat>, c: nat, prefix: seq<nat>, suffix: seq<nat>, code: nat)
    requires Pending(f, e, c) && TableHolds(f, e, prefix, suffix)
    requires e != [] && code == f.First() + |e| - 1
    ensures code < MAX_CODES ==>
              TableHolds(f, e + [c], prefix[code := Last(e)], suffix[code := Head(f, e + [c], c)])
    ensures code >= MAX_CODES ==> TableHolds(f, e + [c], prefix, suffix)
  {
    forall n: nat | n < |e| - 1
      ensures Entry(f, e + [c], n) == Entry(f, e, n)
    {
      HeadPrefix(f, e, e + [c], e[n + 1]);
    }
  }

  function Reversed(s: seq<nat>): (r: seq<nat>)
    ensures |r| == |s|
  {
    if s == [] then [] else [s[|s| - 1]] + Reversed(s[..|s| - 1])
  }

  lemma ReversedSnoc(s: seq<nat>, v: nat)
    ensures Reversed(s + [v]) == [v] + Reversed(s)
  {
    assert (s + [v])[..|s|] == s;
  }

  lemma MaskKeeps(v: nat, n: nat)
    requires v < Pow2(n)
    ensures And(v, Pow2(n) - 1) == v
  {
    forall i: nat | i < n
      ensures Bit(And(v, Pow2(n) - 1), i) == Bit(v, i)
    {
      BitOfAnd(v, Pow2(n) - 1, i);
      BitOfMask(n, i);
    }
    AndBound(v, Pow2(n) - 1);
    SameBits(And(v, Pow2(n) - 1), v, n);
  }

  /** The numbers of the stream, from the colour depth and the minimum code size in the file. Pixels
      are below both powers of 2. */
  function FormatOf(bits: nat, minSize: nat): Format {
    Format(Pow2(if bits < minSize then bits else minSize), Pow2(minSize), minSize + 1)
  }

  lemma FormatValid(bits: nat, minSize: nat)
    requires 2 <= minSize <= 9
    ensures FormatOf(bits, minSize).Valid()
  {
    Pow2Monotone(if bits < minSize then bits else minSize, minSize);
    Pow2Monotone(2, minSize);
    Pow2Monotone(minSize, 9);
    Pow2Table();
  }

  /** The reader takes codes below `limit` for pixels. There are as many colours, or it is beyond the
      clear and the end code. */
  ghost predicate Limits(f: Format, limit: nat) {
    f.colours == limit || (f.colours == f.clear && f.Eoi() < limit)
  }

  lemma FormatLimits(bits: nat, minSize: nat)
    requires 2 <= minSize
    ensures Limits(FormatOf(bits, minSize), Pow2(bits)) && FormatOf(bits, minSize).colours <= Pow2(bits)
    ensures FormatOf(bits, minSize).clear < Pow2(bits) <==> minSize < bits
  {
    if minSize < bits {
      Pow2Monotone(minSize + 1, bits);
      Pow2Monotone(2, minSize);
      Pow2Table();
    } else {
      Pow2Monotone(bits, minSize);
    }
  }

  // ---- codes taken for pixels ----

  /** Where the way from code c through the prefixes ends that stops at codes below `limit`. */
  ghost function Stop(f: Format, e: seq<nat>, c: nat, limit: nat): (s: nat)
    requires Legal(f, e) && f.colours <= limit && (c < f.colours || f.First() <= c < f.First() + |e|)
    ensures s < limit && s <= c
    ensures s < f.colours || f.First() <= s < f.First() + |e|
    decreases c
  {
    if c < limit then c else Stop(f, e, e[c - f.First()], limit)
  }

  /** The reader starts that way at the previous code if this one is not in its table yet. */
  ghost function WalkFrom(f: Format, e: seq<nat>, c: nat): nat
    requires e != []
  {
    if c >= NextFree(f, |e|) then Last(e) else c
  }

  /** The code that is drawn as the first pixel of code c. */
  ghost function StopFor(f: Format, e: seq<nat>, c: nat, limit: nat): (s: nat)
    requires Pending(f, e, c) && e != [] && c < MAX_CODES && f.colours <= limit
    ensures s < limit && (s < f.colours || f.First() <= s)
  {
    Walkable(f, e, c);
    Stop(f, e, WalkFrom(f, e, c), limit)
  }

  /** The code that is drawn as the first pixel of code i. */
  ghost function StopAt(f: Format, cs: seq<nat>, limit: nat, i: nat): (s: nat)
    requires WellFormed(f, cs) && i < |cs| && cs[i] != f.clear && Epoch(f, cs[..i]) != [] && f.colours <= limit
    ensures s < limit && (s < f.colours || f.First() <= s)
  {
    AtString(f, cs, i);
    StopFor(f, Epoch(f, cs[..i]), cs[i], limit)
  }

  /** Code i is drawn with a table code for its first pixel. */
  ghost predicate Strays(f: Format, cs: seq<nat>, limit: nat, i: nat)
    requires WellFormed(f, cs) && f.colours <= limit
  {
    i < |cs| && cs[i] != f.clear && Epoch(f, cs[..i]) != [] && StopAt(f, cs, limit, i) >= f.colours
  }

  /** Code i of the stream comes right after a clear code and is a clear code or the end code. */
  ghost predicate Broken(f: Format, cs: seq<nat>, end: nat, i: nat) {
    0 < i <= |cs| && cs[i - 1] == f.clear && (CodeAt(cs, end, i) == f.clear || CodeAt(cs, end, i) == f.Eoi())
  }

  /** Code i is not read for what it is. */
  ghost predicate Misread(f: Format, cs: seq<nat>, end: nat, limit: nat, i: nat)
    requires WellFormed(f, cs) && f.colours <= limit
  {
    Broken(f, cs, end, i) || Strays(f, cs, limit, i)
  }

  /** What a clear code does. */
  lemma AfterClear(f: Format, cs: seq<nat>, i: nat)
    requires WellFormed(f, cs) && 0 < i <= |cs| && cs[i - 1] == f.clear
    ensures WellFormed(f, cs[..i - 1]) && WellFormed(f, cs[..i])
    ensures Epoch(f, cs[..i]) == [] && WidthAt(f, cs, i) == f.initSize
    ensures Text(f, cs[..i]) == Text(f, cs[..i - 1])
  {
    PrefixWellFormed(f, cs, i - 1);
    PrefixWellFormed(f, cs, i);
    assert Init(cs[..i]) == cs[..i - 1] && Last(cs[..i]) == f.clear;
    WidthStart(f);
  }

  /** What the pixel after a clear code does. */
  lemma {:induction false} FirstOfEpoch(f: Format, cs: seq<nat>, i: nat, prefix: seq<nat>, suffix: seq<nat>)
    requires WellFormed(f, cs) && 0 < i < |cs| && cs[i - 1] == f.clear != cs[i]
    requires |prefix| == |suffix| == MAX_CODES
    ensures cs[i] < f.colours && WidthAt(f, cs, i + 1) == f.initSize == Width(f, 1)
    ensures WellFormed(f, cs[..i]) && WellFormed(f, cs[..i + 1])
    ensures Epoch(f, cs[..i + 1]) == [cs[i]] && Legal(f, [cs[i]])
    ensures Text(f, cs[..i + 1]) == Text(f, cs[..i]) + [cs[i]]
    ensures TableHolds(f, [cs[i]], prefix, suffix) && Head(f, [cs[i]], cs[i]) == cs[i]
  {
    AfterClear(f, cs, i);
    PrefixWellFormed(f, cs, i + 1);
    assert Init(cs[..i + 1]) == cs[..i] && Last(cs[..i + 1]) == cs[i];
    WidthStart(f);
  }

  /** What any other code does. */
  lemma AtString(f: Format, cs: seq<nat>, i: nat)
    requires WellFormed(f, cs) && i < |cs| && cs[i] != f.clear
    ensures i > 0 && WellFormed(f, cs[..i]) && WellFormed(f, cs[..i + 1])
    ensures Pending(f, Epoch(f, cs[..i]), cs[i]) && Epoch(f, cs[..i + 1]) == Epoch(f, cs[..i]) + [cs[i]]
    ensures Text(f, cs[..i + 1]) == Text(f, cs[..i]) + Str(f, Epoch(f, cs[..i + 1]), cs[i])
    ensures cs[i] < MAX_CODES
  {
    PrefixWellFormed(f, cs, i);
    PrefixWellFormed(f, cs, i + 1);
    EpochLegal(f, cs[..i]);
    assert Init(cs[..i + 1]) == cs[..i] && Last(cs[..i + 1]) == cs[i];
  }

  lemma {:induction false} StrPixels(f: Format, e: seq<nat>, c: nat)
    requires Legal(f, e) && (c < f.colours || f.First() <= c < f.First() + |e| - 1)
    ensures forall v :: v in Str(f, e, c) ==> v < f.colours
    decreases c
  {
    if c >= f.colours {
      StrPixels(f, e, e[c - f.First()]);
      HeadPixel(f, e, e[c - f.First() + 1]);
    }
  }

  /** The code the reader starts at is one it has. */
  lemma Walkable(f: Format, e: seq<nat>, c: nat)
    requires Pending(f, e, c) && e != [] && c < MAX_CODES
    ensures var w := WalkFrom(f, e, c); w < f.colours || f.First() <= w < f.First() + |e| - 1
    ensures c >= NextFree(f, |e|) ==> c == f.First() + |e| - 1
  {
  }

  lemma StopStep(f: Format, e: seq<nat>, c: nat, limit: nat)
    requires Legal(f, e) && f.colours <= limit && (c < f.colours || f.First() <= c < f.First() + |e|)
    ensures Stop(f, e, c, limit) == if c < limit then c else Stop(f, e, e[c - f.First()], limit)
  {
  }

  lemma PixelCode(f: Format, e: seq<nat>, c: nat)
    requires Legal(f, e) && c < f.colours
    ensures Str(f, e, c) == [c] && Head(f, e, c) == c
  {
  }

  lemma HeadOfStr(f: Format, e: seq<nat>, c: nat)
    requires Legal(f, e) && (c < f.colours || f.First() <= c < f.First() + |e| - 1)
    ensures Str(f, e, c)[0] == Head(f, e, c)
  {
  }

  lemma {:induction false} HeadPixel(f: Format, e: seq<nat>, c: nat)
    requires Legal(f, e) && (c < f.colours || f.First() <= c < f.First() + |e|)
    ensures Head(f, e, c) < f.colours
    decreases c
  {
    if c >= f.colours {
      HeadPixel(f, e, e[c - f.First()]);
    }
  }

  /** How the next free code and the width go on after k codes of an epoch. */
  lemma FreeStep(f: Format, k: nat)
    requires f.Valid() && k >= 1
    ensures var free, w, w' := NextFree(f, k), Width(f, k), Width(f, k + 1);
            && 1 <= w <= 12 && 1 <= Pow2(w')
            && free == (if f.First() + k - 1 < MAX_CODES then f.First() + k - 1 else MAX_CODES)
            && if free == MAX_CODES then NextFree(f, k + 1) == MAX_CODES && w' == w
               else
                 && NextFree(f, k + 1) == free + 1
                 && if free + 1 >= Pow2(w) && w < 12 then w' == w + 1 && Pow2(w') == 2 * Pow2(w) && free + 1 < MAX_CODES
                    else w' == w && (free + 1 >= Pow2(w) <==> free + 1 == MAX_CODES)
  {
    hide Width;
    WidthStep(f, k);
    Pow2Table();
    if Width(f, k) < 12 {
      Pow2Monotone(Width(f, k), 11);
    }
    WidthIs(f, k);
  }

  lemma WidthIs(f: Format, k: nat)
    requires f.Valid()
    ensures Width(f, k) == 12 || NextFree(f, k) < Pow2(Width(f, k))
    ensures 1 <= Pow2(Width(f, k)) && 1 <= Pow2(Width(f, k + 1))
  {
    WidthForRange(f.initSize, NextFree(f, k));
    Pow2Monotone(Width(f, k), Width(f, k));
    Pow2Monotone(Width(f, k + 1), Width(f, k + 1));
  }

  lemma NothingRead(f: Format, cs: seq<nat>, prefix: seq<nat>, suffix: seq<nat>)
    requires WellFormed(f, cs) && |prefix| == |suffix| == MAX_CODES
    ensures WellFormed(f, cs[..0]) && Epoch(f, cs[..0]) == [] && Legal(f, [])
    ensures Text(f, cs[..0]) == [] && StreamBits(f, cs[..0]) == [] && WidthAt(f, cs, 0) == f.initSize
    ensures TableHolds(f, [], prefix, suffix)
  {
    WidthStart(f);
  }

  class Decoder {
    const f: Format
    const bits: nat  // of a pixel in the file
    const c: ReadContext
    const o: OutputContext
    const prefix: array<nat>
    const suffix: array<nat>
    const outcode: array<nat>
    var freeCode: nat
    var maxCode: nat
    var oldCode: nat
    var finChar: nat
    var outCount: nat
    var tableFull: bool

    ghost const cs: seq<nat>  // the codes of the stream
    ghost const end: nat      // what comes after them: the end code, or nothing
    ghost var i: nat          // how many of them have been read

    ghost predicate Apart()
      reads this
    {
      && prefix != suffix && prefix != outcode && suffix != outcode
      && c.buf as object != o.data && c.buf as object != prefix && c.buf as object != suffix &&
        c.buf as object != outcode
      && o.data as object != prefix && o.data as object != suffix && o.data as object != outcode
      && c.buf != o.data
      && prefix.Length == suffix.Length == MAX_CODES && outcode.Length == MAX_CODES + 1
    }

    /** The reader stands at code i. */
    ghost predicate Synced()
      reads this, c, c.buf
    {
      && c.Valid() && WellFormed(f, cs) && i <= |cs|
      && Delivers(c.payload, f, cs, end) && (end == f.Eoi() || end == NO_CODE)
      && c.Pos() == |StreamBits(f, cs[..i])|
      && c.codeSize == WidthAt(f, cs, i) && c.readMask == Pow2(c.codeSize) - 1
    }

    ghost function E(): seq<nat>
      reads this
      requires i <= |cs|
    {
      Epoch(f, cs[..i])
    }

    /** The table and the counters are those of the epoch so far. */
    ghost predicate Tabled()
      reads this, prefix, suffix, c`codeSize
      requires Apart() && i <= |cs| && WellFormed(f, cs)
    {
      PrefixWellFormed(f, cs, i);
      EpochLegal(f, cs[..i]);
      && (i == 0 || E() != [])
      && TableHolds(f, E(), prefix[..], suffix[..])
      && freeCode == NextFree(f, |E()|)
      && (tableFull <==> freeCode == MAX_CODES)
      && maxCode == Pow2(c.codeSize)
      && outCount == 0
      && (E() != [] ==> oldCode == Last(E()) && finChar == Head(f, E(), Last(E())))
    }

    /** What has been drawn is what the codes read so far spell, clipped to the image. */
    ghost predicate Drawing()
      reads this, o, o.data
      requires i <= |cs| && WellFormed(f, cs)
    {
      PrefixWellFormed(f, cs, i);
      && f.colours <= Pow2(bits) && Limits(f, Pow2(bits)) && bits <= o.shape.bpp
      && o.Valid()
      && o.drawn <= Text(f, cs[..i])
      && (o.y < o.shape.h ==> o.drawn == Text(f, cs[..i]))
    }

    ghost predicate Valid()
      reads this, c, c.buf, o, o.data, prefix, suffix
    {
      && Apart() && Synced() && Tabled() && Drawing()
    }

    constructor (bits: nat, minSize: nat, fd: seq<Byte>, o: OutputContext, ghost cs: seq<nat>, ghost end: nat)
      requires 1 <= bits <= o.shape.bpp && 2 <= minSize <= 9
      requires o.Valid() && o.drawn == [] && fd != []
      requires var f := FormatOf(bits, minSize);
               WellFormed(f, cs) && Delivers(Deblock(fd[1..]), f, cs, end)
      ensures Valid() && i == 0 && this.o == o && this.cs == cs && this.end == end && this.bits == bits
      ensures f == FormatOf(bits, minSize)
      ensures fresh(c) && fresh(c.buf) && fresh(prefix) && fresh(suffix) && fresh(outcode)
    {
      hide Shl, ReadContext.Valid, WellFormed, Delivers, Deblock, OutputContext.Valid, Valid;
      f, this.bits, this.o, this.cs, this.end := FormatOf(bits, minSize), bits, o, cs, end;
      c := new ReadContext(fd, 1, minSize + 1);
      prefix, suffix, outcode := new nat[MAX_CODES], new nat[MAX_CODES], new nat[MAX_CODES + 1];
      freeCode, maxCode := Pow2(minSize) + 2, Pow2(minSize + 1);
      oldCode, finChar, outCount, tableFull, i := 0, 0, 0, false, 0;
      new;
      FormatValid(bits, minSize);
      FormatLimits(bits, minSize);
      Pow2Monotone(minSize + 1, minSize + 1);
      Initially();
    }

    /** Before anything is read the table is empty and nothing is drawn. */
    lemma Initially()
      requires Apart() && WellFormed(f, cs) && Delivers(c.payload, f, cs, end) && f.initSize <= 12
      requires c.Valid() && c.Pos() == 0 && c.codeSize == f.initSize && c.readMask == Pow2(c.codeSize) - 1
      requires i == 0 && freeCode == f.First() && maxCode == Pow2(c.codeSize) && outCount == 0 && !tableFull
      requires f.colours <= Pow2(bits) && Limits(f, Pow2(bits)) && bits <= o.shape.bpp
      requires o.Valid() && o.drawn == []
      ensures Valid()
    {
      hide StreamBits, Epoch, Width, TableHolds, WellFormed, Text, OutputContext.Valid, ReadContext.Valid, Shl;
      assert cs[..0] == [];
      FormatFacts(f, cs);
      NothingRead(f, cs, prefix[..], suffix[..]);
      assert end == f.Eoi() || end == NO_CODE;
    }

    /** Reads code i; the width for the next one is not yet adjusted. */
    method ReadNext() returns (code: nat)
      requires Synced()
      modifies c`off, c`inx, c`size, c`got, c`lost, c.buf
      ensures code == CodeAt(cs, end, i)
      ensures i < |cs| ==> c.Valid() && WellFormed(f, cs[..i + 1]) && c.Pos() == |StreamBits(f, cs[..i + 1])|
    {
      hide StreamBits, WidthAt, WellFormed, StartsWith, Delivers, CodeAt;
      CodeBits(f, cs, i);
      ghost var pos := c.Pos();
      code := c.ReadCode();
      ReadIsCode(f, cs, end, i, c.payload, code);
      if i < |cs| {
        EndCode(f, cs, end, i);
        NextPos(f, cs, i);
      }
    }

    /** Collects the string of a code in outcode, last pixel first; what stands for its first pixel is
        the code at which the reader stops. */
    method SpellCode(code: nat)
      requires Apart() && i <= |cs| && WellFormed(f, cs) && Tabled() && E() != []
      requires Pending(f, E(), code) && code < MAX_CODES && f.colours <= Pow2(bits)
      modifies this`finChar, this`outCount, outcode
      ensures 0 < outCount <= outcode.Length
      ensures finChar == StopFor(f, E(), code, Pow2(bits))
      ensures Reversed(outcode[..outCount])[0] == finChar
      ensures forall v :: v in Reversed(outcode[..outCount]) ==> v < Pow2(bits)
      ensures finChar < f.colours ==>
                Reversed(outcode[..outCount]) == Str(f, E() + [code], code) && finChar == Head(f, E() + [code], code)
    {
      hide WellFormed, Epoch, Reversed, And, Str, Head, Entry, TableHolds, Stop, NextFree;
      ghost var e := E();
      ghost var s := Str(f, e + [code], code);
      Walkable(f, e, code);
      ghost var stop := Stop(f, e, WalkFrom(f, e, code), Pow2(bits));
      Pow2Monotone(bits, bits);
      var bitMask := Pow2(bits) - 1;
      var cur: nat := code;
      EmptyReversed();
      assert s + [] == s && outcode[..0] == [];
      if cur >= freeCode {
        NotYetDefined(f, e, code);
        cur := oldCode;
        outcode[outCount] := finChar;
        outCount := outCount + 1;
        ReversedSnoc([], finChar);
        assert outcode[..1] == [] + [finChar] && [finChar] + [] == [finChar];
      }
      while cur > bitMask
        invariant outCount <= outcode.Length
        invariant cur < f.colours || (f.First() <= cur < f.First() + |e| - 1 && cur < MAX_CODES)
        invariant s == Str(f, e + [code], cur) + Reversed(outcode[..outCount])
        invariant Stop(f, e, cur, Pow2(bits)) == stop
        invariant unchanged(prefix, suffix)
        decreases cur
      {
        ghost var out := outcode[..outCount];
        if outCount > MAX_CODES {
          assert false;  // the C code reports a corrupt stream here
        }
        Unlink(f, e, code, prefix[..], suffix[..], cur);
        StopStep(f, e, cur, Pow2(bits));
        outcode[outCount] := suffix[cur];
        outCount := outCount + 1;
        ReversedSnoc(out, suffix[cur]);
        assert outcode[..outCount] == out + [suffix[cur]];
        Associate(Str(f, e + [code], prefix[cur]), [suffix[cur]], Reversed(out));
        cur := prefix[cur];
      }
      StopStep(f, e, cur, Pow2(bits));
      CollectLast(cur, e + [code], code);
    }

    /** Collects the code the reader stops at. */
    method CollectLast(cur: nat, ghost e: seq<nat>, ghost code: nat)
      requires outCount < outcode.Length && cur < Pow2(bits) && f.colours <= Pow2(bits)
      requires Legal(f, e) && (code < f.colours || f.First() <= code < f.First() + |e| - 1)
      requires cur < f.colours || f.First() <= cur < f.First() + |e| - 1
      requires Str(f, e, code) == Str(f, e, cur) + Reversed(outcode[..outCount])
      modifies this`finChar, this`outCount, outcode
      ensures finChar == cur && outCount == old(outCount) + 1
      ensures Reversed(outcode[..outCount])[0] == finChar
      ensures forall v :: v in Reversed(outcode[..outCount]) ==> v < Pow2(bits)
      ensures finChar < f.colours ==>
                Reversed(outcode[..outCount]) == Str(f, e, code) && finChar == Head(f, e, code)
    {
      hide Reversed, And, Str, Head, Entry, Shl, Legal;
      ghost var out := outcode[..outCount];
      ghost var s := Str(f, e, code);
      StrPixels(f, e, code);
      Pow2Monotone(bits, bits);
      MaskKeeps(cur, bits);
      finChar := And(cur, Pow2(bits) - 1);
      outcode[outCount] := finChar;
      outCount := outCount + 1;
      ReversedSnoc(out, finChar);
      assert outcode[..outCount] == out + [finChar];
      forall v | v in Reversed(out)
        ensures v < Pow2(bits)
      {
        assert v in s;
      }
      if finChar < f.colours {
        PixelCode(f, e, cur);
        HeadOfStr(f, e, code);
      }
    }

    /** Draws the collected pixels, the last one collected first. */
    method DrawOut(ghost base: seq<nat>)
      requires Apart() && o.Valid() && 0 < outCount <= outcode.Length && bits <= o.shape.bpp
      requires forall v :: v in Reversed(outcode[..outCount]) ==> v < Pow2(bits)
      requires o.drawn <= base && (o.y < o.shape.h ==> o.drawn == base)
      modifies this`outCount, o, o.data
      ensures o.Valid() && outCount == 0
      ensures var all := base + Reversed(old(outcode[..outCount]));
              && o.drawn <= all && (o.y < o.shape.h ==> o.drawn == all)
              && (old(o.y) < o.shape.h ==> |o.drawn| > |base|)
    {
      hide OutputContext.Valid;
      var n := outCount;
      outCount := 0;
      ghost var out := outcode[..n];
      ghost var s := Reversed(out);
      assert base + s[..0] == base;
      var k := n;
      while k > 0
        modifies o, o.data
        invariant k <= n && o.Valid() && outcode[..n] == out
        invariant o.drawn <= base + s[..n - k]
        invariant o.y < o.shape.h ==> o.drawn == base + s[..n - k]
        invariant old(o.y) < o.shape.h ==> if k == n then o.y < o.shape.h else |o.drawn| > |base|
        invariant outCount == 0
      {
        k := k - 1;
        assert outcode[k] == out[k];
        ReversedAt(out, n - 1 - k);
        OneMore(base, s, n - 1 - k);
        Pow2Monotone(bits, o.shape.bpp);
        o.Output(outcode[k]);
      }
      assert s[..n] == s;
    }

    /** Enters the previous code and the first pixel of this string as the next table entry. */
    method AddEntry(ghost code: nat)
      requires Apart() && TabledFor(code) && c.codeSize == Width(f, |E()|)
      modifies this`freeCode, this`maxCode, this`tableFull, c`codeSize, c`readMask, prefix, suffix
      ensures var e := E() + [code];
              && TableHolds(f, e, prefix[..], suffix[..]) && freeCode == NextFree(f, |e|)
              && (tableFull <==> freeCode == MAX_CODES)
      ensures c.codeSize == Width(f, |E()| + 1) && maxCode == Pow2(c.codeSize) && c.readMask == maxCode - 1
    {
      hide TableHolds, Entry, Head, Epoch, Width, NextFree, Shl, Legal;
      ghost var e := E();
      TableGrows(f, e, code, prefix[..], suffix[..], f.First() + |e| - 1);
      FreeStep(f, |e|);
      if !tableFull {
        StoreEntry();
        // the entry counts from now on
        freeCode := freeCode + 1;
        if freeCode >= maxCode {
          if c.codeSize < 12 {
            c.codeSize := c.codeSize + 1;
            maxCode := 2 * maxCode;
            c.readMask := Pow2(c.codeSize) - 1;
          } else {
            tableFull := true;
          }
        }
      }
    }

    method StoreEntry()
      requires Apart() && freeCode < MAX_CODES
      modifies prefix, suffix
      ensures prefix[..] == old(prefix[..])[freeCode := oldCode] && suffix[..] == old(suffix[..])[freeCode := finChar]
    {
      prefix[freeCode] := oldCode;
      suffix[freeCode] := finChar;
    }

    /** The table is that of the epoch so far; `finChar` is already the first pixel of the code read. */
    ghost predicate TabledFor(code: nat)
      reads this, prefix, suffix, c
      requires Apart()
    {
      && i <= |cs| && f.Valid() && Legal(f, E()) && Pending(f, E(), code) && E() != []
      && TableHolds(f, E(), prefix[..], suffix[..])
      && freeCode == NextFree(f, |E()|)
      && (tableFull <==> freeCode == MAX_CODES)
      && maxCode == Pow2(c.codeSize) && c.readMask == maxCode - 1
      && oldCode == Last(E()) && finChar == Head(f, E() + [code], code)
    }

    /** A clear code has been read: if a pixel follows, an epoch starts with it. */
    method NextEpoch() returns (code: nat)
      requires Apart() && WellFormed(f, cs) && i < |cs| && cs[i] == f.clear
      requires Delivers(c.payload, f, cs, end) && (end == f.Eoi() || end == NO_CODE)
      requires c.Valid() && WellFormed(f, cs[..i + 1]) && c.Pos() == |StreamBits(f, cs[..i + 1])|
      requires Tabled() && Drawing() && o.y < o.shape.h && !Broken(f, cs, end, i)
      modifies this`freeCode, this`maxCode, this`oldCode, this`finChar, this`tableFull, this`i
      modifies c`off, c`inx, c`size, c`got, c`lost, c`codeSize, c`readMask, c.buf, o, o.data
      ensures old(i) < i <= |cs| && !Misread(f, cs, end, Pow2(bits), old(i))
      ensures code < f.colours ==> Valid() && i == old(i) + 2 && !Broken(f, cs, end, i)
      ensures code < f.colours ==> !Misread(f, cs, end, Pow2(bits), old(i) + 1)
      ensures code >= f.colours ==> i == old(i) + 1 && WellFormed(f, cs[..i])
      ensures code >= f.colours && code != NO_CODE ==> Misread(f, cs, end, Pow2(bits), i)
      ensures code >= Pow2(bits) && code != NO_CODE ==> f.clear >= Pow2(bits)
      ensures code == NO_CODE ==> i == |cs| && end == NO_CODE && !Misread(f, cs, end, Pow2(bits), i)
      ensures code >= Pow2(bits) ==> Drawing() && o.y < o.shape.h
      ensures f.colours <= code < Pow2(bits) ==> DrewWrong()
    {
      hide StreamBits, Text, Epoch, Width, TableHolds, WholeBits, Delivers, Head, Str;
      hide OutputContext.Valid, ReadContext.Valid, WellFormed, Decoder.Valid, Strays;
      NotMisread(f, cs, end, Pow2(bits), i);
      NoneAtEnd(f, cs, Pow2(bits));
      i := i + 1;
      AfterClear(f, cs, i);
      code := ClearTable();
      EndCode(f, cs, end, i);
      FormatFacts(f, cs);
      if code < f.colours {
        StartEpoch(code);
      } else if code < Pow2(bits) {
        TakeForPixel(code);
      }
    }

    /** What has been drawn is what the codes read so far spell, and then a value that is no pixel. */
    ghost predicate DrewWrong()
      reads this, o, o.data
      requires i <= |cs| && WellFormed(f, cs)
    {
      PrefixWellFormed(f, cs, i);
      var t := Text(f, cs[..i]);
      o.Valid() && t < o.drawn && o.drawn[|t|] >= f.clear
    }

    /** A clear or end code that comes after a clear code and is below the limit is drawn as a pixel. */
    method TakeForPixel(code: nat)
      requires Apart() && WellFormed(f, cs) && i <= |cs| && f.clear <= code < Pow2(bits)
      requires Drawing() && o.y < o.shape.h
      modifies this`oldCode, this`finChar, this`tableFull, o, o.data
      ensures DrewWrong()
    {
      hide Text, WellFormed, And, OutputContext.Valid, Shl;
      oldCode := code;
      Pow2Monotone(bits, bits);
      MaskKeeps(code, bits);
      finChar := And(code, Pow2(bits) - 1);
      Pow2Monotone(bits, o.shape.bpp);
      o.Output(finChar);
      tableFull := false;
    }

    /** A clear code has been read: resets the table and the width, and reads the code after it. */
    method ClearTable() returns (code: nat)
      requires Apart() && WellFormed(f, cs) && 0 < i <= |cs| && cs[i - 1] == f.clear
      requires Delivers(c.payload, f, cs, end) && (end == f.Eoi() || end == NO_CODE)
      requires c.Valid() && c.Pos() == |StreamBits(f, cs[..i])|
      modifies this`freeCode, this`maxCode
      modifies c`off, c`inx, c`size, c`got, c`lost, c`codeSize, c`readMask, c.buf
      ensures code == CodeAt(cs, end, i)
      ensures c.codeSize == f.initSize && maxCode == Pow2(c.codeSize) && c.readMask == maxCode - 1
      ensures freeCode == f.First()
      ensures i < |cs| ==> c.Valid() && WellFormed(f, cs[..i + 1]) && c.Pos() == |StreamBits(f, cs[..i + 1])|
    {
      hide StreamBits, WellFormed, Epoch, Width, WholeBits, Delivers;
      AfterClear(f, cs, i);
      FormatFacts(f, cs);
      c.codeSize := f.initSize;
      maxCode := Pow2(c.codeSize);
      Pow2Monotone(c.codeSize, c.codeSize);
      c.readMask := maxCode - 1;
      freeCode := f.First();
      code := ReadNext();
    }

    /** Draws the first pixel of an epoch. */
    method StartEpoch(code: nat)
      requires Apart() && WellFormed(f, cs) && 0 < i < |cs| && cs[i - 1] == f.clear
      requires code == cs[i] != f.clear && Delivers(c.payload, f, cs, end) && (end == f.Eoi() || end == NO_CODE)
      requires c.Valid() && WellFormed(f, cs[..i + 1]) && c.Pos() == |StreamBits(f, cs[..i + 1])|
      requires c.codeSize == f.initSize && maxCode == Pow2(c.codeSize) && c.readMask == maxCode - 1
      requires freeCode == f.First() && outCount == 0 && Drawing() && o.y < o.shape.h
      modifies this`oldCode, this`finChar, this`tableFull, this`i, o, o.data
      ensures Valid() && i == old(i) + 1
    {
      hide StreamBits, WellFormed, Text, Epoch, Width, TableHolds, WholeBits, Delivers, Head, Str;
      hide And, OutputContext.Valid, ReadContext.Valid, Shl;
      FirstOfEpoch(f, cs, i, prefix[..], suffix[..]);
      FormatFacts(f, cs);
      oldCode := code;
      Pow2Monotone(bits, bits);
      var bitMask := Pow2(bits) - 1;
      MaskKeeps(code, bits);
      finChar := And(code, bitMask);
      Pow2Monotone(bits, o.shape.bpp);
      o.Output(finChar);
      tableFull := false;
      i := i + 1;
      assert Synced();
      assert Tabled();
      assert Drawing();
    }

    /** Any other code has been read: draws its string and adds a table entry. If a table code was drawn
        for its first pixel, the model goes no further. */
    method NextString(code: nat) returns (stray: bool)
      requires Apart() && WellFormed(f, cs) && i < |cs| && cs[i] == code != f.clear
      requires Delivers(c.payload, f, cs, end) && (end == f.Eoi() || end == NO_CODE)
      requires c.Valid() && c.Pos() == |StreamBits(f, cs[..i + 1])|
      requires c.codeSize == WidthAt(f, cs, i) && c.readMask == Pow2(c.codeSize) - 1
      requires Tabled() && Drawing() && o.y < o.shape.h
      modifies this`freeCode, this`maxCode, this`oldCode, this`finChar, this`tableFull, this`i, this`outCount
      modifies c`codeSize, c`readMask, prefix, suffix, outcode, o, o.data
      ensures stray <==> Strays(f, cs, Pow2(bits), old(i))
      ensures !stray ==> Valid() && i == old(i) + 1
      ensures stray ==> i == old(i) && f.clear < Pow2(bits) && DrewWrong()
    {
      hide StreamBits, WellFormed, Text, Epoch, Width, TableHolds, WholeBits, Delivers, OutputContext.Valid, Head, Str;
      hide Stop;
      AtString(f, cs, i);
      FormatFacts(f, cs);
      ghost var e := E();
      SpellCode(code);
      ghost var out := Reversed(outcode[..outCount]);
      DrawOut(Text(f, cs[..i]));
      stray := finChar >= f.colours;
      if stray {
        assert (Text(f, cs[..i]) + out)[|Text(f, cs[..i])|] == out[0];
        return;
      }
      AddEntry(code);
      oldCode := code;
      i := i + 1;
    }

    /** Reads codes until the image is complete, the stream ends, or a code is misread. The C code goes on
        after drawing a code for a pixel; the model stops there and says so. */
    method Run(errok: bool) returns (rc: Status, stray: bool)
      requires Valid() && i == 0
      modifies this`freeCode, this`maxCode, this`oldCode, this`finChar, this`tableFull, this`i, this`outCount
      modifies c`off, c`inx, c`size, c`got, c`lost, c`codeSize, c`readMask, c.buf, prefix, suffix, outcode, o, o.data
      ensures o.Valid() && i <= |cs| && WellFormed(f, cs[..i]) && f.colours <= Pow2(bits)
      ensures forall j: nat :: j < i ==> !Misread(f, cs, end, Pow2(bits), j)
      ensures stray ==> Misread(f, cs, end, Pow2(bits), i) && f.clear < Pow2(bits) && DrewWrong()
      ensures !stray ==> o.drawn <= Text(f, cs[..i]) && (o.y < o.shape.h ==> o.drawn == Text(f, cs[..i]))
      ensures !stray && o.y >= o.shape.h ==> rc == Ok
      ensures !stray && o.y < o.shape.h ==>
                if Misread(f, cs, end, Pow2(bits), i) then
                  f.clear >= Pow2(bits) && rc == (if errok then Ok else Corrupt)
                else i == |cs| && rc == (if end == NO_CODE && !errok then ReadError else Ok)
    {
      hide StreamBits, Text, Epoch, Width, TableHolds, WholeBits, Delivers, Head, Str, Stop, StopAt;
      hide OutputContext.Valid, ReadContext.Valid, WellFormed, Tabled, Strays, WidthAt, StopFor;
      var code: nat := 0;
      stray := false;
      FormatFacts(f, cs);
      SmallDepth();
      NoneAtEnd(f, cs, Pow2(bits));
      while o.y < o.shape.h
        invariant Valid()
        invariant forall j: nat :: j < i ==> !Misread(f, cs, end, Pow2(bits), j)
        invariant !Broken(f, cs, end, i)
        decreases |cs| - i
      {
        code := ReadNext();
        EndCode(f, cs, end, i);
        if code == f.Eoi() || code == NO_CODE {
          break;
        }
        if code == f.clear {
          code := NextEpoch();
          if code == NO_CODE {
            break;
          }
          if code >= Pow2(bits) {
            return if errok then Ok else Corrupt, false;
          }
          if code >= f.colours {
            return Ok, true;
          }
        } else {
          stray := NextString(code);
          if stray {
            PrefixWellFormed(f, cs, i);
            return Ok, true;
          }
        }
      }
      PrefixWellFormed(f, cs, i);
      if o.y < o.shape.h && code == NO_CODE {
        return if errok then Ok else ReadError, false;
      }
      rc := Ok;
    }

    lemma SmallDepth()
      requires Valid()
      ensures f.colours <= Pow2(bits) <= 256 && Limits(f, Pow2(bits))
    {
      hide Shl;
      Pow2Monotone(bits, 8);
      Pow2Table();
    }
  }

  datatype Status = Ok | ReadError | BadCodeSize | Corrupt

  /** A clear code that does not follow another is read for what it is, and so is a pixel after it. */
  lemma NotMisread(f: Format, cs: seq<nat>, end: nat, limit: nat, k: nat)
    requires WellFormed(f, cs) && f.colours <= limit && k < |cs| && cs[k] == f.clear && !Broken(f, cs, end, k)
    ensures !Misread(f, cs, end, limit, k)
    ensures !Strays(f, cs, limit, k + 1)
  {
    AfterClear(f, cs, k + 1);
  }

  lemma NoneAtEnd(f: Format, cs: seq<nat>, limit: nat)
    requires WellFormed(f, cs) && f.colours <= limit
    ensures !Strays(f, cs, limit, |cs|)
  {
  }

  /** The end comes after all the codes and nowhere else. */
  lemma {:induction false} EndCode(f: Format, cs: seq<nat>, end: nat, i: nat)
    requires WellFormed(f, cs) && i <= |cs|
    ensures i < |cs| ==> CodeAt(cs, end, i) == cs[i] < MAX_CODES && cs[i] != f.Eoi()
    ensures 0 < i < |cs| && cs[i - 1] == f.clear ==> cs[i] == f.clear || cs[i] < f.colours
  {
    if i < |cs| {
      PrefixWellFormed(f, cs, i);
      PrefixWellFormed(f, cs, i + 1);
      assert Init(cs[..i + 1]) == cs[..i] && Last(cs[..i + 1]) == cs[i];
      if 0 < i && cs[i - 1] == f.clear {
        AfterClear(f, cs, i);
      }
    }
  }

  lemma FormatFacts(f: Format, cs: seq<nat>)
    requires WellFormed(f, cs)
    ensures f.Valid() && 1 <= f.initSize <= 12
  {
  }

  lemma OneMore(base: seq<nat>, s: seq<nat>, j: nat)
    requires j < |s|
    ensures base + s[..j + 1] == base + s[..j] + [s[j]] && s[j] in s
  {
  }

  lemma {:induction false} ReversedAt(s: seq<nat>, j: nat)
    requires j < |s|
    ensures Reversed(s)[j] == s[|s| - 1 - j]
  {
    if j != 0 {
      ReversedAt(s[..|s| - 1], j - 1);
    }
  }

  lemma EmptyReversed()
    ensures Reversed([]) == []
  {
  }

  lemma NextPos(f: Format, cs: seq<nat>, i: nat)
    requires WellFormed(f, cs) && i < |cs|
    ensures WellFormed(f, cs[..i + 1])
    ensures |StreamBits(f, cs[..i + 1])| == |StreamBits(f, cs[..i])| + WidthAt(f, cs, i)
  {
    PrefixWellFormed(f, cs, i + 1);
    assert Init(cs[..i + 1]) == cs[..i];
  }
}
