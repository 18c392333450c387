/** Writing and reading the image data of a GIF file: gif_w and gif_rdata end to end. */
module GifCodec {
  import opened Bits
  import opened Counting
  import opened GifBlocks
  import opened LzwStream
  import opened LzwUnique
  import opened GifImage
  import GifOutput
  import opened GifEncoder
  import opened GifDecoder

  /** The least code size from 2 on that has room for the colours. */
  function MinCodeSize(bpp: nat): (m: nat)
    ensures bpp >= 1 ==> 2 <= m && bpp <= m && (m == 2 || m == bpp)
  {
    if bpp == 1 then 2 else bpp
  }

  /** The file holds the minimum code size and then, in sub-blocks, a payload that carries the bits of
      the code stream. */
  ghost predicate Encodes(file: seq<Byte>, bpp: nat, cs: seq<nat>, payload: seq<Byte>) {
    && Depth(bpp)
    && var f := FormatOf(bpp, MinCodeSize(bpp));
       && WellFormed(f, cs)
       && file == [MinCodeSize(bpp)] + SubBlocks(payload)
       && Carries(payload, WholeBits(f, cs))
  }

  // ---- writing ----

  /** The pixel gif_w fetches when p is the byte that holds pixel x of the row. */
  method FetchPixel(data: array<Byte>, bpp: nat, p: nat, x: nat) returns (col: Byte)
    requires Depth(bpp) && p < data.Length
    ensures col == PixelIn(bpp, data[p], ShiftOf(bpp, x)) < Pow2(bpp)
  {
    Pow2Table();
    PixelBound(bpp, data[p], ShiftOf(bpp, x));
    AndBound(data[p], 15);
    AndBound(data[p], 1);
    match bpp {
      case 8 =>
        MaskKeeps(data[p], 8);
        col := data[p];
      case 4 =>
        if x % 2 != 0 {
          col := And(data[p], 15);
        } else {
          HighNibble(data[p]);
          col := Shr(data[p], 4);
        }
      case 1 =>
        if x % 8 == 7 {
          col := And(data[p], 1);
        } else {
          AndBound(Shr(data[p], 7 - x % 8), 1);
          col := And(Shr(data[p], 7 - x % 8), 1);
        }
    }
  }

  lemma HighNibble(b: Byte)
    ensures Shr(b, 4) < 16 && And(Shr(b, 4), 15) == Shr(b, 4)
  {
    assert Shr(b, 4) == Shr(b / 2, 3);
    assert Shr(b / 2, 3) == Shr(b / 4, 2);
    assert Shr(b / 4, 2) == b / 16;
    Pow2Table();
    MaskKeeps(Shr(b, 4), 4);
  }

  /** Sends every pixel of the image through the encoder, row by row. The codes written spell exactly
      the pixels of the image in the order of its rows. */
  method WriteData(shape: Shape, ilace: bool, data: array<Byte>, fd: seq<Byte>)
    returns (fd': seq<Byte>, ghost cs: seq<nat>, ghost payload: seq<Byte>)
    requires shape.Valid() && data.Length == shape.Size()
    ensures fd' == fd + [MinCodeSize(shape.bpp)] + SubBlocks(payload) && fd'[|fd'| - 1] == 0
    ensures Framed(fd', fd + [MinCodeSize(shape.bpp)], payload)
    ensures Encodes([MinCodeSize(shape.bpp)] + SubBlocks(payload), shape.bpp, cs, payload)
    ensures AllBelow(Rows(shape.h, ilace), shape.h)
    ensures var f := FormatOf(shape.bpp, MinCodeSize(shape.bpp));
            Complete(f, cs) && Text(f, cs) == Scan(shape, data[..], Rows(shape.h, ilace))
  {
    hide Encoder.Writing, Encoder.Matching, Scan, Row, RowsFrom, Rows, Sweep, Frugal, Framed, SubBlocks;
    hide Carries, StreamBits, Text, Width;
    var minCodeSize := MinCodeSize(shape.bpp);
    FormatValid(shape.bpp, minCodeSize);
    GifOutput.StartRows(shape.h, ilace);
    RowsBelow(shape.h, ilace);
    var enc := new Encoder(FormatOf(shape.bpp, minCodeSize), fd + [minCodeSize]);
    ghost var done: seq<nat> := [];
    NoRows(shape, data[..]);
    var y: nat, pass: nat := 0, 0;
    while y < shape.h
      invariant pass < 4 && enc.Valid() && fresh(enc) && fresh(enc.w) && fresh(enc.w.buf)
      invariant fresh(enc.dictTail) && fresh(enc.dictCol) && fresh(enc.hashtable)
      invariant AllBelow(done, shape.h)
      invariant Rows(shape.h, ilace) == done + RowsFrom(y, pass, shape.h, ilace)
      invariant y >= shape.h ==> RowsFrom(y, pass, shape.h, ilace) == []
      invariant enc.pixels == Scan(shape, data[..], done)
      decreases |RowsFrom(y, pass, shape.h, ilace)|
    {
      WriteRow(enc, shape, data, y);
      ScanSnoc(shape, data[..], done, y);
      ghost var row, before := y, done;
      done := done + [y];
      if ilace {
        y, pass := StepIlace(y, shape.h, pass);
      } else {
        GifOutput.PlainStep(y, pass, shape.h);
        y := y + 1;
      }
      Associate(before, [row], RowsFrom(y, pass, shape.h, ilace));
    }
    assert done + [] == done;
    payload := enc.Finish();
    cs := enc.cs;
    fd' := enc.w.fd;
    FramedIs(fd', fd + [minCodeSize], payload);
  }

  lemma NoRows(s: Shape, d: seq<Byte>)
    requires s.Valid() && |d| >= s.Size()
    ensures Scan(s, d, []) == [] && AllBelow([], s.h)
  {
  }

  lemma NoPixels(s: Shape, d: seq<Byte>, y: nat)
    requires s.Valid() && |d| >= s.Size() && y < s.h
    ensures Row(s, d, y, 0) == []
  {
  }

  lemma NextPixel(s: Shape, d: seq<Byte>, x: nat, y: nat)
    requires s.Valid() && |d| >= s.Size() && x < s.w && y < s.h
    ensures Row(s, d, y, x + 1)[..x] == Row(s, d, y, x) && Row(s, d, y, x + 1)[x] == Pixel(s, d, x, y)
    ensures Index(s, x, y) < |d| && Pixel(s, d, x, y) == PixelIn(s.bpp, d[Index(s, x, y)], ShiftOf(s.bpp, x))
    ensures Index(s, x + 1, y) ==
              Index(s, x, y) + if s.bpp == 8 || (s.bpp == 4 && x % 2 != 0) || (s.bpp == 1 && x % 8 == 7) then 1 else 0
  {
    IndexInside(s, x, y);
  }

  /** Sends the pixels of one row through the encoder. */
  method WriteRow(enc: Encoder, shape: Shape, data: array<Byte>, y: nat)
    requires shape.Valid() && data.Length == shape.Size() && y < shape.h
    requires enc.Valid() && enc.f.colours == Pow2(shape.bpp)
    requires data != enc.w.buf && data != enc.dictCol && data as object != enc.dictTail &&
             data as object != enc.hashtable
    modifies enc, enc.w`fd, enc.w`inx, enc.w`codeSize, enc.w`sent, enc.w`stream, enc.w.buf
    modifies enc.dictTail, enc.dictCol, enc.hashtable
    ensures enc.Valid()
    ensures enc.pixels == old(enc.pixels) + Row(shape, data[..], y, shape.w)
  {
    hide Encoder.Valid, Encoder.Writing, Encoder.Matching, Row, Pixel, PixelIn, RowStart;
    IndexInside(shape, 0, y);
    GifOutput.NextRowStart(shape, y);
    var p := (shape.h - 1 - y) * shape.Stride();
    NoPixels(shape, data[..], y);
    var x := 0;
    ghost var before := enc.pixels;
    assert before + [] == before;
    while x < shape.w
      invariant x <= shape.w && enc.Valid() && data[..] == old(data[..])
      invariant p == Index(shape, x, y)
      invariant enc.pixels == before + Row(shape, data[..], y, x)
    {
      IndexInside(shape, x, y);
      var col := FetchPixel(data, shape.bpp, p, x);
      NextPixel(shape, data[..], x, y);
      // pdata moves on when the last pixel of its byte has been fetched
      if shape.bpp == 8 || (shape.bpp == 4 && x % 2 != 0) || (shape.bpp == 1 && x % 8 == 7) {
        p := p + 1;
      }
      GifDecoder.OneMore(before, Row(shape, data[..], y, x + 1), x);
      enc.Step(col);
      x := x + 1;
    }
  }

  // ---- the bytes of small files ----

  /** With minimum code size m codes are m + 1 bits long to begin with, the clear code is 2^m, the end
      code is 2^m + 1, and the first code of the dictionary is 2^m + 2. */
  lemma CodeNumbers(f: Format, bits: nat, m: nat, v: nat)
    requires 2 <= m <= 9 && f == FormatOf(bits, m) && v < f.colours
    ensures WholeBits(f, [Pow2(m)]) == LowBits(Pow2(m), m + 1) + LowBits(Pow2(m) + 1, m + 1)
    ensures var cs := [Pow2(m), v, Pow2(m) + 2]; WellFormed(f, cs) && Text(f, cs) == [v, v, v]
    ensures f.colours == Pow2(bits) || f.colours == Pow2(m)
  {
    hide WellFormed, Text, WholeBits, Shl;
    FormatValid(bits, m);
    FirstEntry(f, v);
    NoPixelBits(f);
  }

  lemma NoPixelBits(f: Format)
    requires f.Valid()
    ensures WholeBits(f, [f.clear]) == LowBits(f.clear, f.initSize) + LowBits(f.clear + 1, f.initSize)
  {
    hide LowBits, Text, WellFormed, Width;
    EmptyStream(f);
    Snoc(f, [], f.clear);
    assert [] + [f.clear] == [f.clear];
    WidthStart(f);
  }

  /** The pixels determine every byte of the file: what WriteData promises of it leaves no choice. */
  lemma OneFile(file: seq<Byte>, file': seq<Byte>, bpp: nat, cs: seq<nat>, cs': seq<nat>, payload: seq<Byte>,
                payload': seq<Byte>)
    requires Encodes(file, bpp, cs, payload) && Encodes(file', bpp, cs', payload')
    requires var f := FormatOf(bpp, MinCodeSize(bpp));
             Complete(f, cs) && Complete(f, cs') && Text(f, cs) == Text(f, cs')
    ensures file == file'
  {
    hide Complete, Carries, Text, WholeBits, SubBlocks;
    var f := FormatOf(bpp, MinCodeSize(bpp));
    OneStream(f, cs, cs');
    OnePayload(payload, payload', WholeBits(f, cs));
  }

  /** The file of three pixels 0 of 8 bits. */
  lemma ThreePixelFile(file: seq<Byte>, cs: seq<nat>, payload: seq<Byte>)
    requires Encodes(file, 8, cs, payload)
    requires var f := FormatOf(8, 8); Complete(f, cs) && Text(f, cs) == [0, 0, 0]
    ensures cs == [256, 0, 258]
    ensures file == [0x08, 0x05, 0x00, 0x01, 0x08, 0x0c, 0x08, 0x00]
  {
    hide WellFormed, Text, Complete;
    var f := FormatOf(8, 8);
    Pow2Table();
    FirstEntry(f, 0);
    ThreeComplete(f, 0);
    OneStream(f, cs, [256, 0, 258]);
    ThreePixelBits(f, 0);
    ThreeWidths(f);
    Packed([0x00, 0x01, 0x08, 0x0c, 0x08]);
    OnePayload(payload, [0x00, 0x01, 0x08, 0x0c, 0x08], WholeBits(f, [256, 0, 258]));
  }

  lemma ThreePixelBits(f: Format, v: nat)
    requires f.Valid() && v < f.colours
    ensures WholeBits(f, [f.clear, v, f.First()]) ==
              LowBits(f.clear, Width(f, 0)) + LowBits(v, Width(f, 0)) + LowBits(f.First(), Width(f, 1))
              + LowBits(f.Eoi(), Width(f, 2))
  {
    hide LowBits, Text, WellFormed, Width, StreamBits, Epoch, Str;
    var c, d := f.clear, f.First();
    EmptyStream(f);
    Snoc(f, [], c);
    assert [] + [c] == [c];
    Snoc(f, [c], v);
    assert [c] + [v] == [c, v] && [] + [v] == [v];
    Snoc(f, [c, v], d);
    assert [c, v] + [d] == [c, v, d] && [v] + [d] == [v, d];
  }

  lemma ThreeComplete(f: Format, v: nat)
    requires f.Valid() && v < f.colours
    ensures Complete(f, [f.clear, v, f.First()])
  {
    hide Text, WellFormed, Str, StreamBits, Width;
    var c, d := f.clear, f.First();
    EmptyStream(f);
    hide Frugal, Epoch;
    ClearAlone(f);
    FrugalMore(f, [c], v);
    assert [c] + [v] == [c, v] && [] + [v] == [v];
    FrugalMore(f, [c, v], d);
    assert [c, v] + [d] == [c, v, d] && [v] + [d] == [v, d];
  }

  lemma FrugalMore(f: Format, cs: seq<nat>, c: nat)
    requires WellFormed(f, cs) && Frugal(f, cs) && cs != [] && c != f.clear && Pending(f, Epoch(f, cs), c)
    requires |Epoch(f, cs)| <= 1
    ensures WellFormed(f, cs + [c]) && Frugal(f, cs + [c]) && Epoch(f, cs + [c]) == Epoch(f, cs) + [c]
  {
    Snoc(f, cs, c);
    assert Init(cs + [c]) == cs;
  }

  lemma ThreeWidths(f: Format)
    requires f == Format(256, 256, 9) && f.Valid()
    ensures Width(f, 0) == Width(f, 1) == Width(f, 2) == 9
  {
    hide WidthFor, Shl;
    Pow2Table();
    WidthForIs(9, 9, 258);
    WidthForIs(9, 9, 259);
  }

  lemma {:induction false} BitOfPower(n: nat, i: nat)
    ensures Bit(Pow2(n), i) <==> i == n
  {
    if n == 0 {
      if i != 0 {
        BitOfZero(i - 1);
      }
    } else if i != 0 {
      BitOfPower(n - 1, i - 1);
    }
  }

  /** The bits set, of 40. */
  predicate IsSet(i: nat) { i == 8 || i == 19 || i == 26 || i == 27 || i == 35 }

  lemma Packed(p: seq<Byte>)
    requires p == [0x00, 0x01, 0x08, 0x0c, 0x08]
    ensures Carries(p, LowBits(256, 9) + LowBits(0, 9) + LowBits(258, 9) + LowBits(257, 9))
  {
    hide Bit;
    forall i: nat | i < 40
      ensures BitAt(p, i) == IsSet(i)
    {
      BitOfByte(i / 8, i % 8);
    }
    var bits := LowBits(256, 9) + LowBits(0, 9) + LowBits(258, 9) + LowBits(257, 9);
    forall i: nat | i < 36
      ensures bits[i] == IsSet(i)
    {
      BitOfCode(i / 9, i % 9);
    }
  }

  lemma BitOfByte(k: nat, j: nat)
    requires k < 5 && j < 8
    ensures Bit([0x00, 0x01, 0x08, 0x0c, 0x08][k], j) == IsSet(8 * k + j)
  {
    Pow2Table();
    BitOfZero(j);
    BitOfPower(0, j);
    BitOfPower(3, j);
    if j >= 2 {
      assert Bit(0x0c, j) == Bit(6, j - 1) == Bit(3, j - 2);
      BitOfSum(1, 1, 1, j - 2);
    }
  }

  lemma BitOfCode(k: nat, j: nat)
    requires k < 4 && j < 9
    ensures Bit([256, 0, 258, 257][k], j) == IsSet(9 * k + j)
  {
    Pow2Table();
    BitOfZero(j);
    BitOfPower(8, j);
    if j >= 1 {
      BitOfPower(7, j - 1);
      assert Bit(257, j) == Bit(128, j - 1) && Bit(258, j) == Bit(129, j - 1);
      if j >= 2 {
        BitOfPower(6, j - 2);
        assert Bit(129, j - 1) == Bit(64, j - 2);
      }
    }
  }

  // ---- reading ----

  /** Before `total` pixels are spelled a code is misread. */
  ghost predicate Spoilt(f: Format, cs: seq<nat>, end: nat, limit: nat, total: nat)
    requires WellFormed(f, cs) && f.colours <= limit
  {
    exists i :: SpoiltAt(f, cs, end, limit, total, i)
  }

  ghost predicate SpoiltAt(f: Format, cs: seq<nat>, end: nat, limit: nat, total: nat, i: nat)
    requires WellFormed(f, cs) && f.colours <= limit
  {
    i <= |cs| && Misread(f, cs, end, limit, i) && |PartText(f, cs, i)| < total
  }

  /** What the first i codes spell. */
  ghost function PartText(f: Format, cs: seq<nat>, i: nat): seq<nat>
    requires WellFormed(f, cs) && i <= |cs|
  {
    PrefixWellFormed(f, cs, i);
    Text(f, cs[..i])
  }

  /** The image shows a text as far as both go. */
  ghost predicate Shows(scan: seq<nat>, text: seq<nat>) {
    if |text| <= |scan| then text <= scan else scan <= text
  }

  /** The image shows a text and then a value that is no pixel. */
  ghost predicate ShowsWrong(f: Format, scan: seq<nat>, text: seq<nat>) {
    text < scan && scan[|text|] >= f.clear
  }

  /** The outcome of reading: what is reported, and what the scan of the image shows. If the stream is
      spoilt, `read` codes were taken in before, and the next one is reported or drawn for a pixel. */
  ghost predicate ReadsAs(f: Format, cs: seq<nat>, end: nat, limit: nat, errok: bool, scan: seq<nat>, rc: Status,
                          read: nat)
    requires WellFormed(f, cs) && f.colours <= limit
  {
    if Spoilt(f, cs, end, limit, |scan|) then
      && SpoiltAt(f, cs, end, limit, |scan|, read)
      && if f.clear < limit then ShowsWrong(f, scan, PartText(f, cs, read))
         else rc == (if errok then Ok else Corrupt) && Shows(scan, PartText(f, cs, read))
    else
      && rc == (if |Text(f, cs)| < |scan| && end == NO_CODE && !errok then ReadError else Ok)
      && Shows(scan, Text(f, cs))
  }

  /** Reads an image back, from a stream that any encoder may have written, with any minimum code size
      and any depth of the palette. */
  method ReadData(fd: seq<Byte>, bits: nat, shape: Shape, ilace: bool, data: array<Byte>, errok: bool,
                  ghost cs: seq<nat>, ghost end: nat)
    returns (rc: Status, ghost read: nat)
    requires shape.Valid() && data.Length == shape.Size() && 1 <= bits <= shape.bpp
    requires fd != [] && 2 <= fd[0] <= 9 ==>
               && WellFormed(FormatOf(bits, fd[0]), cs)
               && Delivers(Deblock(fd[1..]), FormatOf(bits, fd[0]), cs, end)
    modifies data
    ensures fd == [] ==> rc == ReadError
    ensures fd != [] && !(2 <= fd[0] <= 9) ==> rc == BadCodeSize
    ensures fd != [] && 2 <= fd[0] <= 9 ==> FormatOf(bits, fd[0]).colours <= Pow2(bits)
    ensures AllBelow(Rows(shape.h, ilace), shape.h)
    ensures fd != [] && 2 <= fd[0] <= 9 ==>
              ReadsAs(FormatOf(bits, fd[0]), cs, end, Pow2(bits), errok,
                      Scan(shape, data[..], Rows(shape.h, ilace)), rc, read)
  {
    hide GifOutput.OutputContext.Valid, Decoder.Valid, Scan, Rows, RowsFrom, ReadsAs, Text, WellFormed, Delivers;
    hide Misread, Shl;
    read := 0;
    RowsBelow(shape.h, ilace);
    if fd == [] {
      return ReadError, 0;
    }
    var minCodeSize: nat := fd[0];
    if minCodeSize < 2 || minCodeSize > 9 {
      return BadCodeSize, 0;
    }
    var o := new GifOutput.OutputContext(shape, ilace, data);
    var dec := new Decoder(bits, minCodeSize, fd, o, cs, end);
    var stray;
    rc, stray := dec.Run(errok);
    o.Progress();
    o.DrawnFirst();
    read := dec.i;
    ghost var f, scan := FormatOf(bits, fd[0]), Scan(shape, data[..], Rows(shape.h, ilace));
    if stray {
      StrayReads(f, cs, end, Pow2(bits), errok, scan, rc, read, o.drawn);
    } else {
      RunReads(f, cs, end, Pow2(bits), errok, scan, rc, read, o.drawn);
    }
  }

  lemma StrayReads(f: Format, cs: seq<nat>, end: nat, limit: nat, errok: bool, scan: seq<nat>,
                    rc: Status, read: nat, drawn: seq<nat>)
    requires WellFormed(f, cs) && f.colours <= limit && read <= |cs| && drawn <= scan && f.clear < limit
    requires Misread(f, cs, end, limit, read) && ShowsWrong(f, drawn, PartText(f, cs, read))
    ensures ReadsAs(f, cs, end, limit, errok, scan, rc, read)
  {
    hide Misread, WellFormed, Text;
    assert SpoiltAt(f, cs, end, limit, |scan|, read);
  }

  lemma RunReads(f: Format, cs: seq<nat>, end: nat, limit: nat, errok: bool, scan: seq<nat>,
                  rc: Status, read: nat, drawn: seq<nat>)
    requires WellFormed(f, cs) && f.colours <= limit && read <= |cs|
    requires drawn <= scan && drawn <= PartText(f, cs, read)
    requires forall j: nat :: j < read ==> !Misread(f, cs, end, limit, j)
    requires |drawn| == |scan| ==> rc == Ok
    requires |drawn| < |scan| ==>
               && drawn == PartText(f, cs, read)
               && if Misread(f, cs, end, limit, read) then f.clear >= limit && rc == (if errok then Ok else Corrupt)
                  else read == |cs| && rc == (if end == NO_CODE && !errok then ReadError else Ok)
    ensures ReadsAs(f, cs, end, limit, errok, scan, rc, read)
  {
    hide Misread, WellFormed, Text;
    if |drawn| == |scan| {
      CompleteInTime(f, cs, end, limit, |scan|, read);
      assert drawn == scan;
    } else if Misread(f, cs, end, limit, read) {
      assert SpoiltAt(f, cs, end, limit, |scan|, read);
    } else {
      assert cs[..read] == cs;
      forall j: nat
        ensures !SpoiltAt(f, cs, end, limit, |scan|, j)
      {
        assert j <= read ==> !Misread(f, cs, end, limit, j);
      }
    }
  }

  /** A stream whose first codes, none of them misread, spell the whole image is not spoilt. */
  lemma {:induction false} CompleteInTime(f: Format, cs: seq<nat>, end: nat, limit: nat, total: nat, read: nat)
    requires WellFormed(f, cs) && f.colours <= limit && read <= |cs| && total <= |PartText(f, cs, read)|
    requires forall j: nat :: j < read ==> !Misread(f, cs, end, limit, j)
    ensures !Spoilt(f, cs, end, limit, total) && PartText(f, cs, read) <= Text(f, cs)
  {
    hide Misread;
    PrefixWellFormed(f, cs, read);
    forall j: nat
      ensures !SpoiltAt(f, cs, end, limit, total, j)
    {
      if read <= j <= |cs| {
        PrefixWellFormed(f, cs, j);
        PrefixWellFormed(f, cs[..j], read);
        assert cs[..j][..read] == cs[..read];
      }
    }
  }

  // ---- when the reader is right ----

  lemma {:induction false} TextPixels(f: Format, cs: seq<nat>)
    requires WellFormed(f, cs)
    ensures forall v :: v in Text(f, cs) ==> v < f.colours
  {
    if cs != [] {
      TextPixels(f, Init(cs));
      if Last(cs) != f.clear {
        EpochLegal(f, cs);
        StrPixels(f, Epoch(f, cs), Last(cs));
      }
    }
  }

  /** For a stream that spells enough pixels: the reader shows them, and reports no error, if and only if
      no code is misread before the image is complete. Otherwise it draws a wrong value, or reports the
      stream as corrupt unless errors are to be ignored. */
  lemma RightExactly(f: Format, cs: seq<nat>, end: nat, limit: nat, errok: bool, scan: seq<nat>,
                      rc: Status, read: nat)
    requires WellFormed(f, cs) && f.colours <= limit && ReadsAs(f, cs, end, limit, errok, scan, rc, read)
    requires |scan| <= |Text(f, cs)|
    ensures !Spoilt(f, cs, end, limit, |scan|) ==> rc == Ok && scan <= Text(f, cs)
    ensures Spoilt(f, cs, end, limit, |scan|) ==>
              if f.clear < limit then !(scan <= Text(f, cs)) else rc == if errok then Ok else Corrupt
  {
    hide WellFormed, Text, Spoilt;
    if Spoilt(f, cs, end, limit, |scan|) && f.clear < limit {
      TextPixels(f, cs);
      ClearAbove(f, cs);
      var n := |PartText(f, cs, read)|;
      assert Text(f, cs)[n] in Text(f, cs);
      assert scan[n] != Text(f, cs)[n];
    }
  }

  lemma ClearAbove(f: Format, cs: seq<nat>)
    requires WellFormed(f, cs)
    ensures f.colours <= f.clear
  {
  }

  /** With a palette no deeper than the minimum code size only clear codes are misread. */
  lemma NoStrays(bits: nat, minSize: nat, cs: seq<nat>, end: nat, i: nat)
    requires 2 <= minSize && bits <= minSize && WellFormed(FormatOf(bits, minSize), cs)
    ensures FormatOf(bits, minSize).colours <= Pow2(bits)
    ensures Misread(FormatOf(bits, minSize), cs, end, Pow2(bits), i) <==> Broken(FormatOf(bits, minSize), cs, end, i)
  {
  }

  /** A stream that spells its pixel after two clear codes is spoilt. */
  lemma TwoClears(bits: nat, minSize: nat, end: nat, total: nat)
    requires 1 <= bits && 2 <= minSize <= 9 && total >= 1
    ensures FormatOf(bits, minSize).colours <= Pow2(bits)
    ensures var f := FormatOf(bits, minSize); var cs := [f.clear, f.clear, 0];
            WellFormed(f, cs) && Text(f, cs) == [0] && Spoilt(f, cs, end, Pow2(bits), total)
  {
    var f := FormatOf(bits, minSize);
    FormatValid(bits, minSize);
    FormatLimits(bits, minSize);
    Pow2Monotone(if bits < minSize then bits else minSize, if bits < minSize then bits else minSize);
    Snoc(f, [], f.clear);
    assert [] + [f.clear] == [f.clear];
    Snoc(f, [f.clear], f.clear);
    assert [f.clear] + [f.clear] == [f.clear, f.clear];
    Snoc(f, [f.clear, f.clear], 0);
    var cs := [f.clear, f.clear] + [0];
    assert cs == [f.clear, f.clear, 0] && cs[..1] == [f.clear];
    assert SpoiltAt(f, cs, end, Pow2(bits), total, 1);
  }

  /** Whenever the palette is deeper than the minimum code size: the codes clear, v, First, First spell
      five pixels v, but the second First, which is defined by then and below the limit, is drawn as it
      is. With 8 bits and a minimum code size of 2 these are the codes 4, 0, 6, 6. */
  lemma SmallCodeSize(bits: nat, minSize: nat, v: nat, end: nat, total: nat)
    requires 2 <= minSize <= 9 && minSize < bits && v < Pow2(minSize) && total >= 4
    ensures FormatOf(bits, minSize).colours <= Pow2(bits)
    ensures var f := FormatOf(bits, minSize); var cs := [f.clear, v, f.First(), f.First()];
            && WellFormed(f, cs) && Text(f, cs) == [v, v, v, v, v]
            && SpoiltAt(f, cs, end, Pow2(bits), total, 3)
            && PartText(f, cs, 3) == [v, v, v] && StopAt(f, cs, Pow2(bits), 3) == f.First()
  {
    hide StreamBits, Str, WellFormed, Text, Width;
    var f := FormatOf(bits, minSize);
    FormatValid(bits, minSize);
    FormatLimits(bits, minSize);
    DoublePower(minSize, bits);
    FirstEntry(f, v);
    var cs := [f.clear, v, f.First(), f.First()];
    assert cs[..3] == [f.clear, v, f.First()];
  }

  lemma DoublePower(n: nat, m: nat)
    requires 2 <= n < m
    ensures Pow2(n) + 4 <= Pow2(n + 1) <= Pow2(m)
  {
    Pow2Monotone(n + 1, m);
    Pow2Monotone(2, n);
    Pow2Table();
  }

  /** The first code of the dictionary stands for v, v, and it is defined from the second time on that it
      comes. */
  lemma {:induction false} FirstEntry(f: Format, v: nat)
    requires f.Valid() && v < f.colours
    ensures var a := [f.clear, v, f.First()];
            WellFormed(f, a) && Text(f, a) == [v, v, v] && Epoch(f, a) == [v, f.First()]
    ensures var b := [f.clear, v, f.First(), f.First()];
            WellFormed(f, b) && Text(f, b) == [v, v, v, v, v]
  {
    hide StreamBits, Width, WellFormed, Text, Epoch;
    var c, d := f.clear, f.First();
    EmptyStream(f);
    Snoc(f, [], c);
    assert [] + [c] == [c];
    Snoc(f, [c], v);
    assert [c] + [v] == [c, v] && [] + [v] == [v];
    Snoc(f, [c, v], d);
    assert [c, v] + [d] == [c, v, d] && [v] + [d] == [v, d];
    TwoPixels(f, [v, d]);
    Snoc(f, [c, v, d], d);
    assert [c, v, d] + [d] == [c, v, d, d] && [v, d] + [d] == [v, d, d];
    TwoPixels(f, [v, d, d]);
  }

  lemma EmptyStream(f: Format)
    requires f.Valid()
    ensures WellFormed(f, []) && Epoch(f, []) == [] && Text(f, []) == [] && StreamBits(f, []) == []
  {
  }

  lemma {:induction false} TwoPixels(f: Format, e: seq<nat>)
    requires Legal(f, e) && |e| >= 2 && e[0] < f.colours && e[1] == f.First()
    ensures Str(f, e, f.First()) == [e[0], e[0]] && Str(f, e, e[0]) == [e[0]]
  {
  }

  // ---- round trip ----

  /** Reading back what was written reproduces every pixel of the image. */
  method RoundTrip(shape: Shape, ilace: bool, data: array<Byte>, header: seq<Byte>)
    returns (copy: array<Byte>, rc: Status)
    requires shape.Valid() && data.Length == shape.Size()
    ensures rc == Ok && copy.Length == shape.Size()
    ensures forall x: nat, y: nat :: x < shape.w && y < shape.h ==>
              Pixel(shape, copy[..], x, y) == Pixel(shape, data[..], x, y)
  {
    hide Framed, SubBlocks, Deblock, Carries, Delivers, Text, Frugal, ReadsAs, Spoilt, WholeBits, Scan, Rows;
    hide WellFormed;
    ghost var cs, payload;
    var fd;
    fd, cs, payload := WriteData(shape, ilace, data, header);
    copy := new Byte[shape.Size()](_ => 0);
    AfterData(fd, header, MinCodeSize(shape.bpp), payload);
    // the terminator that gif_w puts after the image data
    var file := (fd + [0x3b])[|header|..];
    assert file[1..] == SubBlocks(payload) + [0x3b];
    ghost var f, rows := FormatOf(shape.bpp, MinCodeSize(shape.bpp)), Rows(shape.h, ilace);
    DeliversAll(f, cs, payload, [0x3b]);
    ghost var read;
    rc, read := ReadData(file, shape.bpp, shape, ilace, copy, false, cs, f.Eoi());
    ScanLength(shape, data[..], copy[..], rows);
    FrugalIsSound(shape.bpp, MinCodeSize(shape.bpp), cs, f.Eoi(), |Text(f, cs)|);
    ReadInFull(f, cs, f.Eoi(), Pow2(shape.bpp), Scan(shape, copy[..], rows), rc, read);
    forall x: nat, y: nat | x < shape.w && y < shape.h
      ensures Pixel(shape, copy[..], x, y) == Pixel(shape, data[..], x, y)
    {
      RowsVisitEachOnce(shape.h, ilace, y);
      assert y in multiset(rows);
      ScanInjective(shape, copy[..], data[..], rows, x, y);
    }
  }

  lemma DeliversAll(f: Format, cs: seq<nat>, payload: seq<Byte>, rest: seq<Byte>)
    requires Carries(payload, WholeBits(f, cs))
    ensures Delivers(Deblock(SubBlocks(payload) + rest), f, cs, f.Eoi())
  {
    hide SubBlocks, Deblock, StreamBits, Width, LowBits;
    DeblockSubBlocks(payload, rest);
    CarriesOn(payload, Deblock(rest), WholeBits(f, cs));
  }

  lemma ReadInFull(f: Format, cs: seq<nat>, end: nat, limit: nat, scan: seq<nat>, rc: Status, read: nat)
    requires WellFormed(f, cs) && f.colours <= limit && ReadsAs(f, cs, end, limit, false, scan, rc, read)
    requires !Spoilt(f, cs, end, limit, |scan|) && |scan| == |Text(f, cs)|
    ensures rc == Ok && scan == Text(f, cs)
  {
    hide Text, WellFormed, Spoilt;
  }

  lemma AfterData(fd: seq<Byte>, header: seq<Byte>, m: Byte, payload: seq<Byte>)
    requires Framed(fd, header + [m], payload)
    ensures |fd| >= |header| && (fd + [0x3b])[|header|..] == [m] + (SubBlocks(payload) + [0x3b])
  {
    hide SubBlocks, TakeBlocks;
  }

  /** A frugal stream is not spoilt: no clear code follows another, and an end code that follows one
      comes when all is spelled. */
  lemma FrugalIsSound(bits: nat, minSize: nat, cs: seq<nat>, end: nat, total: nat)
    requires 2 <= minSize && bits <= minSize && WellFormed(FormatOf(bits, minSize), cs)
    requires Frugal(FormatOf(bits, minSize), cs) && total <= |Text(FormatOf(bits, minSize), cs)|
    ensures FormatOf(bits, minSize).colours <= Pow2(bits)
    ensures !Spoilt(FormatOf(bits, minSize), cs, end, Pow2(bits), total)
  {
    var f := FormatOf(bits, minSize);
    hide Misread, FormatOf;
    FormatLimits(bits, minSize);
    forall i: nat
      ensures !SpoiltAt(f, cs, end, Pow2(bits), total, i)
    {
      NoStrays(bits, minSize, cs, end, i);
      NotBroken(f, cs, end, i);
      if i == |cs| {
        assert cs[..i] == cs;
      }
    }
  }

  lemma {:induction false} NotBroken(f: Format, cs: seq<nat>, end: nat, i: nat)
    requires WellFormed(f, cs) && Frugal(f, cs)
    ensures Broken(f, cs, end, i) ==> i == |cs|
  {
    if 0 < i < |cs| && cs[i - 1] == f.clear {
      AfterClear(f, cs, i);
      EndCode(f, cs, end, i);
      FrugalPrefix(f, cs, i + 1);
      assert Init(cs[..i + 1]) == cs[..i];
    }
  }
}
