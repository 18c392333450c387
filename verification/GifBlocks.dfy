/** Variable-width codes packed into GIF data sub-blocks, written and read through the buffered
    contexts of gbmgif.c. */
module GifBlocks {
  import opened Bits

  /** The data sub-blocks that carry a byte string: blocks of 255 bytes, a shorter last block when
      something is left over, and the empty block terminator (GIF89a, sections 15 and 16). */
  function SubBlocks(data: seq<Byte>): seq<Byte> {
    if |data| >= 255 then [255] + data[..255] + SubBlocks(data[255..])
    else if |data| > 0 then [|data|] + data + [0]
    else [0]
  }

  /** Data sub-blocks as sections 15 and 16 define them: each is a byte that says how many bytes follow,
      and those bytes; the first empty one ends them. */
  datatype Parsed = Blocks(data: seq<Byte>, rest: seq<Byte>) | Unterminated

  function TakeBlocks(file: seq<Byte>): Parsed
    decreases |file|
  {
    if file == [] then Unterminated
    else
      var n: nat := file[0];
      if n == 0 then Blocks([], file[1..])
      else if |file| < 1 + n then Unterminated
      else match TakeBlocks(file[1 + n..])
        case Blocks(data, rest) => Blocks(file[1..1 + n] + data, rest)
        case Unterminated => Unterminated
  }

  /** What is packed into sub-blocks is what a reader that stops at the first empty block takes out, and
      it stops exactly where they end. */
  lemma {:induction false} TakeSubBlocks(data: seq<Byte>, rest: seq<Byte>)
    ensures TakeBlocks(SubBlocks(data) + rest) == Blocks(data, rest)
    decreases |data|
  {
    hide TakeBlocks;
    if |data| >= 255 {
      TakeSubBlocks(data[255..], rest);
      FirstBlock(data, rest);
      TakeBlock(data[..255], SubBlocks(data[255..]) + rest);
      assert data[..255] + data[255..] == data;
    } else {
      Terminator(rest);
      if |data| > 0 {
        TakeBlock(data, [0] + rest);
        assert SubBlocks(data) + rest == [|data|] + data + ([0] + rest);
        assert data + [] == data;
      }
    }
  }

  lemma FirstBlock(data: seq<Byte>, rest: seq<Byte>)
    requires |data| >= 255
    ensures SubBlocks(data) + rest == [255] + data[..255] + (SubBlocks(data[255..]) + rest)
  {
    Associate([255] + data[..255], SubBlocks(data[255..]), rest);
  }

  /** So the last byte is the only empty block; and there are as few blocks as can be. */
  lemma {:induction false} SubBlocksEnd(data: seq<Byte>)
    ensures var s := SubBlocks(data); |s| == |data| + (|data| + 254) / 255 + 1 && s[|s| - 1] == 0
    decreases |data|
  {
    if |data| >= 255 {
      SubBlocksEnd(data[255..]);
    }
  }

  lemma Terminator(rest: seq<Byte>)
    ensures TakeBlocks([0] + rest) == Blocks([], rest)
  {
    assert ([0] + rest)[1..] == rest;
  }

  /** The file is what it was before and then the sub-blocks of the payload, and nothing else. */
  ghost predicate Framed(fd: seq<Byte>, header: seq<Byte>, payload: seq<Byte>) {
    && header < fd && fd == header + SubBlocks(payload) && fd[|fd| - 1] == 0
    && TakeBlocks(fd[|header|..]) == Blocks(payload, [])
  }

  lemma IsFramed(fd: seq<Byte>, header: seq<Byte>, payload: seq<Byte>)
    requires fd == header + SubBlocks(payload)
    ensures Framed(fd, header, payload)
  {
    hide SubBlocks, TakeBlocks;
    SubBlocksEnd(payload);
    TakeSubBlocks(payload, []);
    assert fd[|header|..] == SubBlocks(payload) + [] == SubBlocks(payload);
  }

  lemma FramedIs(fd: seq<Byte>, header: seq<Byte>, payload: seq<Byte>)
    requires Framed(fd, header, payload)
    ensures fd == header + SubBlocks(payload) && fd != [] && fd[|fd| - 1] == 0
  {
  }

  lemma TakeBlock(block: seq<Byte>, rest: seq<Byte>)
    requires 0 < |block| < 256
    ensures TakeBlocks([|block|] + block + rest) ==
              match TakeBlocks(rest)
              case Blocks(data, rest') => Blocks(block + data, rest')
              case Unterminated => Unterminated
  {
    var file: seq<Byte> := [|block|] + block + rest;
    assert file[1..1 + |block|] == block && file[1 + |block|..] == rest;
  }

  /** The full blocks alone. */
  function FullBlocks(data: seq<Byte>): seq<Byte> {
    if |data| >= 255 then [255] + data[..255] + FullBlocks(data[255..]) else []
  }

  /** All the bytes the reader can get out of a file of blocks. Like read_code it runs on past an
      empty block, and ends only where the file does. */
  function Deblock(file: seq<Byte>): seq<Byte>
    decreases |file|
  {
    if file == [] then []
    else
      var n: nat := file[0];
      if |file| < 1 + n then [] else file[1..1 + n] + Deblock(file[1 + n..])
  }

  /** Unpacking blocks undoes packing into blocks, whatever follows them in the file. */
  lemma {:induction false} DeblockSubBlocks(data: seq<Byte>, rest: seq<Byte>)
    ensures Deblock(SubBlocks(data) + rest) == data + Deblock(rest)
    decreases |data|
  {
    if |data| >= 255 {
      DeblockNext(data[..255], SubBlocks(data[255..]), rest);
      DeblockSubBlocks(data[255..], rest);
      Associate(data[..255], data[255..], Deblock(rest));
      assert data[..255] + data[255..] == data;
    } else {
      DeblockNext([], [], rest);
      assert [0] + [] + [] == [0] && [] + rest == rest && [] + Deblock(rest) == Deblock(rest);
      if |data| > 0 {
        DeblockNext(data, [0], rest);
      }
    }
  }

  lemma DeblockNext(block: seq<Byte>, blocks: seq<Byte>, rest: seq<Byte>)
    requires |block| < 256
    ensures Deblock([|block|] + block + blocks + rest) == block + Deblock(blocks + rest)
  {
    Associate([|block|] + block, blocks, rest);
    DeblockBlock(block, blocks + rest);
  }

  lemma {:induction false} Associate<T>(a: seq<T>, b: seq<T>, c: seq<T>)
    ensures a + b + c == a + (b + c)
  {
  }

  lemma DeblockBlock(block: seq<Byte>, rest: seq<Byte>)
    requires |block| < 256
    ensures Deblock([|block|] + block + rest) == block + Deblock(rest)
  {
    var file: seq<Byte> := [|block|] + block + rest;
    assert file[1..1 + |block|] == block && file[1 + |block|..] == rest;
  }

  lemma DeblockStep(file: seq<Byte>, off: nat)
    requires off <= |file|
    ensures off < |file| && off + 1 + file[off] <= |file| ==>
              Deblock(file[off..]) == file[off + 1..off + 1 + file[off]] + Deblock(file[off + 1 + file[off]..])
    ensures off == |file| || off + 1 + file[off] > |file| ==> Deblock(file[off..]) == []
  {
    var rest := file[off..];
    if off < |file| && off + 1 + file[off] <= |file| {
      var n: nat := file[off];
      assert rest[1..1 + n] == file[off + 1..off + 1 + n] && rest[1 + n..] == file[off + 1 + n..];
    }
  }

  lemma {:induction false} FullThenSubBlocks(full: seq<Byte>, tail: seq<Byte>)
    requires |full| % 255 == 0
    ensures FullBlocks(full) + SubBlocks(tail) == SubBlocks(full + tail)
    decreases |full|
  {
    if full == [] {
      assert full + tail == tail;
    } else {
      var all := full + tail;
      assert all[..255] == full[..255] && all[255..] == full[255..] + tail;
      FullThenSubBlocks(full[255..], tail);
    }
  }

  lemma {:induction false} FullBlocksSnoc(full: seq<Byte>, block: seq<Byte>)
    requires |full| % 255 == 0 && |block| == 255
    ensures FullBlocks(full + block) == FullBlocks(full) + [255] + block
    decreases |full|
  {
    if full == [] {
      assert full + block == block;
      assert block[..255] == block && block[255..] == [];
    } else {
      var all := full + block;
      assert all[..255] == full[..255] && all[255..] == full[255..] + block;
      FullBlocksSnoc(full[255..], block);
    }
  }

  /** The bits of `bytes` up to bit n are found in `bits` from position `at` on. */
  ghost predicate Holds(bits: seq<bool>, at: nat, bytes: seq<Byte>, n: nat)
    requires n <= 8 * |bytes|
  {
    at + n <= |bits| && forall i: nat {:trigger BitAt(bytes, i)} :: i < n ==> bits[at + i] == BitAt(bytes, i)
  }

  /** No digit of b from s on is set. */
  ghost predicate ClearFrom(b: Byte, s: nat) {
    forall j: nat {:trigger Bit(b, j)} :: j >= s ==> !Bit(b, j)
  }

  /** A payload carries a bit stream: it holds those bits and then fewer than 8 bits of padding, all
      clear. */
  ghost predicate Carries(payload: seq<Byte>, bits: seq<bool>) {
    && |bits| <= 8 * |payload| < |bits| + 8
    && forall i: nat {:trigger BitAt(payload, i)} :: i < 8 * |payload| ==>
         BitAt(payload, i) == (i < |bits| && bits[i])
  }

  /** So the bits determine the payload. */
  lemma OnePayload(p: seq<Byte>, q: seq<Byte>, bits: seq<bool>)
    requires Carries(p, bits) && Carries(q, bits)
    ensures p == q
  {
    Pow2Table();
    forall k | 0 <= k < |p|
      ensures p[k] == q[k]
    {
      forall i: nat | i < 8
        ensures Bit(p[k], i) == Bit(q[k], i)
      {
        assert BitAt(p, 8 * k + i) == BitAt(q, 8 * k + i);
        assert (8 * k + i) / 8 == k && (8 * k + i) % 8 == i;
      }
      SameBits(p[k], q[k], 8);
    }
  }

  /** A payload starts with the given bits. */
  ghost predicate StartsWith(payload: seq<Byte>, bits: seq<bool>) {
    && |bits| <= 8 * |payload|
    && forall i: nat {:trigger BitAt(payload, i)} :: i < |bits| ==> bits[i] == BitAt(payload, i)
  }

  lemma CarriesOn(payload: seq<Byte>, more: seq<Byte>, bits: seq<bool>)
    requires Carries(payload, bits)
    ensures StartsWith(payload + more, bits)
  {
    forall i: nat | i < |bits|
      ensures bits[i] == BitAt(payload + more, i)
    {
      assert BitAt(payload + more, i) == BitAt(payload, i);
    }
  }

  /** A number read behind the bits `before` is the code that was written there. */
  lemma SameCode(before: seq<bool>, c: nat, w: nat, all: seq<bool>, payload: seq<Byte>, code: nat)
    requires before + LowBits(c, w) <= all && StartsWith(payload, all) && c < Pow2(w)
    requires |before| + w <= 8 * |payload| ==>
               && code < Pow2(w)
               && forall k: nat {:trigger Bit(code, k)} :: k < w ==> Bit(code, k) == BitAt(payload, |before| + k)
    ensures code == c && |before| + w <= 8 * |payload|
  {
    forall k: nat | k < w
      ensures Bit(code, k) == Bit(c, k)
    {
      assert (before + LowBits(c, w))[|before| + k] == Bit(c, k);
      assert all[|before| + k] == BitAt(payload, |before| + k);
    }
    SameBits(code, c, w);
  }

  // ---- writing ----

  /** The three bytes write_code stores: the code ORed into the current byte above its s used bits,
      and what overflows into the two bytes after it. */
  function Spill(b0: Byte, code: nat, s: nat): (bytes: seq<Byte>)
    ensures |bytes| == 3
  {
    var shifted := Shl(code, s);
    AndBound(shifted, 255);
    Pow2Table();
    OrBound(b0, LowByte(shifted), 8);
    [Or(b0, LowByte(shifted)), LowByte(Shr(shifted, 8)), LowByte(Shr(shifted, 16))]
  }

  lemma {:induction false} SpillBit(b0: Byte, code: nat, s: nat, i: nat)
    requires s < 8 && i < 24
    requires ClearFrom(b0, s)
    ensures BitAt(Spill(b0, code, s), i) <==> if i < s then Bit(b0, i) else Bit(code, i - s)
  {
    var shifted, j := Shl(code, s), i % 8;
    BitOfOr(b0, LowByte(shifted), j);
    BitOfLowByte(shifted, j);
    BitOfLowByte(Shr(shifted, 8), j);
    BitOfLowByte(Shr(shifted, 16), j);
    BitOfShr(shifted, 8, j);
    BitOfShr(shifted, 16, j);
    BitOfShl(code, s, i);
  }

  /** What write_code does to the buffer: the code's bits go right after those already there, and the
      unused bits of the byte they end in are zero. */
  lemma WriteCodeBits(b: seq<Byte>, b': seq<Byte>, inx: nat, code: nat, cs: nat)
    requires |b| == 257 && |b'| == 257 && inx < 2040 && cs <= 12 && code < Pow2(cs)
    requires ClearFrom(b[inx / 8], inx % 8)
    requires b'[..inx / 8] == b[..inx / 8]
    requires forall m :: 0 <= m < 3 ==> b'[inx / 8 + m] == Spill(b[inx / 8], code, inx % 8)[m]
    ensures forall i: nat {:trigger BitAt(b', i)} :: i < inx + cs ==>
              BitAt(b', i) == if i < inx then BitAt(b, i) else Bit(code, i - inx)
    ensures ClearFrom(b'[(inx + cs) / 8], (inx + cs) % 8)
  {
    hide Spill, Bit, Shl;
    var k, s := inx / 8, inx % 8;
    var t := Spill(b[k], code, s);
    forall i: nat | i < inx + cs
      ensures BitAt(b', i) == if i < inx then BitAt(b, i) else Bit(code, i - inx)
    {
      if i < 8 * k {
        assert b'[i / 8] == b'[..k][i / 8] == b[..k][i / 8];
      } else {
        SpillBit(b[k], code, s, i - 8 * k);
        assert b'[i / 8] == t[i / 8 - k];
      }
    }
    var m := (s + cs) / 8;
    assert (inx + cs) / 8 == k + m && (inx + cs) % 8 == (s + cs) % 8;
    assert b'[k + m] == t[m];
    forall j: nat | j >= (s + cs) % 8
      ensures !Bit(t[m], j)
    {
      if j < 8 {
        SpillBit(b[k], code, s, 8 * m + j);
        BitBeyond(code, cs, 8 * m + j - s);
      } else {
        BitOfBigByte(t[m], j);
      }
    }
  }

  lemma AppendBits(stream: seq<bool>, sent: seq<Byte>, b: seq<Byte>, b': seq<Byte>, inx: nat,
                    more: seq<bool>)
    requires Holds(stream, 0, sent, 8 * |sent|) && |stream| == 8 * |sent| + inx
    requires inx + |more| <= 8 * |b'| && inx <= 8 * |b| && Holds(stream, 8 * |sent|, b, inx)
    requires forall i: nat {:trigger BitAt(b', i)} :: i < inx + |more| ==>
               BitAt(b', i) == if i < inx then BitAt(b, i) else more[i - inx]
    ensures Holds(stream + more, 0, sent, 8 * |sent|)
    ensures Holds(stream + more, 8 * |sent|, b', inx + |more|)
  {
  }

  /** Buffered bit output. `fd` is the contents of the file written so far. */
  class WriteContext {
    var fd: seq<Byte>
    var inx: nat
    var codeSize: nat
    const buf: array<Byte>

    ghost const header: seq<Byte>  // what the file held before the first block
    ghost var sent: seq<Byte>      // payload of the full blocks written
    ghost var stream: seq<bool>    // every bit written, in order

    ghost predicate Valid()
      reads this, buf
    {
      && buf.Length == 255 + 2
      && inx < 255 * 8
      && codeSize <= 12
      && |sent| % 255 == 0
      && fd == header + FullBlocks(sent)
      && |stream| == 8 * |sent| + inx
      && Holds(stream, 0, sent, 8 * |sent|)
      && Holds(stream, 8 * |sent|, buf[..], inx)
      && ClearFrom(buf[inx / 8], inx % 8)
    }

    constructor (fd: seq<Byte>, codeSize: nat)
      requires codeSize <= 12
      ensures Valid() && stream == [] && header == fd && this.codeSize == codeSize
      ensures fresh(buf)
    {
      this.fd, header, sent, stream := fd, fd, [], [];
      inx, this.codeSize := 0, codeSize;
      buf := new Byte[257](_ => 0);
      new;
      forall j: nat { BitOfZero(j); }
    }

    method WriteCode(code: nat)
      requires Valid() && code < Pow2(codeSize)
      modifies this`fd, this`inx, this`sent, this`stream, buf
      ensures Valid() && stream == old(stream) + LowBits(code, codeSize)
    {
      StoreCode(code);
      inx := inx + codeSize;
      stream := stream + LowBits(code, codeSize);
      if inx >= 255 * 8 {
        FlushFull();
      }
    }

    /** The part of write_code that flushes out a full buffer. */
    method FlushFull()
      requires buf.Length == 257 && 2040 <= inx < 2056 && codeSize <= 12
      requires |sent| % 255 == 0 && fd == header + FullBlocks(sent)
      requires |stream| == 8 * |sent| + inx
      requires Holds(stream, 0, sent, 8 * |sent|) && Holds(stream, 8 * |sent|, buf[..], inx)
      requires ClearFrom(buf[inx / 8], inx % 8)
      modifies this`fd, this`inx, this`sent, buf
      ensures Valid()
    {
      FullBlocksSnoc(sent, buf[..255]);
      fd := fd + [255] + buf[..255];
      ghost var full := buf[..];
      buf[0], buf[1] := buf[255], buf[256];
      forall i | 2 <= i < 257 { buf[i] := 0; }
      inx := inx - 255 * 8;
      MoveBits(stream, sent, full, buf[..], inx);
      assert header + FullBlocks(sent) + [255] + full[..255] == header + (FullBlocks(sent) + [255] + full[..255]);
      sent := sent + full[..255];
    }

    /** The three stores of write_code. */
    method StoreCode(code: nat)
      requires Valid() && code < Pow2(codeSize)
      modifies buf
      ensures var s := stream + LowBits(code, codeSize);
              && Holds(s, 0, sent, 8 * |sent|)
              && Holds(s, 8 * |sent|, buf[..], inx + codeSize)
      ensures ClearFrom(buf[(inx + codeSize) / 8], (inx + codeSize) % 8)
    {
      var k, s := inx / 8, inx % 8;
      var t := Spill(buf[k], code, s);
      ghost var before := buf[..];
      buf[k] := t[0];
      buf[k + 1] := t[1];
      buf[k + 2] := t[2];
      assert buf[..][..k] == before[..k];
      assert forall m :: 0 <= m < 3 ==> buf[..][k + m] == t[m];
      WriteCodeBits(before, buf[..], inx, code, codeSize);
      AppendBits(stream, sent, before, buf[..], inx, LowBits(code, codeSize));
    }

    /** The file ends up as the sub-blocks of a payload that carries the bits written. */
    method FlushCode() returns (ghost payload: seq<Byte>)
      requires Valid()
      modifies this`fd
      ensures Framed(fd, header, payload) && Carries(payload, stream)
    {
      hide Framed, SubBlocks, FullBlocks, Holds, ClearFrom;
      var bytes := (inx + 7) / 8;
      ghost var tail, before := buf[..bytes], fd;
      payload := sent + tail;
      JoinBits(stream, sent, buf[..], inx, bytes);
      if bytes != 0 {
        fd := fd + [bytes] + buf[..bytes];
      }
      fd := fd + [0];
      Flushed(header, sent, tail, before, fd);
    }
  }

  /** A short last block and the empty one complete the sub-blocks. */
  lemma Flushed(header: seq<Byte>, sent: seq<Byte>, tail: seq<Byte>, fd: seq<Byte>, fd': seq<Byte>)
    requires |sent| % 255 == 0 && |tail| <= 255 && fd == header + FullBlocks(sent)
    requires fd' == (if tail == [] then fd else fd + [|tail|] + tail) + [0]
    ensures Framed(fd', header, sent + tail)
  {
    hide Framed, SubBlocks, FullBlocks;
    TailBlock(tail);
    FullThenSubBlocks(sent, tail);
    var full := FullBlocks(sent);
    if tail == [] {
      Associate(header, full, [0]);
    } else {
      Associate(header + full, [|tail|], tail);
      Associate(header + full, [|tail|] + tail, [0]);
      Associate(header, full, [|tail|] + tail + [0]);
    }
    IsFramed(fd', header, sent + tail);
  }

  lemma TailBlock(tail: seq<Byte>)
    requires |tail| <= 255
    ensures SubBlocks(tail) == if tail == [] then [0] else [|tail|] + tail + [0]
  {
    assert SubBlocks([]) == [0];
    if |tail| == 255 {
      assert tail[..255] == tail && tail[255..] == [];
    }
  }

  lemma JoinBits(stream: seq<bool>, sent: seq<Byte>, b: seq<Byte>, inx: nat, bytes: nat)
    requires bytes <= |b| && inx <= 8 * bytes < inx + 8 && |stream| == 8 * |sent| + inx
    requires Holds(stream, 0, sent, 8 * |sent|) && Holds(stream, 8 * |sent|, b, inx)
    requires inx / 8 < |b| && ClearFrom(b[inx / 8], inx % 8)
    ensures Carries(sent + b[..bytes], stream)
  {
    hide Bit;
    forall i: nat | i < 8 * |sent + b[..bytes]|
      ensures BitAt(sent + b[..bytes], i) == (i < |stream| && stream[i])
    {
      if i < 8 * |sent| {
        assert stream[0 + i] == BitAt(sent, i);
      } else if i >= |stream| {
        assert i / 8 - |sent| == inx / 8 && i % 8 >= inx % 8;
      } else {
        assert stream[8 * |sent| + (i - 8 * |sent|)] == BitAt(b, i - 8 * |sent|);
      }
    }
  }

  /** Moving the first 255 bytes of the buffer to the blocks already sent loses no bit. */
  lemma MoveBits(stream: seq<bool>, sent: seq<Byte>, full: seq<Byte>, rest: seq<Byte>, inx: nat)
    requires |full| == 257 && |rest| == 257 && inx < 16
    requires rest[0] == full[255] && rest[1] == full[256]
    requires Holds(stream, 0, sent, 8 * |sent|)
    requires Holds(stream, 8 * |sent|, full, 2040 + inx)
    ensures Holds(stream, 0, sent + full[..255], 8 * |sent + full[..255]|)
    ensures Holds(stream, 8 * |sent + full[..255]|, rest, inx)
  {
    var sent' := sent + full[..255];
    forall i: nat | i < 8 * |sent'|
      ensures stream[0 + i] == BitAt(sent', i)
    {
      if i < 8 * |sent| {
        assert stream[0 + i] == BitAt(sent, i);
      } else {
        assert stream[8 * |sent| + (i - 8 * |sent|)] == BitAt(full, i - 8 * |sent|);
      }
    }
    forall i: nat | i < inx
      ensures stream[8 * |sent'| + i] == BitAt(rest, i)
    {
      assert stream[8 * |sent| + (2040 + i)] == BitAt(full, 2040 + i);
    }
  }

  // ---- reading ----

  /** The code read_code assembles from the byte the next bit is in and the two after it: the third
      counts only when the code is longer than 8 bits. */
  function Assemble(b0: Byte, b1: Byte, b2: Byte, s: nat, cs: nat): nat {
    var two: nat := b0 + Shl(b1, 8);
    var raw: nat := if cs > 8 then two + Shl(b2, 16) else two;
    Pow2Monotone(cs, cs);
    And(Shr(raw, s), Pow2(cs) - 1)
  }

  lemma AssembleBit(b0: Byte, b1: Byte, b2: Byte, s: nat, cs: nat, i: nat)
    requires s < 8 && i < cs <= 12
    ensures Bit(Assemble(b0, b1, b2, s, cs), i) == BitAt([b0, b1, b2], s + i)
  {
    Pow2Table();
    var two: nat := b0 + Shl(b1, 8);
    var raw: nat := if cs > 8 then two + Shl(b2, 16) else two;
    BitOfAnd(Shr(raw, s), Pow2(cs) - 1, i);
    BitOfMask(cs, i);
    BitOfShr(raw, s, i);
    ShlByte(b1);
    BitOfSum(two, b2, 16, s + i);
    BitOfSum(b0, b1, 8, s + i);
  }

  lemma AssembleBound(b0: Byte, b1: Byte, b2: Byte, s: nat, cs: nat)
    ensures Assemble(b0, b1, b2, s, cs) < Pow2(cs)
  {
    Pow2Monotone(cs, cs);
    var two: nat := b0 + Shl(b1, 8);
    AndBound(Shr(if cs > 8 then two + Shl(b2, 16) else two, s), Pow2(cs) - 1);
  }

  /** Three bytes from position k on, a zero standing for the third when it would lie past the end. */
  function ThreeFrom(b: seq<Byte>, k: nat): (t: seq<Byte>)
    requires k + 2 <= |b|
    ensures |t| == 3
  {
    [b[k], b[k + 1], if k + 2 < |b| then b[k + 2] else 0]
  }

  lemma CodeFromBuffer(b: seq<Byte>, n: nat, payload: seq<Byte>, lost: nat, inx: nat, pos: nat,
                        cs: nat)
    requires pos == 8 * lost + inx && n < |b| && lost + n <= |payload| && 1 <= cs <= 12 && inx + cs <= 8 * n
    requires forall i :: 0 <= i < n ==> b[i] == payload[lost + i]
    ensures var t := ThreeFrom(b, inx / 8); var code := Assemble(t[0], t[1], t[2], inx % 8, cs);
            && code < Pow2(cs)
            && forall i: nat {:trigger Bit(code, i)} :: i < cs ==> Bit(code, i) == BitAt(payload, pos + i)
  {
    var k, s := inx / 8, inx % 8;
    var t := ThreeFrom(b, k);
    AssembleBound(t[0], t[1], t[2], s, cs);
    forall i: nat | i < cs
      ensures Bit(Assemble(t[0], t[1], t[2], s, cs), i) == BitAt(payload, pos + i)
    {
      AssembleBit(t[0], t[1], t[2], s, cs, i);
      var q, p := s + i, pos + i;
      assert p == 8 * (lost + k) + q && p / 8 == lost + k + q / 8 && p % 8 == q % 8;
      assert t[q / 8] == b[k + q / 8] == payload[lost + (k + q / 8)];
    }
  }

  lemma NextBlock(payload: seq<Byte>, got: nat, fd: seq<Byte>, off: nat)
    requires off <= |fd| && got <= |payload| && payload[got..] == Deblock(fd[off..])
    ensures off < |fd| && off + 1 + fd[off] <= |fd| ==>
              var n := fd[off];
              && got + n <= |payload| && payload[got + n..] == Deblock(fd[off + 1 + n..])
              && forall i :: got <= i < got + n ==> payload[i] == fd[i - got + off + 1]
    ensures off == |fd| || off + 1 + fd[off] > |fd| ==> got == |payload|
  {
    DeblockStep(fd, off);
    var rest := payload[got..];
    if off < |fd| && off + 1 + fd[off] <= |fd| {
      var n: nat := fd[off];
      assert rest[..n] == fd[off + 1..off + 1 + n] && rest[n..] == payload[got + n..];
      assert forall i :: got <= i < got + n ==> payload[i] == rest[..n][i - got];
    }
  }

  /** Buffered bit input. The file being read is the constant `fd`, `off` how far it has been read. */
  class ReadContext {
    const fd: seq<Byte>
    var off: nat
    var inx: nat
    var size: nat
    var codeSize: nat
    var readMask: nat
    const buf: array<Byte>

    ghost const payload: seq<Byte>  // all the bytes the blocks can deliver
    ghost var got: nat              // how many of them have been delivered
    ghost var lost: nat             // how many of those have left the buffer

    ghost predicate Valid()
      reads this, buf
    {
      && buf.Length == 255 + 3
      && off <= |fd|
      && lost <= got <= |payload| && payload[got..] == Deblock(fd[off..])
      && inx <= size <= 257 * 8
      && size == 8 * (got - lost)
      && forall i :: 0 <= i < got - lost ==> buf[i] == payload[lost + i]
    }

    /** The number of bits consumed so far. */
    ghost function Pos(): nat
      reads this
    {
      8 * lost + inx
    }

    constructor (fd: seq<Byte>, off: nat, codeSize: nat)
      requires off <= |fd|
      ensures Valid() && fresh(buf) && Pos() == 0 && payload == Deblock(fd[off..]) && this.fd == fd
      ensures this.codeSize == codeSize && readMask == Pow2(codeSize) - 1
    {
      Pow2Monotone(codeSize, codeSize);
      this.fd, this.off := fd, off;
      payload, got, lost := Deblock(fd[off..]), 0, 0;
      inx, size := 0, 0;
      this.codeSize, readMask := codeSize, Pow2(codeSize) - 1;
      buf := new Byte[258](_ => 0);
    }

    /** Moves the bytes not yet consumed to the start of the buffer. The C code copies three bytes
        whatever is left; those that do not belong to the buffer any more are not copied here. */
    method DropConsumed()
      requires Valid() && size < inx + 12
      modifies this`inx, this`size, this`lost, buf
      ensures Valid() && Pos() == old(Pos()) && size <= 16
    {
      var lose := inx / 8;
      var i := 0;
      while i < 3 && lose + i < 258
        modifies buf
        invariant 0 <= i <= 3
        invariant forall j :: 0 <= j < i && lose + j < 258 ==> buf[j] == old(buf[lose + j])
        invariant forall j :: i <= j < 258 ==> buf[j] == old(buf[j])
      {
        buf[i] := buf[lose + i];
        i := i + 1;
      }
      inx := inx % 8;
      size := size - lose * 8;
      lost := lost + lose;
    }

    /** Reads `bytes` bytes of the file into the buffer from index `at` on. */
    method ReadFile(at: nat, bytes: nat)
      requires at + bytes <= buf.Length && off + bytes <= |fd|
      modifies this`off, buf
      ensures off == old(off) + bytes
      ensures forall i :: at <= i < at + bytes ==> buf[i] == fd[old(off) + i - at]
      ensures forall i :: 0 <= i < at ==> buf[i] == old(buf[i])
    {
      var k := 0;
      while k < bytes
        modifies buf
        invariant k <= bytes
        invariant forall i :: at <= i < at + k ==> buf[i] == fd[off + i - at]
        invariant forall i :: 0 <= i < at ==> buf[i] == old(buf[i])
      {
        buf[at + k] := fd[off + k];
        k := k + 1;
      }
      off := off + bytes;
    }

    /** Appends the next block to the buffer; reports whether there was one. */
    method ReadBlock() returns (ok: bool)
      requires Valid() && size <= 16
      modifies this`off, this`size, this`got, buf
      ensures ok ==> Valid() && off > old(off)
      ensures !ok ==> old(got) == |payload|
    {
      hide Deblock;
      NextBlock(payload, got, fd, off);
      if off >= |fd| {
        return false;
      }
      var bytes: nat := fd[off];
      off := off + 1;
      if |fd| - off < bytes {
        return false;
      }
      var at := size / 8;
      assert at == got - lost;
      ReadFile(at, bytes);
      forall i | 0 <= i < at + bytes
        ensures buf[i] == payload[lost + i]
      {
        if i >= at {
          assert payload[got + (i - at)] == fd[off - bytes + i - at];
        }
      }
      got := got + bytes;
      size := size + bytes * 8;
      ok := true;
    }

    /** Returns the next codeSize bits as a number, or 0xffff exactly when the blocks hold too few. */
    method ReadCode() returns (code: nat)
      requires Valid() && 1 <= codeSize <= 12 && readMask == Pow2(codeSize) - 1
      modifies this`off, this`inx, this`size, this`got, this`lost, buf
      ensures old(Pos()) + codeSize <= 8 * |payload| ==>
                && Valid() && Pos() == old(Pos()) + codeSize
                && code < Pow2(codeSize)
                && forall i: nat {:trigger Bit(code, i)} :: i < codeSize ==>
                  Bit(code, i) == BitAt(payload, old(Pos()) + i)
      ensures old(Pos()) + codeSize > 8 * |payload| ==> code == 0xffff
    {
      while inx + codeSize > size
        invariant Valid() && Pos() == old(Pos())
        decreases |fd| - off
      {
        DropConsumed();
        var ok := ReadBlock();
        if !ok {
          return 0xffff;
        }
      }
      code := Extract();
    }

    /** The part of read_code after the loop: the buffer holds enough bits. */
    method Extract() returns (code: nat)
      requires Valid() && 1 <= codeSize <= 12 && readMask == Pow2(codeSize) - 1 && inx + codeSize <= size
      modifies this`inx
      ensures Valid() && Pos() == old(Pos()) + codeSize && old(Pos()) + codeSize <= 8 * |payload|
      ensures code < Pow2(codeSize)
      ensures forall i: nat {:trigger Bit(code, i)} :: i < codeSize ==> Bit(code, i) == BitAt(payload, old(Pos()) + i)
    {
      hide And, Shr, Shl, Deblock;
      var at, s := inx / 8, inx % 8;
      var raw: nat := buf[at] + Shl(buf[at + 1], 8);
      if codeSize > 8 {
        raw := raw + Shl(buf[at + 2], 16);
      }
      code := And(Shr(raw, s), readMask);
      CodeFromBuffer(buf[..], got - lost, payload, lost, inx, Pos(), codeSize);
      inx := inx + codeSize;
    }
  }
}
