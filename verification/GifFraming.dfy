/** Any list of codes, each in a width of its own, written through write_code and flush_code of gbmgif.c
    and read back through read_code. */
module GifFraming {
  import opened Bits
  import opened GifBlocks

  /** Every code fits its width, and widths go up to 12. */
  ghost predicate Fit(codes: seq<nat>, widths: seq<nat>) {
    && |codes| == |widths|
    && forall i :: 0 <= i < |codes| ==> 1 <= widths[i] <= 12 && codes[i] < Pow2(widths[i])
  }

  /** The bits of the first n codes. */
  ghost function BitsOf(codes: seq<nat>, widths: seq<nat>, n: nat): seq<bool>
    requires |codes| == |widths| && n <= |codes|
  {
    if n == 0 then [] else BitsOf(codes, widths, n - 1) + LowBits(codes[n - 1], widths[n - 1])
  }

  lemma {:induction false} BitsPrefix(codes: seq<nat>, widths: seq<nat>, m: nat, n: nat)
    requires |codes| == |widths| && m <= n <= |codes|
    ensures BitsOf(codes, widths, m) <= BitsOf(codes, widths, n)
  {
    if m < n {
      BitsPrefix(codes, widths, m, n - 1);
    }
  }

  method WriteAll(header: seq<Byte>, codes: seq<nat>, widths: seq<nat>)
    returns (fd: seq<Byte>, ghost payload: seq<Byte>)
    requires Fit(codes, widths)
    ensures Framed(fd, header, payload) && Carries(payload, BitsOf(codes, widths, |codes|))
    ensures StartsWith(Deblock(fd[|header|..]), BitsOf(codes, widths, |codes|))
  {
    hide Carries, Holds, ClearFrom, FullBlocks, LowBits, Shl;
    var w := new WriteContext(header, 1);
    for i := 0 to |codes|
      invariant w.Valid() && w.header == header && fresh(w) && fresh(w.buf)
      invariant w.stream == BitsOf(codes, widths, i)
    {
      w.codeSize := widths[i];
      w.WriteCode(codes[i]);
    }
    payload := w.FlushCode();
    fd := w.fd;
    BlocksStart(payload, BitsOf(codes, widths, |codes|));
    assert fd[|header|..] == SubBlocks(payload);
  }

  lemma BlocksStart(payload: seq<Byte>, bits: seq<bool>)
    requires Carries(payload, bits)
    ensures StartsWith(Deblock(SubBlocks(payload)), bits)
  {
    DeblockSubBlocks(payload, []);
    assert SubBlocks(payload) + [] == SubBlocks(payload);
    CarriesOn(payload, Deblock([]), bits);
  }

  method ReadAll(fd: seq<Byte>, widths: seq<nat>, ghost codes: seq<nat>) returns (out: seq<nat>)
    requires Fit(codes, widths) && StartsWith(Deblock(fd), BitsOf(codes, widths, |codes|))
    ensures out == codes
  {
    hide StartsWith, LowBits, Deblock, BitsOf, Shl;
    NoBits(codes, widths);
    var c := new ReadContext(fd, 0, 1);
    assert fd[0..] == fd;
    out := [];
    for i := 0 to |widths|
      invariant c.Valid() && fresh(c) && fresh(c.buf) && c.payload == Deblock(fd)
      invariant c.Pos() == |BitsOf(codes, widths, i)| && out == codes[..i]
    {
      c.codeSize := widths[i];
      Pow2Monotone(widths[i], widths[i]);
      c.readMask := Pow2(widths[i]) - 1;
      var code := c.ReadCode();
      NextCode(codes, widths, i, Deblock(fd), code);
      out := out + [code];
    }
  }

  lemma NoBits(codes: seq<nat>, widths: seq<nat>)
    requires |codes| == |widths|
    ensures BitsOf(codes, widths, 0) == []
  {
  }

  lemma NextCode(codes: seq<nat>, widths: seq<nat>, i: nat, payload: seq<Byte>, code: nat)
    requires Fit(codes, widths) && i < |codes| && StartsWith(payload, BitsOf(codes, widths, |codes|))
    requires var pos, w := |BitsOf(codes, widths, i)|, widths[i];
             pos + w <= 8 * |payload| ==>
               && code < Pow2(w)
               && forall k: nat {:trigger Bit(code, k)} :: k < w ==> Bit(code, k) == BitAt(payload, pos + k)
    ensures code == codes[i] && |BitsOf(codes, widths, i + 1)| == |BitsOf(codes, widths, i)| + widths[i]
    ensures |BitsOf(codes, widths, i + 1)| <= 8 * |payload|
  {
    hide StartsWith;
    BitsPrefix(codes, widths, i + 1, |codes|);
    SameCode(BitsOf(codes, widths, i), codes[i], widths[i], BitsOf(codes, widths, |codes|), payload, code);
  }

  /** The codes come back, whatever their widths and whatever follows the blocks in the file. */
  method CodesRoundTrip(codes: seq<nat>, widths: seq<nat>, tail: seq<Byte>) returns (out: seq<nat>)
    requires Fit(codes, widths)
    ensures out == codes
  {
    var fd;
    ghost var payload;
    fd, payload := WriteAll([], codes, widths);
    DeblockSubBlocks(payload, tail);
    assert fd == SubBlocks(payload);
    CarriesOn(payload, Deblock(tail), BitsOf(codes, widths, |codes|));
    out := ReadAll(fd + tail, widths, codes);
  }
}
