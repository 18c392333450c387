/** pcx_rle of gbmpcx.c, and writing and reading back a file. */
module PcxEncoder {
  import opened Bits
  import opened Runs
  import opened PcxRuns
  import opened PcxShortest

  /** pcx_run: the longest run of equal bytes, up to 63. */
  method PcxRun(src: seq<Byte>, at: nat) returns (cnt: nat)
    requires at < |src|
    ensures 1 <= cnt <= 0x3f && at + cnt <= |src| && src[at..at + cnt] == Copies([src[at]], cnt)
    ensures cnt < 0x3f && at + cnt < |src| ==> src[at + cnt] != src[at]
  {
    cnt := 1;
    CopiesStep([src[at]], 0);
    while cnt < 0x3f && at + cnt < |src| && src[at + cnt] == src[at]
      invariant 1 <= cnt <= 0x3f && at + cnt <= |src| && src[at..at + cnt] == Copies([src[at]], cnt)
    {
      CopiesStep([src[at]], cnt);
      assert src[at..at + cnt + 1] == src[at..at + cnt] + [src[at]];
      cnt := cnt + 1;
    }
  }

  /** One turn of the loop of pcx_rle: the next len bytes are encoded. */
  method EncodeRun(src: seq<Byte>, at: nat, dst: array<Byte>, n: nat) returns (len: nat, n': nat)
    requires at < |src| && n + 2 <= dst.Length
    modifies dst
    ensures 1 <= len && at + len <= |src| && n < n' <= dst.Length && n' - n <= 2 * len
    ensures dst[..n] == old(dst[..n]) && Encodes(dst[n..n'], src[at..at + len])
    ensures n' - n + Cost(src[at + len..]) == Cost(src[at..])
  {
    hide Encodes, Copies, And, Or, Cost;
    var b := src[at];
    SixAndTwo(b);
    len := PcxRun(src, at);
    RunIsLead(src, at, len);
    GreedyCode(src[at..], len);
    assert src[at..][len..] == src[at + len..];
    if len > 1 || And(b, 0xc0) == 0xc0 {
      RunByte(len);
      dst[n], dst[n + 1] := Or(0xc0, len), b;
      n' := n + 2;
      EncodesRun(b, len);
      assert dst[n..n'] == [0xc0 + len, b];
    } else {
      dst[n] := b;
      n' := n + 1;
      EncodesByte(b);
      assert dst[n..n'] == [b] == src[at..at + 1];
    }
  }

  /** pcx_rle: its output expands to its input, and no encoding of the input is shorter. */
  method PcxRle(src: seq<Byte>, dst: array<Byte>) returns (n: nat)
    requires dst.Length >= 2 * |src|
    modifies dst
    ensures n <= 2 * |src| && Encodes(dst[..n], src)
    ensures n == Cost(src) && forall s :: Encodes(s, src) ==> n <= |s|
  {
    hide Encodes, Copies, And, Or, Cost;
    n := 0;
    var at: nat := 0;
    assert src[0..] == src;
    EncodesNothing();
    assert dst[..0] == src[..0] == [];
    while at < |src|
      invariant at <= |src| && n <= 2 * at && Encodes(dst[..n], src[..at])
      invariant n + Cost(src[at..]) == Cost(src)
    {
      ghost var was := dst[..n];
      var len, n' := EncodeRun(src, at, dst, n);
      assert src[..at + len] == src[..at] + src[at..at + len];
      EncodesMore(was, src[..at], dst[n..n'], src[at..at + len]);
      assert dst[..n'] == was + dst[n..n'];
      n := n';
      at := at + len;
    }
    assert src[..at] == src && src[at..] == [];
    NoCost(src[at..]);
    forall s | Encodes(s, src)
      ensures n <= |s|
    {
      NoShorter(s, src);
    }
  }

  lemma NoCost(src: seq<Byte>)
    requires src == []
    ensures Cost(src) == 0
  {
  }

  lemma {:induction false} RunIsLead(src: seq<Byte>, at: nat, n: nat)
    requires at < |src| && 1 <= n <= 0x3f && at + n <= |src| && src[at..at + n] == Copies([src[at]], n)
    requires n < 0x3f && at + n < |src| ==> src[at + n] != src[at]
    ensures src[at..] != [] && src[at..][0] == src[at] && n == Min(Lead(src[at..]), 0x3f)
  {
    var s := src[at..];
    assert src[at..at + n] == s[..n];
    LeadAtLeast(s, n);
    assert n < |s| ==> s[n] == src[at + n];
  }

  lemma RunByte(len: nat)
    requires len <= 0x3f
    ensures Or(0xc0, len) == 0xc0 + len
  {
    Pow2Table();
    ShlTimes(3, 6);
    OrJoin(len, 3, 6);
  }

  function Concat(lines: seq<seq<Byte>>): seq<Byte> {
    if lines == [] then [] else Concat(lines[..|lines| - 1]) + lines[|lines| - 1]
  }

  /** pcx_w encodes every line on its own. */
  method WriteLines(lines: seq<seq<Byte>>) returns (file: seq<Byte>)
    ensures |file| <= 2 * |Concat(lines)| && Encodes(file, Concat(lines))
  {
    hide Encodes;
    file := [];
    EncodesNothing();
    for k := 0 to |lines|
      invariant |file| <= 2 * |Concat(lines[..k])| && Encodes(file, Concat(lines[..k]))
    {
      var enc := new Byte[2 * |lines[k]|];
      var n := PcxRle(lines[k], enc);
      EncodesMore(file, Concat(lines[..k]), enc[..n], lines[k]);
      assert lines[..k + 1][..k] == lines[..k];
      file := file + enc[..n];
    }
    assert lines[..|lines|] == lines;
  }

  /** The lines written come back, even when they are read with other widths. */
  method RoundTrip(lines: seq<seq<Byte>>, widths: seq<nat>) returns (out: seq<Byte>)
    requires Sum(widths) == |Concat(lines)|
    ensures out == Concat(lines)
  {
    var file := WriteLines(lines);
    out := ReadLines(file, widths);
    assert file + [] == file;
    assert Expand(file) == Concat(lines) + Expand([]);
    forall i | 0 <= i < |out|
      ensures out[i] == Concat(lines)[i]
    {
      assert out[i] == Upcoming(0, 0, file, i);
    }
  }
}
