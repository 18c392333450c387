/** The run-length code of PCX files, and its reader: read_pcx_line of gbmpcx.c. */
module PcxRuns {
  import opened Bits
  import opened ReadAhead
  import opened Runs

  /** Everything a file expands to. A byte from 0xc0 up is a run of the next byte, or of 0xff if the
      file ends there. */
  function Expand(s: seq<Byte>): seq<Byte> {
    if s == [] then []
    else if s[0] < 0xc0 then [s[0]] + Expand(s[1..])
    else Copies([NextByte(s[1..])], s[0] - 0xc0) + Expand(AfterByte(s[1..]))
  }

  /** Byte i of what a reader will deliver: what is left of a run, what the rest of the file expands
      to, and 0xff for ever after. */
  function Upcoming(left: nat, val: Byte, rest: seq<Byte>, i: nat): Byte {
    if i < left then val
    else if i - left < |Expand(rest)| then Expand(rest)[i - left]
    else 0xff
  }

  /** A reader that has delivered n bytes delivers what comes after them. */
  ghost predicate Advanced(left: nat, val: Byte, rest: seq<Byte>, n: nat, left': nat, val': Byte, rest': seq<Byte>) {
    forall i: nat :: Upcoming(left', val', rest', i) == Upcoming(left, val, rest, n + i)
  }

  lemma AdvancedMore(left: nat, val: Byte, rest: seq<Byte>, n: nat, left': nat, val': Byte,
                      rest': seq<Byte>, n': nat, left'': nat, val'': Byte, rest'': seq<Byte>)
    requires Advanced(left, val, rest, n, left', val', rest')
    requires Advanced(left', val', rest', n', left'', val'', rest'')
    ensures Advanced(left, val, rest, n + n', left'', val'', rest'')
  {
    hide Upcoming;
    forall i: nat
      ensures Upcoming(left'', val'', rest'', i) == Upcoming(left, val, rest, n + n' + i)
    {
      assert Upcoming(left'', val'', rest'', i) == Upcoming(left', val', rest', n' + i);
      assert n + (n' + i) == n + n' + i;
    }
  }

  /** Part of a run is delivered; when nothing of it is left its value does not matter. */
  lemma TakeFromRun(left: nat, val: Byte, rest: seq<Byte>, p: nat,
                     run: nat, b: Byte, rest': seq<Byte>, n: nat, b': Byte)
    requires Advanced(left, val, rest, p, run, b, rest') && n <= run && (n < run ==> b' == b)
    ensures Advanced(left, val, rest, p + n, run - n, b', rest')
    ensures forall j :: p <= j < p + n ==> Upcoming(left, val, rest, j) == b
  {
    hide Expand;
    assert Advanced(run, b, rest', n, run - n, b', rest');
    AdvancedMore(left, val, rest, p, run, b, rest', n, run - n, b', rest');
    forall j | p <= j < p + n
      ensures Upcoming(left, val, rest, j) == b
    {
      assert Upcoming(run, b, rest', j - p) == Upcoming(left, val, rest, p + (j - p));
    }
  }

  lemma NothingTaken(left: nat, val: Byte, rest: seq<Byte>)
    ensures Advanced(left, val, rest, 0, left, val, rest)
  {
  }

  lemma {:induction false} SplicedRun(was: seq<Byte>, s: seq<Byte>, at: nat, b: Byte, n: nat)
    requires Spliced(was, s, at, Copies([b], n))
    ensures |s| == |was| && forall k :: 0 <= k < |s| ==> s[k] == if at <= k < at + n then b else was[k]
  {
    CopiesAre(b, n);
  }

  /** A single byte is delivered. */
  lemma TakeByte(val: Byte, rest: seq<Byte>)
    requires rest != [] && rest[0] < 0xc0
    ensures Advanced(0, val, rest, 1, 0, val, rest[1..])
    ensures Upcoming(0, val, rest, 0) == rest[0]
  {
    forall i: nat
      ensures Upcoming(0, val, rest[1..], i) == Upcoming(0, val, rest, 1 + i)
    {
    }
  }

  /** A run code is taken in; the end of the file reads as runs of 63 bytes 0xff. */
  lemma StartRun(val: Byte, rest: seq<Byte>)
    requires NextByte(rest) >= 0xc0
    ensures Advanced(0, val, rest, 0, NextByte(rest) - 0xc0, NextByte(AfterByte(rest)), AfterByte(AfterByte(rest)))
  {
    var n, b, rest' := NextByte(rest) - 0xc0, NextByte(AfterByte(rest)), AfterByte(AfterByte(rest));
    CopiesAre(b, n);
    forall i: nat
      ensures Upcoming(n, b, rest', i) == Upcoming(0, val, rest, 0 + i)
    {
      if rest != [] {
        assert Expand(rest) == Copies([b], n) + Expand(rest');
      }
    }
  }

  lemma {:induction false} CopiesAre(b: Byte, n: nat)
    ensures |Copies([b], n)| == n && forall i :: 0 <= i < n ==> Copies([b], n)[i] == b
  {
    if n > 0 {
      CopiesAre(b, n - 1);
    }
  }

  /** read_pcx_line: n bytes are delivered, wherever the runs of the file begin and end. */
  method ReadPcxLine(ahead: Ahead, line: array<Byte>, n: nat, runLeft: nat, runVal: Byte)
    returns (left: nat, val: Byte)
    requires ahead.Valid() && n <= line.Length && runLeft <= 0x3f
    modifies ahead, line
    ensures ahead.Valid() && left <= 0x3f
    ensures forall i :: 0 <= i < n ==> line[i] == Upcoming(runLeft, runVal, old(ahead.Rest()), i)
    ensures Advanced(runLeft, runVal, old(ahead.Rest()), n, left, val, ahead.Rest())
  {
    hide Ahead.Rest, Ahead.Valid;
    hide Upcoming, Advanced, Expand, Copies, Spliced, And;
    ghost var s := ahead.Rest();
    left, val := runLeft, runVal;
    var p: nat := 0;
    NothingTaken(left, val, s);
    while left > 0 && p < n
      modifies line
      invariant p <= n && left <= runLeft
      invariant forall i :: 0 <= i < p ==> line[i] == Upcoming(runLeft, runVal, s, i)
      invariant Advanced(runLeft, runVal, s, p, left, val, s)
    {
      TakeFromRun(runLeft, runVal, s, p, left, val, s, 1, val);
      line[p] := val;
      left, p := left - 1, p + 1;
    }
    while p < n
      modifies ahead, line
      invariant p <= n && left <= 0x3f && (p < n ==> left == 0)
      invariant ahead.Valid()
      invariant forall i :: 0 <= i < p ==> line[i] == Upcoming(runLeft, runVal, s, i)
      invariant Advanced(runLeft, runVal, s, p, left, val, ahead.Rest())
      decreases n - p, |ahead.Rest()|
    {
      ghost var rest := ahead.Rest();
      var b1 := ahead.Read();
      SixAndTwo(b1);
      if And(b1, 0xc0) == 0xc0 {
        var b2 := ahead.Read();
        StartRun(val, rest);
        AdvancedMore(runLeft, runVal, s, p, 0, val, rest, 0, b1 - 0xc0, b2, ahead.Rest());
        var cnt := And(b1, 0x3f);
        if cnt > n - p {
          left, val := cnt - (n - p), b2;
          cnt := n - p;
        }
        TakeFromRun(runLeft, runVal, s, p, b1 - 0xc0, b2, ahead.Rest(), cnt, val);
        ghost var was := line[..];
        Fill(line, p, b2, cnt);
        SplicedRun(was, line[..], p, b2, cnt);
        forall i | 0 <= i < p + cnt
          ensures line[i] == Upcoming(runLeft, runVal, s, i)
        {
          assert line[..][i] == if p <= i then b2 else was[i];
        }
        p := p + cnt;
      } else {
        TakeByte(val, rest);
        AdvancedTo(runLeft, runVal, s, p, 0, val, rest, 0);
        AdvancedMore(runLeft, runVal, s, p, 0, val, rest, 1, 0, val, ahead.Rest());
        line[p] := b1;
        p := p + 1;
      }
    }
  }

  lemma AdvancedTo(left: nat, val: Byte, rest: seq<Byte>, n: nat, left': nat, val': Byte,
                    rest': seq<Byte>, i: nat)
    requires Advanced(left, val, rest, n, left', val', rest')
    ensures Upcoming(left', val', rest', i) == Upcoming(left, val, rest, n + i)
  {
  }

  function Sum(widths: seq<nat>): nat {
    if widths == [] then 0 else Sum(widths[..|widths| - 1]) + widths[|widths| - 1]
  }

  lemma SumNothing(widths: seq<nat>)
    ensures Sum(widths[..0]) == 0
  {
  }

  lemma SumSnoc(widths: seq<nat>, k: nat)
    requires k < |widths|
    ensures Sum(widths[..k + 1]) == Sum(widths[..k]) + widths[k]
  {
    assert widths[..k + 1][..k] == widths[..k];
  }

  /** pcx_rdata: lines of any widths, read one after the other with the run carried from line to
      line, are the bytes the file expands to. */
  method ReadLines(file: seq<Byte>, widths: seq<nat>) returns (out: seq<Byte>)
    ensures |out| == Sum(widths)
    ensures forall i :: 0 <= i < |out| ==> out[i] == Upcoming(0, 0, file, i)
  {
    hide Ahead.Rest, Ahead.Valid;
    hide Upcoming, Advanced, Expand, Sum;
    var ahead := new Ahead(file);
    var runLeft: nat, runVal: Byte := 0, 0;
    out := [];
    SumNothing(widths);
    NothingTaken(0, 0, file);
    for k := 0 to |widths|
      modifies ahead
      invariant ahead.Valid() && runLeft <= 0x3f && |out| == Sum(widths[..k])
      invariant forall i :: 0 <= i < |out| ==> out[i] == Upcoming(0, 0, file, i)
      invariant Advanced(0, 0, file, |out|, runLeft, runVal, ahead.Rest())
    {
      var line := new Byte[widths[k]];
      ghost var left, val, rest := runLeft, runVal, ahead.Rest();
      runLeft, runVal := ReadPcxLine(ahead, line, widths[k], runLeft, runVal);
      AdvancedMore(0, 0, file, |out|, left, val, rest, widths[k], runLeft, runVal, ahead.Rest());
      forall i | |out| <= i < |out| + widths[k]
        ensures line[i - |out|] == Upcoming(0, 0, file, i)
      {
        AdvancedTo(0, 0, file, |out|, left, val, rest, i - |out|);
      }
      SumSnoc(widths, k);
      out := out + line[..];
    }
    assert widths[..|widths|] == widths;
  }

  // ---- encodings ----

  /** s expands to text, whatever follows it. */
  ghost predicate Encodes(s: seq<Byte>, text: seq<Byte>) {
    forall rest: seq<Byte> :: Expand(s + rest) == text + Expand(rest)
  }

  lemma EncodesMore(s: seq<Byte>, text: seq<Byte>, s': seq<Byte>, text': seq<Byte>)
    requires Encodes(s, text) && Encodes(s', text')
    ensures Encodes(s + s', text + text')
  {
    hide Expand;
    forall rest: seq<Byte>
      ensures Expand(s + s' + rest) == text + text' + Expand(rest)
    {
      assert s + s' + rest == s + (s' + rest);
      assert Expand(s + (s' + rest)) == text + Expand(s' + rest);
    }
  }

  lemma EncodesNothing()
    ensures Encodes([], [])
  {
    forall rest: seq<Byte>
      ensures Expand([] + rest) == [] + Expand(rest)
    {
      assert [] + rest == rest;
    }
  }

  lemma EncodesByte(b: Byte)
    requires b < 0xc0
    ensures Encodes([b], [b])
  {
    forall rest: seq<Byte>
      ensures Expand([b] + rest) == [b] + Expand(rest)
    {
      assert ([b] + rest)[1..] == rest;
    }
  }

  lemma {:induction false} EncodesRun(b: Byte, n: nat)
    requires n <= 0x3f
    ensures Encodes([0xc0 + n, b], Copies([b], n))
  {
    forall rest: seq<Byte>
      ensures Expand([0xc0 + n, b] + rest) == Copies([b], n) + Expand(rest)
    {
      assert ([0xc0 + n, b] + rest)[1..] == [b] + rest;
      assert ([b] + rest)[1..] == rest;
    }
  }
}
