/** No encoding of a line in the run-length code of PCX is shorter than the one pcx_rle finds. */
module PcxShortest {
  import opened Bits
  import opened Runs
  import opened PcxRuns

  /** What n equal bytes cost in the runs pcx_rle makes of them. */
  function BlockCost(b: Byte, n: nat): nat {
    if n == 0 then 0
    else if n <= 0x3f then (if n > 1 || b >= 0xc0 then 2 else 1)
    else 2 + BlockCost(b, n - 0x3f)
  }

  /** How many bytes at the start are equal. */
  function Lead(src: seq<Byte>): (n: nat)
    ensures n <= |src| && (src != [] ==> n >= 1)
    ensures n < |src| ==> src != [] && src[n] != src[0]
    ensures forall i :: 0 <= i < n ==> src[i] == src[0]
  {
    if |src| <= 1 then |src|
    else if src[1] != src[0] then 1
    else 1 + Lead(src[1..])
  }

  lemma LeadIs(src: seq<Byte>, n: nat)
    requires 1 <= n <= |src| && (forall i :: 0 <= i < n ==> src[i] == src[0])
    requires n < |src| ==> src[n] != src[0]
    ensures Lead(src) == n
  {
  }

  lemma {:induction false} LeadAtLeast(src: seq<Byte>, n: nat)
    requires 1 <= n <= |src| && src[..n] == Copies([src[0]], n)
    ensures Lead(src) >= n
  {
    CopiesAre(src[0], n);
    forall i | 0 <= i < n
      ensures src[i] == src[0]
    {
      assert src[..n][i] == src[0];
    }
  }

  /** What a line costs: block after block of equal bytes. */
  function Cost(src: seq<Byte>): nat
    decreases |src|
  {
    if src == [] then 0 else BlockCost(src[0], Lead(src)) + Cost(src[Lead(src)..])
  }

  lemma {:induction false} BlockMonotone(b: Byte, m: nat, n: nat)
    requires m <= n
    ensures BlockCost(b, m) <= BlockCost(b, n)
  {
    if m > 0x3f {
      BlockMonotone(b, m - 0x3f, n - 0x3f);
    }
  }

  /** Coding the first k of n equal bytes by any one code saves nothing: that is what makes the
      greedy choice of the longest run right. */
  lemma {:induction false} NoSaving(b: Byte, n: nat, k: nat, c: nat)
    requires 1 <= k <= n && k <= 0x3f && (c == 2 || (c == 1 == k && b < 0xc0))
    ensures BlockCost(b, n) <= c + BlockCost(b, n - k)
  {
    if n > 0x3f {
      if c == 2 {
        BlockMonotone(b, n - 0x3f, n - k);
      } else if n > 0x40 {
        NoSaving(b, n - 0x3f, 1, 1);
      }
    } else if c == 1 && n > 1 {
      assert BlockCost(b, n - 1) >= 1;
    }
  }

  lemma {:induction false} CostWithout(src: seq<Byte>, k: nat)
    requires k <= Lead(src) && src != []
    ensures Cost(src[k..]) == BlockCost(src[0], Lead(src) - k) + Cost(src[Lead(src)..])
  {
    var n := Lead(src);
    if k < n {
      LeadIs(src[k..], n - k);
      assert src[k..][n - k..] == src[n..];
    }
  }

  lemma {:induction false} AnyCode(src: seq<Byte>, k: nat, c: nat)
    requires 1 <= k <= |src| && k <= 0x3f && src[..k] == Copies([src[0]], k)
    requires c == 2 || (c == 1 == k && src[0] < 0xc0)
    ensures Cost(src) <= c + Cost(src[k..])
  {
    LeadAtLeast(src, k);
    CostWithout(src, k);
    CostWithout(src, 0);
    NoSaving(src[0], Lead(src), k, c);
    assert src[0..] == src;
  }

  /** The code pcx_rle chooses leaves exactly the cost of the rest. */
  lemma {:induction false} GreedyCode(src: seq<Byte>, k: nat)
    requires src != [] && k == Min(Lead(src), 0x3f)
    ensures Cost(src) == (if k > 1 || src[0] >= 0xc0 then 2 else 1) + Cost(src[k..])
  {
    CostWithout(src, k);
  }

  // ---- every encoding ----

  lemma DropByte(s: seq<Byte>, src: seq<Byte>)
    requires Encodes(s, src) && s != [] && s[0] < 0xc0 && src != []
    ensures src[0] == s[0] && Encodes(s[1..], src[1..])
  {
    assert s + [] == s;
    assert Expand(s + []) == src + Expand([]) == src;
    assert Expand(s) == [s[0]] + Expand(s[1..]);
    forall rest: seq<Byte>
      ensures Expand(s[1..] + rest) == src[1..] + Expand(rest)
    {
      assert (s + rest)[1..] == s[1..] + rest && (s + rest)[0] == s[0];
      assert [s[0]] + Expand(s[1..] + rest) == src + Expand(rest);
      assert ([s[0]] + Expand(s[1..] + rest))[1..] == Expand(s[1..] + rest);
      assert (src + Expand(rest))[1..] == src[1..] + Expand(rest);
    }
  }

  lemma DropRun(s: seq<Byte>, src: seq<Byte>)
    requires Encodes(s, src) && |s| >= 2 && s[0] >= 0xc0
    ensures var k := s[0] - 0xc0;
            k <= |src| && src[..k] == Copies([s[1]], k) && Encodes(s[2..], src[k..])
  {
    var k := s[0] - 0xc0;
    CopiesAre(s[1], k);
    assert s + [] == s;
    assert Expand(s + []) == src + Expand([]) == src;
    assert Expand(s) == Copies([s[1]], k) + Expand(s[1..][1..]);
    forall rest: seq<Byte>
      ensures Expand(s[2..] + rest) == src[k..] + Expand(rest)
    {
      assert (s + rest)[1..][1..] == s[2..] + rest && (s + rest)[1..][0] == s[1];
      assert Expand(s + rest) == src + Expand(rest);
      assert (src + Expand(rest))[k..] == src[k..] + Expand(rest);
    }
  }

  /** A run count alone encodes nothing: its meaning depends on what follows. */
  lemma RunNeedsByte(c: Byte, src: seq<Byte>)
    requires c >= 0xc0
    ensures !Encodes([c], src)
  {
    var k := c - 0xc0;
    CopiesAre(0, k);
    CopiesAre(1, k);
    CopiesAre(0xc2, k);
    PlainBytes();
    var t: seq<Byte> := if k == 1 then [0xc2, 0] else if src != [] && src[0] == 0 then [1] else [0];
    RunThen(c, t[0], t[1..]);
    assert [t[0]] + t[1..] == t;
    var left, right := Expand([c] + t), src + Expand(t);
    assert left == Copies([t[0]], k) + Expand(t[1..]);
    assert k > 0 ==> left[0] == t[0];
    assert if src == [] then right == Expand(t) else right[0] == src[0];
    assert if k == 1 then Expand(t[1..]) == [0] && Expand(t) == [0, 0] else Expand(t[1..]) == [] && Expand(t) == t;
    assert left != right;
  }

  lemma {:induction false} RunThen(c: Byte, b: Byte, t: seq<Byte>)
    requires c >= 0xc0
    ensures Expand([c] + ([b] + t)) == Copies([b], c - 0xc0) + Expand(t)
  {
    hide Expand, Copies;
    EncodesRun(b, c - 0xc0);
    assert Expand([c, b] + t) == Copies([b], c - 0xc0) + Expand(t);
    assert [c] + ([b] + t) == [c, b] + t;
  }

  lemma PlainBytes()
    ensures Expand([0]) == [0] && Expand([1]) == [1] && Expand([0xc2, 0]) == [0, 0] && Expand([]) == []
    ensures [0] + [] == [0] && [1] + [] == [1] && [0xc2] + [0] == [0xc2, 0]
  {
    assert Copies([0], 2) == [0, 0];
  }

  lemma NothingEncodes(src: seq<Byte>)
    requires Encodes([], src)
    ensures src == []
  {
    var nothing: seq<Byte> := [];
    assert Expand(nothing + nothing) == src + Expand(nothing);
  }

  /** Nothing shorter encodes the line. */
  lemma {:induction false} NoShorter(s: seq<Byte>, src: seq<Byte>)
    requires Encodes(s, src)
    ensures |s| >= Cost(src)
    decreases |s|
  {
    if src == [] {
    } else if s == [] {
      NothingEncodes(src);
      assert false;
    } else if s[0] < 0xc0 {
      DropByte(s, src);
      NoShorter(s[1..], src[1..]);
      CopiesStep([src[0]], 0);
      assert src[..1] == [src[0]];
      AnyCode(src, 1, 1);
    } else if |s| == 1 {
      assert s == [s[0]];
      RunNeedsByte(s[0], src);
      assert false;
    } else {
      DropRun(s, src);
      var k := s[0] - 0xc0;
      NoShorter(s[2..], src[k..]);
      if k > 0 {
        CopiesAre(s[1], k);
        assert src[0] == src[..k][0] == s[1];
        AnyCode(src, k, 2);
      } else {
        assert src[0..] == src;
      }
    }
  }
}
