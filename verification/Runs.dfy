/** Repeated patterns, and writing over part of a buffer. */
module Runs {
  import opened Bits

  function Min(a: nat, b: nat): nat { if a < b then a else b }

  function Copies(unit: seq<Byte>, rep: nat): seq<Byte> {
    if rep == 0 then [] else Copies(unit, rep - 1) + unit
  }

  lemma {:induction false} CopiesLength(unit: seq<Byte>, rep: nat)
    ensures |Copies(unit, rep)| == rep * |unit|
  {
    if rep != 0 {
      CopiesLength(unit, rep - 1);
    }
  }

  lemma CopiesStep(unit: seq<Byte>, n: nat)
    ensures Copies(unit, n + 1) == Copies(unit, n) + unit
    ensures n == 0 ==> Copies(unit, n) == []
  {
  }

  lemma {:induction false} CopiesGrow(unit: seq<Byte>, m: nat, n: nat)
    requires m <= n
    ensures |Copies(unit, m)| <= |Copies(unit, n)|
  {
    if m < n {
      CopiesGrow(unit, m, n - 1);
    }
  }

  lemma {:induction false} CopiesFront(unit: seq<Byte>, n: nat)
    requires n >= 1
    ensures Copies(unit, n) == unit + Copies(unit, n - 1)
  {
    if n > 1 {
      CopiesFront(unit, n - 1);
    } else {
      assert [] + unit == unit + [];
    }
  }

  lemma {:induction false} CopiesPrefix(b: Byte, n: nat, k: nat)
    requires k <= n
    ensures |Copies([b], n)| == n && Copies([b], n)[..k] == Copies([b], k)
  {
    CopiesLength([b], n);
    if k < n {
      CopiesPrefix(b, n - 1, k);
      assert Copies([b], n)[..k] == Copies([b], n - 1)[..k];
    }
  }

  // ---- buffers ----

  /** s is `was` with `text` written over it from `at` on. */
  ghost predicate Spliced(was: seq<Byte>, s: seq<Byte>, at: nat, text: seq<Byte>) {
    at + |text| <= |was| && s == was[..at] + text + was[at + |text|..]
  }

  lemma NothingSpliced(was: seq<Byte>, at: nat)
    requires at <= |was|
    ensures Spliced(was, was, at, [])
  {
  }

  lemma SplicedAt(was: seq<Byte>, s: seq<Byte>, at: nat, text: seq<Byte>)
    requires Spliced(was, s, at, text)
    ensures |s| == |was| && at + |text| <= |s| && s[at..at + |text|] == text
  {
  }

  lemma SpliceMore(was: seq<Byte>, mid: seq<Byte>, s: seq<Byte>, at: nat, text: seq<Byte>,
                    more: seq<Byte>)
    requires Spliced(was, mid, at, text) && Spliced(mid, s, at + |text|, more)
    ensures Spliced(was, s, at, text + more)
  {
    var p := at + |text|;
    assert mid[..p] == was[..at] + text;
    assert mid[p + |more|..] == was[p + |more|..];
  }

  /** memset. */
  method Fill(line: array<Byte>, at: nat, b: Byte, n: nat)
    requires at + n <= line.Length
    modifies line
    ensures Spliced(old(line[..]), line[..], at, Copies([b], n))
  {
    ghost var was := line[..];
    for i := 0 to n
      invariant line[..at] == was[..at] && line[at..at + i] == Copies([b], i)
      invariant line[at + i..] == was[at + i..]
    {
      line[at + i] := b;
      assert line[at..at + i + 1] == line[at..at + i] + [b];
    }
    assert line[..] == line[..at] + line[at..at + n] + line[at + n..];
  }

  /** memcpy. */
  method CopyBytes(data: array<Byte>, to: nat, from: nat, n: nat)
    requires to + n <= from && from + n <= data.Length
    modifies data
    ensures Spliced(old(data[..]), data[..], to, old(data[from..from + n]))
  {
    ghost var was := data[..];
    for i := 0 to n
      invariant forall k :: 0 <= k < data.Length ==> data[k] == was[if to <= k < to + i then k + (from - to) else k]
    {
      data[to + i] := data[from + i];
    }
    assert data[..] == was[..to] + was[from..from + n] + was[to + n..];
  }
}
