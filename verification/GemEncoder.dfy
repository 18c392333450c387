/** The run-length encoders of gbmgem.c, for patterns of 1 and of 3 bytes. */
module GemEncoder {
  import opened Bits
  import opened Runs
  import opened GemCodes

  // ---- finders ----

  /** find_run1: the longest run of equal bytes at `at`, up to 127. */
  method FindRun1(data: seq<Byte>, at: nat, len: nat) returns (n: nat)
    requires 1 <= len && at + len <= |data|
    ensures 1 <= n <= Min(len, 0x7f) && data[at..at + n] == Copies([data[at]], n)
    ensures n < Min(len, 0x7f) ==> data[at + n] != data[at]
  {
    var p: nat, left: nat := at + 1, Min(len, 0x7f) - 1;
    CopiesStep([data[at]], 0);
    while left > 0 && data[p] == data[at]
      invariant at < p && p + left == at + Min(len, 0x7f)
      invariant data[at..p] == Copies([data[at]], p - at)
    {
      CopiesStep([data[at]], p - at);
      assert data[at..p + 1] == data[at..p] + [data[p]];
      p, left := p + 1, left - 1;
    }
    n := p - at;
  }

  /** A literal may go on to the byte at k + 1, which neither repeats nor is black or white. */
  predicate LiteralGoesOn(data: seq<Byte>, k: nat)
    requires k + 1 < |data|
  {
    data[k] != data[k + 1] && data[k + 1] != 0x00 && data[k + 1] != 0xff
  }

  /** find_lit1: all of 3 bytes or fewer, else 2 bytes and on until a run may begin. */
  method FindLit1(data: seq<Byte>, at: nat, len: nat) returns (n: nat)
    requires 1 <= len && at + len <= |data|
    ensures len <= 3 ==> n == len
    ensures len > 3 ==> 2 <= n < Min(len, 0x7f)
                        && (forall k :: at + 2 <= k < at + n ==> LiteralGoesOn(data, k))
                        && (n + 1 < Min(len, 0x7f) ==> !LiteralGoesOn(data, at + n))
  {
    if len <= 3 {
      return len;
    }
    var p: nat, left: nat := at + 2, Min(len, 0x7f);
    while left > 3 && LiteralGoesOn(data, p)
      invariant at + 2 <= p && left >= 3 && p + left == at + 2 + Min(len, 0x7f)
      invariant forall k :: at + 2 <= k < p ==> LiteralGoesOn(data, k)
    {
      p, left := p + 1, left - 1;
    }
    n := p - at;
  }

  predicate SameTriple(data: seq<Byte>, at: nat, p: nat): (same: bool)
    requires at + 3 <= |data| && p + 3 <= |data|
    ensures same <==> data[p..p + 3] == data[at..at + 3]
  {
    TripleParts(data, at);
    TripleParts(data, p);
    data[p] == data[at] && data[p + 1] == data[at + 1] && data[p + 2] == data[at + 2]
  }

  lemma TripleParts(data: seq<Byte>, p: nat)
    requires p + 3 <= |data|
    ensures data[p..p + 3] == [data[p], data[p + 1], data[p + 2]]
  {
  }

  /** find_run3: the longest run of equal triples at `at`; lengths are in triples. */
  method FindRun3(data: seq<Byte>, at: nat, len: nat) returns (n: nat)
    requires 1 <= len && at + 3 * len <= |data|
    ensures 1 <= n <= Min(len, 0x7f) && data[at..at + 3 * n] == Copies(data[at..at + 3], n)
    ensures n < Min(len, 0x7f) ==> data[at + 3 * n..at + 3 * n + 3] != data[at..at + 3]
  {
    hide Copies;
    ghost var unit := data[at..at + 3];
    CopiesStep(unit, 0);
    assert [] + unit == unit;
    if len <= 1 {
      return len;
    }
    var p: nat, left: nat := at + 3, Min(len, 0x7f) - 1;
    n := 1;
    while left > 0 && SameTriple(data, at, p)
      invariant 1 <= n && p == at + 3 * n && n + left == Min(len, 0x7f)
      invariant data[at..p] == Copies(unit, n)
    {
      CopiesStep(unit, n);
      assert data[at..p + 3] == data[at..p] + unit;
      p, left, n := p + 3, left - 1, n + 1;
    }
  }

  /** The triple at p differs from the one before it and is neither black nor white. */
  predicate TripleGoesOn(data: seq<Byte>, p: nat)
    requires 3 <= p && p + 3 <= |data|
  {
    && (data[p] != data[p - 3] || data[p + 1] != data[p - 2] || data[p + 2] != data[p - 1])
    && Or(Or(data[p], data[p + 1]), data[p + 2]) != 0x00
    && And(And(data[p], data[p + 1]), data[p + 2]) != 0xff
  }

  /** find_lit3: `len` is in triples, the result in bytes. */
  method FindLit3(data: seq<Byte>, at: nat, len: nat) returns (n: nat)
    requires 1 <= len && at + 3 * len <= |data|
    ensures len == 1 ==> n == 3
    ensures len > 1 ==> 6 <= n <= 3 * Min(len, 42) && n % 3 == 0
                        && (forall k :: 2 <= k < n / 3 ==> TripleGoesOn(data, at + 3 * k))
                        && (n < 3 * Min(len, 42) ==> !TripleGoesOn(data, at + n))
  {
    if len == 1 {
      return 3;
    }
    var p: nat, left: nat := at + 6, Min(len, 0x7f / 3) - 1;
    ghost var t := 2;
    while left >= 2 && TripleGoesOn(data, p)
      invariant 2 <= t && 1 <= left && p == at + 3 * t && t + left == Min(len, 42) + 1
      invariant forall k :: 2 <= k < t ==> TripleGoesOn(data, at + 3 * k)
    {
      p, left, t := p + 3, left - 1, t + 1;
    }
    n := p - at;
  }

  // ---- what has been encoded ----

  /** s is the codes as written, and they stand for text. */
  ghost predicate Coded(s: seq<Byte>, codes: seq<Code>, patlen: nat, text: seq<Byte>) {
    AllValid(codes, patlen) && Ends(codes) && s == WrittenAs(codes, patlen) && TextOf(codes) == text
  }

  lemma CodedMore(s: seq<Byte>, codes: seq<Code>, patlen: nat, text: seq<Byte>,
                   c: Code, s': seq<Byte>, text': seq<Byte>)
    requires Coded(s, codes, patlen, text) && Valid(c, patlen) && Text(c) != []
    requires s' == s + Written(c, patlen) && text' == text + Text(c)
    ensures Coded(s', codes + [c], patlen, text')
  {
    TextSnoc(codes, c);
    WrittenSnoc(codes, c, patlen);
  }

  // ---- writing ----

  method PutSolid(enc: array<Byte>, n: nat, b: Byte, len: nat) returns (n': nat)
    requires (b == 0 || b == 0xff) && 1 <= len <= 0x7f && n < enc.Length
    modifies enc
    ensures n' == n + 1 && enc[..n'] == old(enc[..n]) + Written(Solid(b, len), 3)
  {
    SevenAndOne(b);
    SolidByte(b, len);
    enc[n] := Or(And(b, 0x80), len);
    n' := n + 1;
  }

  lemma SolidByte(b: Byte, len: nat)
    requires (b == 0 || b == 0xff) && 1 <= len <= 0x7f
    ensures Or(b / 128 * 128, len) == if b == 0 then len else 0x80 + len
  {
    Pow2Table();
    ShlTimes(b / 128, 7);
    OrJoin(len, b / 128, 7);
  }

  method PutBytes(enc: array<Byte>, n: nat, head: seq<Byte>, bytes: seq<Byte>) returns (n': nat)
    requires n + |head| + |bytes| <= enc.Length
    modifies enc
    ensures n' == n + |head| + |bytes| && enc[..n'] == old(enc[..n]) + (head + bytes)
  {
    n' := n;
    ghost var all, was := head + bytes, enc[..n];
    for i := 0 to |head| + |bytes|
      invariant n' == n + i && enc[..n'] == was + all[..i]
    {
      enc[n'] := if i < |head| then head[i] else bytes[i - |head|];
      n' := n' + 1;
    }
    assert all[..|all|] == all;
  }

  /** One turn of the loop of encode1: the code c is written for the next len bytes. */
  method EncodeBytes(data: seq<Byte>, at: nat, scan: nat, enc: array<Byte>, n: nat)
    returns (len: nat, n': nat, ghost c: Code)
    requires at + scan == |data| && scan >= 1 && n + 2 * scan + 1 <= enc.Length
    modifies enc
    ensures 1 <= len <= scan && n' <= enc.Length
    ensures Valid(c, 1) && Text(c) == data[at..at + len] && enc[..n'] == old(enc[..n]) + Written(c, 1)
    ensures n' - n <= 2 * len + (if len == scan then 1 else 0)
  {
    hide Copies, Or, And;
    len := FindRun1(data, at, scan);
    if data[at] == 0x00 || data[at] == 0xff {
      c := Solid(data[at], len);
      n' := PutSolid(enc, n, data[at], len);
    } else if len >= 3 {
      c := Pattern([data[at]], len);
      n' := PutBytes(enc, n, [0x00, len], [data[at]]);
      assert [0x00, len] + [data[at]] == Written(c, 1);
    } else {
      len := FindLit1(data, at, scan);
      var bytes := data[at..at + len];
      c := Literal(bytes);
      n' := PutBytes(enc, n, [0x80, len], bytes);
      assert [0x80, len] + bytes == Written(c, 1);
    }
  }

  /** encode1: the buffer has the 2n + 2 bytes gem_w allocates; at most 2n + 1 are used. */
  method Encode1(data: seq<Byte>, enc: array<Byte>) returns (n: nat, ghost codes: seq<Code>)
    requires enc.Length >= 2 * |data| + 2
    modifies enc
    ensures n <= 2 * |data| + 1 && Coded(enc[..n], codes, 1, data)
  {
    hide Coded;
    n, codes := 0, [];
    var at: nat, scan: nat := 0, |data|;
    NothingCoded(enc[..n], 1);
    while scan > 0
      invariant at + scan == |data| && n <= 2 * at + (if scan == 0 then 1 else 0)
      invariant n <= enc.Length && Coded(enc[..n], codes, 1, data[..at])
    {
      ghost var was := enc[..n];
      var len;
      ghost var c;
      len, n, c := EncodeBytes(data, at, scan, enc, n);
      assert data[..at + len] == data[..at] + data[at..at + len];
      CodedMore(was, codes, 1, data[..at], c, enc[..n], data[..at + len]);
      codes := codes + [c];
      at, scan := at + len, scan - len;
    }
    assert data[..at] == data;
  }

  lemma NothingCoded(s: seq<Byte>, patlen: nat)
    requires s == []
    ensures Coded(s, [], patlen, [])
  {
  }

  /** A run of black or white bytes, cut to whole triples; none if it is shorter than one. */
  method FindSolid(data: seq<Byte>, at: nat, scan: nat) returns (len: nat)
    requires 1 <= scan && at + scan <= |data|
    ensures len <= Min(scan, 0x7f) && len % 3 == 0 && data[at..at + len] == Copies([data[at]], len)
    ensures len > 0 ==> data[at] == 0x00 || data[at] == 0xff
  {
    hide Copies;
    CopiesStep([data[at]], 0);
    len := 0;
    if data[at] == 0x00 || data[at] == 0xff {
      var run := FindRun1(data, at, scan);
      len := run / 3 * 3;
      CopiesPrefix(data[at], run, len);
      assert data[at..at + len] == data[at..at + run][..len];
    }
  }

  /** One turn of the loop of encode3: the code c is written for the next len bytes. */
  method EncodeTriples(data: seq<Byte>, at: nat, scan: nat, enc: array<Byte>, n: nat)
    returns (len: nat, n': nat, ghost c: Code)
    requires at + scan == |data| && scan >= 3 && scan % 3 == 0 && n + 2 * scan <= enc.Length
    modifies enc
    ensures 3 <= len <= scan && len % 3 == 0 && n' <= enc.Length
    ensures Valid(c, 3) && Text(c) == data[at..at + len] && enc[..n'] == old(enc[..n]) + Written(c, 3)
    ensures 3 * (n' - n) <= 4 * len + (if len == scan then 3 else 0)
  {
    hide Copies, Or, And;
    len := FindSolid(data, at, scan);
    if len >= 3 {
      c := Solid(data[at], len);
      n' := PutSolid(enc, n, data[at], len);
      return;
    }
    var units := FindRun3(data, at, scan / 3);
    if units >= 2 {
      len := 3 * units;
      ghost var unit := data[at..at + 3];
      c := Pattern(unit, units);
      TripleParts(data, at);
      n' := PutBytes(enc, n, [0x00, units], [data[at], data[at + 1], data[at + 2]]);
      assert [0x00, units] + unit == Written(c, 3);
    } else {
      len := FindLit3(data, at, scan / 3);
      var bytes := data[at..at + len];
      c := Literal(bytes);
      n' := PutBytes(enc, n, [0x80, len], bytes);
      assert [0x80, len] + bytes == Written(c, 3);
    }
  }

  /** encode3: data come in triples; at most a third more bytes, and one, are written. */
  method Encode3(data: seq<Byte>, enc: array<Byte>) returns (n: nat, ghost codes: seq<Code>)
    requires |data| % 3 == 0 && enc.Length >= 2 * |data| + 2
    modifies enc
    ensures 3 * n <= 4 * |data| + 3 && Coded(enc[..n], codes, 3, data)
  {
    hide Coded;
    n, codes := 0, [];
    var at: nat, scan: nat := 0, |data|;
    NothingCoded(enc[..n], 3);
    while scan > 0
      invariant at + scan == |data| && scan % 3 == 0
      invariant 3 * n <= 4 * at + (if scan == 0 then 3 else 0)
      invariant n <= enc.Length && Coded(enc[..n], codes, 3, data[..at])
    {
      ghost var was := enc[..n];
      var len;
      ghost var c;
      len, n, c := EncodeTriples(data, at, scan, enc, n);
      assert data[..at + len] == data[..at] + data[at..at + len];
      CodedMore(was, codes, 3, data[..at], c, enc[..n], data[..at + len]);
      codes := codes + [c];
      at, scan := at + len, scan - len;
    }
    assert data[..at] == data;
  }

  /** How long n bytes are as literals of up to 127 bytes each. */
  function LiteralSize(n: nat): nat { n + 2 * ((n + 126) / 127) }

  /** literally: keeps an encoding that grows by no more than 2 bytes in 127, else writes literals. */
  method Literally(data: seq<Byte>, patlen: nat, enc: array<Byte>, lenEnc: nat, ghost codes: seq<Code>)
    returns (n: nat, ghost codes': seq<Code>)
    requires enc.Length >= 2 * |data| + 2 && lenEnc <= enc.Length && Coded(enc[..lenEnc], codes, patlen, data)
    modifies enc
    ensures n <= LiteralSize(|data|) && n <= enc.Length
    ensures Coded(enc[..n], codes', patlen, data)
    ensures lenEnc <= |data| * 129 / 127 ==> n == lenEnc && codes' == codes
  {
    hide Coded;
    if lenEnc <= |data| * 129 / 127 {
      return lenEnc, codes;
    }
    n, codes' := 0, [];
    var at: nat, scan: nat := 0, |data|;
    ghost var k := 0;
    NothingCoded(enc[..n], patlen);
    while scan > 0
      invariant at + scan == |data| && n == at + 2 * k
      invariant if scan > 0 then at == 127 * k else 127 * (k - 1) < at <= 127 * k || k == 0 == at
      invariant n <= enc.Length && Coded(enc[..n], codes', patlen, data[..at])
    {
      ghost var was := enc[..n];
      var len := Min(scan, 0x7f);
      n := PutBytes(enc, n, [0x80, len], data[at..at + len]);
      assert data[..at + len] == data[..at] + data[at..at + len];
      ghost var c := Literal(data[at..at + len]);
      assert enc[..n] == was + Written(c, patlen);
      CodedMore(was, codes', patlen, data[..at], c, enc[..n], data[..at + len]);
      codes' := codes' + [c];
      at, scan, k := at + len, scan - len, k + 1;
    }
    assert data[..at] == data;
  }
}
