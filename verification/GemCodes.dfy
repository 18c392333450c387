/** The run-length codes of a GEM raster line, and the line reader of gbmgem.c. */
module GemCodes {
  import opened Bits
  import opened ReadAhead
  import opened Runs

  datatype Code =
    | Literal(bytes: seq<Byte>)
    | Pattern(unit: seq<Byte>, rep: nat)
    | Solid(shade: Byte, len: nat)

  /** The codes that the format can express; patterns are patlen bytes long. */
  ghost predicate Valid(c: Code, patlen: nat) {
    match c
    case Literal(bytes) => |bytes| <= 0xff
    case Pattern(unit, rep) => |unit| == patlen && 1 <= rep <= 0xff
    case Solid(shade, len) => (shade == 0 || shade == 0xff) && 1 <= len <= 0x7f
  }

  ghost predicate AllValid(codes: seq<Code>, patlen: nat) {
    forall c :: c in codes ==> Valid(c, patlen)
  }

  /** A line ends with a code that stands for something; the reader would not take in others. */
  ghost predicate Ends(codes: seq<Code>) {
    codes != [] ==> Text(codes[|codes| - 1]) != []
  }

  /** The bytes of the line a code stands for. */
  function Text(c: Code): seq<Byte> {
    match c
    case Literal(bytes) => bytes
    case Pattern(unit, rep) => Copies(unit, rep)
    case Solid(shade, len) => Copies([shade], len)
  }

  /** The bytes of the file that express a code. */
  ghost function Written(c: Code, patlen: nat): seq<Byte>
    requires Valid(c, patlen)
  {
    match c
    case Literal(bytes) => [0x80, |bytes|] + bytes
    case Pattern(unit, rep) => [0x00, rep] + unit
    case Solid(shade, len) => [if shade == 0 then len else 0x80 + len]
  }

  function TextOf(codes: seq<Code>): seq<Byte> {
    if codes == [] then [] else Text(codes[0]) + TextOf(codes[1..])
  }

  ghost function WrittenAs(codes: seq<Code>, patlen: nat): seq<Byte>
    requires AllValid(codes, patlen)
  {
    if codes == [] then [] else Written(codes[0], patlen) + WrittenAs(codes[1..], patlen)
  }

  /** A vertical replication code says how many rows, from 1 to 255, the row after it stands for; 0
      says that there is none. */
  ghost function Replication(rep: nat): seq<Byte>
    requires rep <= 0xff
  {
    if rep == 0 then [] else [0x00, 0x00, 0xff, rep]
  }

  /** The bytes of each kind of code, and what they stand for in the line. */
  lemma CodeBytes(a: Byte, b: Byte, c: Byte, n: nat)
    requires 1 <= n <= 0x7f
    ensures Written(Literal([a, b, c]), 3) == [0x80, 0x03, a, b, c] && Text(Literal([a, b, c])) == [a, b, c]
    ensures Written(Pattern([a, b, c], 2), 3) == [0x00, 0x02, a, b, c] &&
            Text(Pattern([a, b, c], 2)) == [a, b, c, a, b, c]
    ensures Written(Solid(0x00, n), 3) == [n] && Written(Solid(0xff, n), 3) == [0x80 + n]
    ensures Text(Solid(a, 2)) == [a, a] && Replication(n) == [0x00, 0x00, 0xff, n] && Replication(0) == []
  {
    CopiesStep([a, b, c], 0);
    CopiesStep([a, b, c], 1);
    CopiesStep([a], 0);
    CopiesStep([a], 1);
  }

  lemma {:induction false} TextSnoc(codes: seq<Code>, c: Code)
    ensures TextOf(codes + [c]) == TextOf(codes) + Text(c)
  {
    if codes != [] {
      TextSnoc(codes[1..], c);
      assert (codes + [c])[1..] == codes[1..] + [c];
    }
  }

  lemma {:induction false} WrittenSnoc(codes: seq<Code>, c: Code, patlen: nat)
    requires AllValid(codes, patlen) && Valid(c, patlen)
    ensures AllValid(codes + [c], patlen)
    ensures WrittenAs(codes + [c], patlen) == WrittenAs(codes, patlen) + Written(c, patlen)
  {
    hide Written, Valid;
    if codes != [] {
      WrittenSnoc(codes[1..], c, patlen);
      assert (codes + [c])[1..] == codes[1..] + [c];
    }
  }

  lemma TextLength(c: Code)
    ensures |Text(c)| == match c
                         case Literal(bytes) => |bytes|
                         case Pattern(unit, rep) => rep * |unit|
                         case Solid(_, len) => len
  {
    match c {
      case Literal(_) =>
      case Pattern(unit, rep) => CopiesLength(unit, rep);
      case Solid(shade, len) => CopiesLength([shade], len);
    }
  }

  lemma {:induction false} SomeText(codes: seq<Code>)
    requires Ends(codes) && codes != []
    ensures TextOf(codes) != []
  {
    if |codes| > 1 {
      SomeText(codes[1..]);
    }
  }

  // ---- reading ----

  /** The branch of read_gem_line for literals: |bytes| bytes are copied from the file. */
  method ReadBytes(ahead: Ahead, line: array<Byte>, at: nat, n: nat, ghost bytes: seq<Byte>, ghost rest: seq<Byte>)
    requires ahead.Valid() && ahead.Rest() == bytes + rest && |bytes| == n && at + n <= line.Length
    modifies ahead, line
    ensures ahead.Valid() && ahead.Rest() == rest
    ensures Spliced(old(line[..]), line[..], at, bytes)
  {
    hide Ahead.Rest, Ahead.Valid;
    for i := 0 to n
      modifies ahead, line
      invariant ahead.Valid() && ahead.Rest() == bytes[i..] + rest
      invariant line[..at] == old(line[..at]) && line[at..at + i] == bytes[..i]
      invariant line[at + i..] == old(line[at + i..])
    {
      var b := ahead.Read();
      assert b == bytes[i];
      line[at + i] := b;
      assert line[at..at + i + 1] == line[at..at + i] + [b];
    }
    assert line[..] == line[..at] + line[at..at + n] + line[at + n..];
  }

  /** One more copy of a pattern: each byte is copied from the one patlen places before it. */
  method CopyPattern(line: array<Byte>, p: nat, patlen: nat, ghost unit: seq<Byte>)
    requires patlen == |unit| && p >= patlen && p + patlen <= line.Length
    requires line[..][p - patlen..p] == unit
    modifies line
    ensures Spliced(old(line[..]), line[..], p, unit)
  {
    ghost var was := line[..];
    for i := 0 to patlen
      invariant line[..p] == was[..p] && line[p..p + i] == unit[..i]
      invariant line[p + i..] == was[p + i..]
    {
      assert line[p + i - patlen] == was[p - patlen..p][i] == unit[i];
      line[p + i] := line[p + i - patlen];
      assert line[p..p + i + 1] == line[p..p + i] + [unit[i]];
    }
    assert line[..] == line[..p] + line[p..p + patlen] + line[p + patlen..];
  }

  /** The copies of a pattern after the first. */
  method RepeatPattern(line: array<Byte>, at: nat, patlen: nat, n: nat, ghost unit: seq<Byte>)
    requires |unit| == patlen && at >= patlen && at + |Copies(unit, n)| <= line.Length
    requires line[..][at - patlen..at] == unit
    modifies line
    ensures Spliced(old(line[..]), line[..], at, Copies(unit, n))
  {
    hide Copies, Spliced;
    ghost var was := line[..];
    var p, rep := at, 0;
    CopiesStep(unit, 0);
    NothingSpliced(was, at);
    while rep < n
      invariant 0 <= rep <= n && at <= p == at + |Copies(unit, rep)| <= line.Length
      invariant Spliced(was, line[..], at, Copies(unit, rep)) && line[..][p - patlen..p] == unit
    {
      CopiesStep(unit, rep);
      CopiesGrow(unit, rep + 1, n);
      ghost var mid := line[..];
      CopyPattern(line, p, patlen, unit);
      SplicedAt(mid, line[..], p, unit);
      SpliceMore(was, mid, line[..], at, Copies(unit, rep), unit);
      p, rep := p + patlen, rep + 1;
    }
  }

  /** The branch of read_gem_line for patterns: one copy from the file, then n - 1 more. */
  method ReadPattern(ahead: Ahead, line: array<Byte>, at: nat, patlen: nat, n: nat,
                     ghost unit: seq<Byte>, ghost rest: seq<Byte>)
    requires ahead.Valid() && ahead.Rest() == unit + rest
    requires |unit| == patlen && n >= 1 && at + |Copies(unit, n)| <= line.Length
    modifies ahead, line
    ensures ahead.Valid() && ahead.Rest() == rest
    ensures Spliced(old(line[..]), line[..], at, Copies(unit, n))
  {
    hide Ahead.Rest, Ahead.Valid, Copies, Spliced;
    ghost var was := line[..];
    CopiesFront(unit, n);
    ReadBytes(ahead, line, at, patlen, unit, rest);
    ghost var mid := line[..];
    SplicedAt(was, mid, at, unit);
    RepeatPattern(line, at + patlen, patlen, n - 1, unit);
    SpliceMore(was, mid, line[..], at, unit, Copies(unit, n - 1));
  }

  /** What is left of a line: its codes from the current one on, and the replication code if it has
      not been read yet. */
  ghost predicate Coming(s: seq<Byte>, rep: nat, codes: seq<Code>, patlen: nat, rest: seq<Byte>) {
    rep <= 0xff && AllValid(codes, patlen) && Ends(codes) && s == Replication(rep) + WrittenAs(codes, patlen) + rest
  }

  /** The first byte tells the kinds of code apart. */
  ghost predicate NextIs(s: seq<Byte>, c: Code, patlen: nat, s': seq<Byte>) {
    match c
    case Literal(bytes) => |bytes| <= 0xff && s == [0x80, |bytes|] + (bytes + s')
    case Pattern(unit, rep) => 1 <= rep <= 0xff && |unit| == patlen && |Text(c)| == rep * patlen
                                && s == [0x00, rep] + (unit + s')
    case Solid(shade, len) => 1 <= len <= 0x7f && (shade == 0 || shade == 0xff) && |Text(c)| == len
                              && s == [if shade == 0 then len else 0x80 + len] + s'
  }

  lemma TwoBytes(s: seq<Byte>, a: Byte, b: Byte, t: seq<Byte>)
    requires s == [a, b] + t
    ensures NextByte(s) == a && NextByte(AfterByte(s)) == b && AfterByte(AfterByte(s)) == t
  {
  }

  lemma OneByte(s: seq<Byte>, a: Byte, t: seq<Byte>)
    requires s == [a] + t
    ensures NextByte(s) == a && AfterByte(s) == t
  {
  }

  lemma WrittenIs(c: Code, patlen: nat, s': seq<Byte>)
    requires Valid(c, patlen)
    ensures NextIs(Written(c, patlen) + s', c, patlen, s')
  {
    TextLength(c);
  }

  lemma NextCode(s: seq<Byte>, codes: seq<Code>, patlen: nat, rest: seq<Byte>)
    returns (s': seq<Byte>)
    requires Coming(s, 0, codes, patlen, rest) && TextOf(codes) != []
    ensures codes != [] && NextIs(s, codes[0], patlen, s') && Coming(s', 0, codes[1..], patlen, rest)
    ensures TextOf(codes) == Text(codes[0]) + TextOf(codes[1..])
  {
    hide Written, Text, NextIs;
    s' := WrittenAs(codes[1..], patlen) + rest;
    assert codes[0] in codes && Valid(codes[0], patlen);
    assert s == Written(codes[0], patlen) + s';
    WrittenIs(codes[0], patlen, s');
    assert s' == Replication(0) + s';
  }

  lemma NextReplication(s: seq<Byte>, rep: nat, codes: seq<Code>, patlen: nat, rest: seq<Byte>)
    returns (s': seq<Byte>)
    requires Coming(s, rep, codes, patlen, rest) && rep > 0
    ensures s == [0x00, 0x00, 0xff, rep] + s' && rep <= 0xff && Coming(s', 0, codes, patlen, rest)
  {
    hide WrittenAs, AllValid, Ends;
    s' := WrittenAs(codes, patlen) + rest;
    assert s' == Replication(0) + WrittenAs(codes, patlen) + rest;
    assert s == [0x00, 0x00, 0xff, rep] + WrittenAs(codes, patlen) + rest == [0x00, 0x00, 0xff, rep] + s';
  }

  lemma NoText(s: seq<Byte>, codes: seq<Code>, patlen: nat, rest: seq<Byte>)
    requires Coming(s, 0, codes, patlen, rest) && TextOf(codes) == []
    ensures s == rest
  {
    if codes != [] {
      SomeText(codes);
      assert false;
    }
  }

  /** One turn of the loop of read_gem_line: the replication code, if there is one, else
      code c. */
  method ReadGemCode(ahead: Ahead, line: array<Byte>, p: nat, patlen: nat, vrep: nat, allowVrep: bool,
                     ghost rep: nat, ghost c: Code, ghost s': seq<Byte>)
    returns (n: nat, vrep': nat)
    requires ahead.Valid() && patlen >= 1 && p <= line.Length
    requires if rep > 0 then allowVrep && rep <= 0xff && ahead.Rest() == [0x00, 0x00, 0xff, rep] + s'
             else NextIs(ahead.Rest(), c, patlen, s') && p + |Text(c)| <= line.Length
    modifies ahead, line
    ensures ahead.Valid() && ahead.Rest() == s'
    ensures if rep > 0 then n == 0 && line[..] == old(line[..]) && vrep' == rep - 1
            else n == |Text(c)| && Spliced(old(line[..]), line[..], p, Text(c)) && vrep' == vrep
  {
    hide Ahead.Rest, Ahead.Valid;
    hide Copies, Spliced, NextByte, AfterByte, And;
    n, vrep' := 0, vrep;
    ghost var s := ahead.Rest();
    if rep > 0 {
      TwoBytes(s, 0x00, 0x00, [0xff, rep] + s');
      TwoBytes([0xff, rep] + s', 0xff, rep, s');
      assert s == [0x00, 0x00] + ([0xff, rep] + s');
    } else {
      match c
      case Literal(bytes) => TwoBytes(s, 0x80, |bytes|, bytes + s');
      case Pattern(unit, n) => TwoBytes(s, 0x00, n, unit + s');
      case Solid(shade, len) => OneByte(s, if shade == 0 then len else 0x80 + len, s');
    }
    var b1 := ahead.Read();
    if b1 == 0x80 {
      var len := ahead.Read();
      ReadBytes(ahead, line, p, len, c.bytes, s');
      n := len;
    } else if b1 == 0x00 {
      var times := ahead.Read();
      if times == 0 && allowVrep {
        var swallowed := ahead.Read();
        var count := ahead.Read();
        vrep' := count - 1;
      } else {
        ReadPattern(ahead, line, p, patlen, times, c.unit, s');
        n := times * patlen;
      }
    } else {
      SevenAndOne(b1);
      var store := if b1 >= 0x80 then 0xff else 0x00;
      n := And(b1, 0x7f);
      Fill(line, p, store, n);
    }
  }

  /** read_gem_line: a line of scan bytes at `at`, coded as `codes`, and the vertical replication
      code before it if there is one. */
  method ReadGemLine(ahead: Ahead, line: array<Byte>, at: nat, scan: nat, patlen: nat, vrep: nat, allowVrep: bool,
                     ghost rep: nat, ghost codes: seq<Code>, ghost rest: seq<Byte>)
    returns (vrep': nat)
    requires rep <= 0xff
    requires ahead.Valid() && Coming(ahead.Rest(), rep, codes, patlen, rest) && patlen >= 1
    requires |TextOf(codes)| == scan >= 1 && at + scan <= line.Length && (rep > 0 ==> allowVrep)
    modifies ahead, line
    ensures ahead.Valid() && ahead.Rest() == rest
    ensures Spliced(old(line[..]), line[..], at, TextOf(codes))
    ensures vrep' == if rep > 0 then rep - 1 else vrep
  {
    hide Ahead.Rest, Ahead.Valid;
    hide TextOf, WrittenAs, Coming, Text, NextIs, Spliced;
    ghost var was := line[..];
    vrep' := vrep;
    var p, left, allow := at, scan, allowVrep;
    ghost var done: seq<Byte>, togo, kind := [], codes, rep;
    NothingSpliced(was, at);
    while left > 0
      modifies ahead, line
      invariant kind == 0 || (kind == rep && allow && left == scan)
      invariant vrep' == if rep > 0 && kind == 0 then rep - 1 else vrep
      invariant ahead.Valid() && Coming(ahead.Rest(), kind, togo, patlen, rest)
      invariant done + TextOf(togo) == TextOf(codes) && left == |TextOf(togo)|
      invariant p == at + |done| && Spliced(was, line[..], at, done)
      decreases left, kind, |togo|
    {
      ghost var mid, c, s' := line[..], Literal([]), [];
      if kind > 0 {
        s' := NextReplication(ahead.Rest(), kind, togo, patlen, rest);
      } else {
        s' := NextCode(ahead.Rest(), togo, patlen, rest);
        c := togo[0];
      }
      var n;
      n, vrep' := ReadGemCode(ahead, line, p, patlen, vrep', allow, kind, c, s');
      p, left, allow := p + n, left - n, false;
      if kind > 0 {
        kind := 0;
      } else {
        SpliceMore(was, mid, line[..], at, done, Text(c));
        done, togo := done + Text(c), togo[1..];
      }
    }
    NoText(ahead.Rest(), togo, patlen, rest);
    assert done == TextOf(codes);
  }
}
