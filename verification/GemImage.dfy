/** Raster data of a GEM image with one plane: vertical replication on top of the coded lines. */
module GemImage {
  import opened Bits
  import opened ReadAhead
  import opened Runs
  import opened GemCodes
  import opened GemEncoder

  datatype Layout = Layout(h: nat, stride: nat, scan: nat) {
    ghost predicate Holds(size: nat) { 1 <= scan <= stride && size == h * stride }
  }

  /** The scan bytes of row y of a bitmap, counted from the bottom row up. */
  function Line(l: Layout, data: seq<Byte>, y: nat): seq<Byte>
    requires l.Holds(|data|) && y < l.h
  {
    LineInside(l, y);
    data[y * l.stride..y * l.stride + l.scan]
  }

  /** The n top rows, top row first: the order of the file. */
  function TopDown(l: Layout, data: seq<Byte>, n: nat): (rows: seq<seq<Byte>>)
    requires l.Holds(|data|) && n <= l.h
    ensures |rows| == n && forall k :: 0 <= k < n ==> rows[k] == Line(l, data, l.h - 1 - k)
  {
    seq(n, (k: int) requires 0 <= k < n => Line(l, data, l.h - 1 - k))
  }

  lemma LineInside(l: Layout, y: nat)
    requires y < l.h
    ensures 0 <= y * l.stride && y * l.stride + l.stride <= l.h * l.stride
  {
    TimesMonotone(0, y, l.stride);
    TimesMonotone(y + 1, l.h, l.stride);
    assert (y + 1) * l.stride == y * l.stride + l.stride;
  }

  lemma LineBytes(l: Layout, data: seq<Byte>, y: nat, k: nat)
    requires l.Holds(|data|) && y < l.h && k < l.scan
    ensures y * l.stride + k < |data| && |Line(l, data, y)| == l.scan && Line(l, data, y)[k] == data[y * l.stride + k]
  {
    LineInside(l, y);
  }

  // ---- the bytes of a row in the file ----

  /** Rows of one bit a pixel are coded as they are or complemented, rows of 24 bits with red and blue
      exchanged. */
  datatype Form = Plain | Inverted | Swapped {
    function PatLen(): nat { if Swapped? then 3 else 1 }

    ghost predicate Fits(l: Layout) { Swapped? ==> l.scan % 3 == 0 }
  }

  function Complement(line: seq<Byte>): (r: seq<Byte>)
    ensures |r| == |line| && forall i :: 0 <= i < |line| ==> r[i] == 255 - line[i]
  {
    seq(|line|, (i: int) requires 0 <= i < |line| => 255 - line[i])
  }

  /** The first and the third byte of every triple exchanged. */
  function Exchanged(line: seq<Byte>): (r: seq<Byte>)
    ensures |r| == |line|
  {
    if |line| < 3 then line else [line[2], line[1], line[0]] + Exchanged(line[3..])
  }

  lemma {:induction false} ExchangedTwice(line: seq<Byte>)
    ensures Exchanged(Exchanged(line)) == line
  {
    if |line| >= 3 {
      ExchangedTwice(line[3..]);
      assert Exchanged(line)[3..] == Exchanged(line[3..]);
    }
  }

  function Formed(form: Form, line: seq<Byte>): (r: seq<Byte>)
    ensures |r| == |line|
  {
    match form
    case Plain => line
    case Inverted => Complement(line)
    case Swapped => Exchanged(line)
  }

  /** The byte at the same place from the other end of a triple. */
  function Opposite(k: nat): nat { if k % 3 == 0 then k + 2 else if k % 3 == 2 then k - 2 else k }

  /** Byte by byte: what is coded for a row is the row, or has 255 minus each byte, or the bytes of every
      triple in the opposite order. */
  ghost predicate CodedAs(form: Form, row: seq<Byte>, text: seq<Byte>) {
    && |text| == |row|
    && match form
       case Plain => text == row
       case Inverted => forall k: nat {:trigger text[k]} :: k < |row| ==> text[k] == 255 - row[k]
       case Swapped => forall k: nat {:trigger text[k]} :: k < |row| ==>
         Opposite(k) < |row| && text[k] == row[Opposite(k)]
  }

  /** For 24 bits the red, green and blue of a pixel in the file are the third, second and first byte of
      the pixel in the bitmap. */
  lemma RedGreenBlue(row: seq<Byte>, text: seq<Byte>, x: nat)
    requires CodedAs(Swapped, row, text) && 3 * x + 2 < |row|
    ensures text[3 * x] == row[3 * x + 2] && text[3 * x + 1] == row[3 * x + 1] && text[3 * x + 2] == row[3 * x]
  {
    assert Opposite(3 * x) == 3 * x + 2 && Opposite(3 * x + 1) == 3 * x + 1 && Opposite(3 * x + 2) == 3 * x;
  }

  lemma FormedBytes(form: Form, row: seq<Byte>)
    requires form.Swapped? ==> |row| % 3 == 0
    ensures CodedAs(form, row, Formed(form, row))
  {
    if form.Swapped? {
      forall k: nat | k < |row|
        ensures Opposite(k) < |row| && Formed(form, row)[k] == row[Opposite(k)]
      {
        ExchangedAt(row, k / 3);
      }
    }
  }

  /** Row n of the file, counted from the top, stands for the row n of the bitmap from the top. */
  ghost predicate RowCoded(l: Layout, data: seq<Byte>, form: Form, n: nat, text: seq<Byte>)
    requires l.Holds(|data|) && n < l.h
  {
    CodedAs(form, Line(l, data, l.h - 1 - n), text)
  }

  lemma FormedRow(l: Layout, data: seq<Byte>, form: Form, n: nat)
    requires l.Holds(|data|) && form.Fits(l) && n < l.h
    ensures RowCoded(l, data, form, n, FormedAll(form, TopDown(l, data, l.h))[n])
  {
    hide Formed, CodedAs;
    LineLength(l, data, l.h - 1 - n);
    FormedBytes(form, Line(l, data, l.h - 1 - n));
  }

  function FormedAll(form: Form, rows: seq<seq<Byte>>): (r: seq<seq<Byte>>)
    ensures |r| == |rows| && forall i :: 0 <= i < |rows| ==> r[i] == Formed(form, rows[i])
  {
    seq(|rows|, (i: int) requires 0 <= i < |rows| => Formed(form, rows[i]))
  }

  lemma FormedMore(form: Form, rows: seq<seq<Byte>>, more: seq<seq<Byte>>)
    ensures FormedAll(form, rows + more) == FormedAll(form, rows) + FormedAll(form, more)
  {
    hide Formed;
  }

  lemma {:induction false} ExchangedAt(line: seq<Byte>, i: nat)
    requires 3 * i + 2 < |line|
    ensures var r := Exchanged(line);
            r[3 * i] == line[3 * i + 2] && r[3 * i + 1] == line[3 * i + 1] && r[3 * i + 2] == line[3 * i]
  {
    if i > 0 {
      ExchangedAt(line[3..], i - 1);
    }
  }

  /** rgb_bgr, which may write over what it reads: n triples. */
  method RgbBgr(p: seq<Byte>, q: array<Byte>, at: nat, n: nat)
    requires |p| == 3 * n && at + |p| <= q.Length
    modifies q
    ensures Spliced(old(q[..]), q[..], at, Exchanged(p))
  {
    hide Exchanged;
    ghost var was := q[..];
    for i := 0 to n
      invariant forall j :: 0 <= j < q.Length ==>
                  q[j] == if at <= j < at + 3 * i then Exchanged(p)[j - at] else was[j]
    {
      ExchangedAt(p, i);
      q[at + 3 * i], q[at + 3 * i + 1], q[at + 3 * i + 2] := p[3 * i + 2], p[3 * i + 1], p[3 * i];
    }
    assert q[..] == was[..at] + Exchanged(p) + was[at + |p|..];
  }

  /** The line gem_w hands to the encoder. */
  method FormLine(form: Form, data: seq<Byte>) returns (line: seq<Byte>)
    requires form.Swapped? ==> |data| % 3 == 0
    ensures line == Formed(form, data) && CodedAs(form, data, line)
  {
    hide CodedAs;
    FormedBytes(form, data);
    match form
    case Plain =>
      line := data;
    case Inverted =>
      line := [];
      for x := 0 to |data|
        invariant line == Complement(data)[..x]
      {
        line := line + [255 - data[x]];
      }
    case Swapped =>
      var q := new Byte[|data|];
      RgbBgr(data, q, 0, |data| / 3);
      line := q[..];
  }

  // ---- blocks ----

  /** A coded line, and the number in the replication code before it, 0 if there is none. */
  datatype Block = Block(rep: nat, codes: seq<Code>) {
    /** How many rows it stands for. */
    function Count(): nat { if rep == 0 then 1 else rep }
  }

  ghost predicate BlockFits(b: Block, patlen: nat, scan: nat) {
    b.rep <= 0xff && AllValid(b.codes, patlen) && Ends(b.codes) && |TextOf(b.codes)| == scan
  }

  ghost predicate BlocksFit(blocks: seq<Block>, patlen: nat, scan: nat) {
    forall b :: b in blocks ==> BlockFits(b, patlen, scan)
  }

  /** The rows a block stands for. */
  ghost function Rows(text: seq<Byte>, n: nat): (rows: seq<seq<Byte>>)
    ensures |rows| == n && forall k :: 0 <= k < n ==> rows[k] == text
  {
    seq(n, (k: int) => text)
  }

  ghost function RowsOf(blocks: seq<Block>): seq<seq<Byte>> {
    if blocks == [] then [] else Rows(TextOf(blocks[0].codes), blocks[0].Count()) + RowsOf(blocks[1..])
  }

  ghost function File(blocks: seq<Block>, patlen: nat, scan: nat): seq<Byte>
    requires BlocksFit(blocks, patlen, scan)
  {
    if blocks == [] then []
    else
      assert blocks[0] in blocks;
      Replication(blocks[0].rep) + WrittenAs(blocks[0].codes, patlen) + File(blocks[1..], patlen, scan)
  }

  lemma {:induction false} RowsSnoc(blocks: seq<Block>, b: Block)
    ensures RowsOf(blocks + [b]) == RowsOf(blocks) + Rows(TextOf(b.codes), b.Count())
  {
    if blocks != [] {
      RowsSnoc(blocks[1..], b);
      assert (blocks + [b])[1..] == blocks[1..] + [b];
    }
  }

  lemma {:induction false} FileSnoc(blocks: seq<Block>, b: Block, patlen: nat, scan: nat)
    requires BlocksFit(blocks, patlen, scan) && BlockFits(b, patlen, scan)
    ensures BlocksFit(blocks + [b], patlen, scan)
    ensures File(blocks + [b], patlen, scan)
            == File(blocks, patlen, scan) + (Replication(b.rep) + WrittenAs(b.codes, patlen))
  {
    if blocks != [] {
      FileSnoc(blocks[1..], b, patlen, scan);
      assert (blocks + [b])[1..] == blocks[1..] + [b];
    }
  }

  // ---- writing ----

  /** The number gem_w puts into a replication code; it writes none for a single row. */
  function RepOf(dy: nat): nat { if dy == 1 then 0 else dy }

  /** handle_vrep: how many rows down from row y are the same, up to 255, and the code for it. */
  method HandleVrep(l: Layout, data: seq<Byte>, y: nat) returns (dy: nat, code: seq<Byte>)
    requires l.Holds(|data|) && y < l.h
    ensures 1 <= dy <= Min(y + 1, 0xff)
    ensures forall y' :: y - dy < y' <= y ==> Line(l, data, y') == Line(l, data, y)
    ensures dy < Min(y + 1, 0xff) ==> Line(l, data, y - dy) != Line(l, data, y)
    ensures code == Replication(RepOf(dy))
  {
    hide Line;
    var most := Min(y + 1, 0xff);
    dy := 1;
    while dy < most && Line(l, data, y - dy + 1) == Line(l, data, y - dy)
      invariant 1 <= dy <= most
      invariant forall y' :: y - dy < y' <= y ==> Line(l, data, y') == Line(l, data, y)
    {
      dy := dy + 1;
    }
    code := if dy == 1 then [] else [0x00, 0x00, 0xff, dy];
  }

  /** The most bytes that n rows can take: each as literals, with a replication code before it. */
  function Room(n: nat, scan: nat): int { n * (LiteralSize(scan) + 4) }

  lemma RoomFor(n: nat, dy: nat, scan: nat)
    requires dy >= 1
    ensures Room(n, scan) + LiteralSize(scan) + 4 <= Room(n + dy, scan) && Room(0, scan) == 0
  {
    TimesMonotone(n + 1, n + dy, LiteralSize(scan) + 4);
  }

  /** One turn of the row loop of gem_w: the block b for the rows from y on downwards. */
  method WriteBlock(l: Layout, data: seq<Byte>, y: nat, form: Form, enc: array<Byte>)
    returns (dy: nat, bytes: seq<Byte>, ghost b: Block)
    requires l.Holds(|data|) && y < l.h && form.Fits(l) && enc.Length >= 2 * l.scan + 2
    modifies enc
    ensures 1 <= dy == b.Count() <= y + 1 && BlockFits(b, form.PatLen(), l.scan)
    ensures TextOf(b.codes) == Formed(form, Line(l, data, y)) && CodedAs(form, Line(l, data, y), TextOf(b.codes))
    ensures forall y' :: y - dy < y' <= y ==> Line(l, data, y') == Line(l, data, y)
    ensures bytes == Replication(b.rep) + WrittenAs(b.codes, form.PatLen()) && |bytes| <= LiteralSize(l.scan) + 4
  {
    hide Line, BlockFits, Coded, LiteralSize, Formed, CodedAs;
    var code;
    dy, code := HandleVrep(l, data, y);
    LineLength(l, data, y);
    var line := FormLine(form, Line(l, data, y));
    var len;
    ghost var codes;
    if form.Swapped? {
      len, codes := Encode3(line, enc);
    } else {
      len, codes := Encode1(line, enc);
    }
    len, codes := Literally(line, form.PatLen(), enc, len, codes);
    b := Block(RepOf(dy), codes);
    IsBlock(enc[..len], b, form.PatLen(), line);
    bytes := code + enc[..len];
  }

  /** The row loops of gem_w for 1 and for 24 bits a pixel. */
  method WriteRows(l: Layout, data: seq<Byte>, form: Form) returns (file: seq<Byte>, ghost blocks: seq<Block>)
    requires l.Holds(|data|) && form.Fits(l)
    ensures BlocksFit(blocks, form.PatLen(), l.scan) && file == File(blocks, form.PatLen(), l.scan)
    ensures RowsOf(blocks) == FormedAll(form, TopDown(l, data, l.h))
    ensures forall n: nat :: n < l.h ==> RowCoded(l, data, form, n, RowsOf(blocks)[n])
    ensures |file| <= Room(l.h, l.scan)
  {
    hide Wrote, Line, BlockFits, Formed, Replication, WrittenAs, TextOf, RowCoded;
    var enc := new Byte[2 * l.scan + 2];
    file, blocks := [], [];
    var y: nat := l.h;
    WroteNothing(l, data, form);
    while y > 0
      modifies enc
      invariant y <= l.h && Wrote(l, data, form, file, blocks, l.h - y)
    {
      var dy, bytes;
      ghost var b;
      dy, bytes, b := WriteBlock(l, data, y - 1, form, enc);
      WroteMore(l, data, form, file, blocks, l.h - y, dy, bytes, b);
      file := file + bytes;
      blocks := blocks + [b];
      y := y - dy;
    }
    WroteIs(l, data, form, file, blocks);
    forall n: nat | n < l.h
      ensures RowCoded(l, data, form, n, RowsOf(blocks)[n])
    {
      FormedRow(l, data, form, n);
    }
  }

  /** The first n rows have been written. */
  ghost predicate Wrote(l: Layout, data: seq<Byte>, form: Form, file: seq<Byte>, blocks: seq<Block>, n: nat)
    requires l.Holds(|data|) && n <= l.h
  {
    && BlocksFit(blocks, form.PatLen(), l.scan) && file == File(blocks, form.PatLen(), l.scan)
    && RowsOf(blocks) == FormedAll(form, TopDown(l, data, n)) && |file| <= Room(n, l.scan)
  }

  lemma WroteNothing(l: Layout, data: seq<Byte>, form: Form)
    requires l.Holds(|data|)
    ensures Wrote(l, data, form, [], [], 0)
  {
    RoomFor(0, 1, l.scan);
  }

  lemma WroteIs(l: Layout, data: seq<Byte>, form: Form, file: seq<Byte>, blocks: seq<Block>)
    requires l.Holds(|data|) && Wrote(l, data, form, file, blocks, l.h)
    ensures BlocksFit(blocks, form.PatLen(), l.scan) && file == File(blocks, form.PatLen(), l.scan)
    ensures RowsOf(blocks) == FormedAll(form, TopDown(l, data, l.h)) && |file| <= Room(l.h, l.scan)
  {
  }

  lemma WroteMore(l: Layout, data: seq<Byte>, form: Form, file: seq<Byte>, blocks: seq<Block>,
                   n: nat, dy: nat, bytes: seq<Byte>, b: Block)
    requires l.Holds(|data|) && n < n + dy <= l.h && Wrote(l, data, form, file, blocks, n)
    requires dy == b.Count() && BlockFits(b, form.PatLen(), l.scan)
    requires TextOf(b.codes) == Formed(form, Line(l, data, l.h - 1 - n))
    requires forall y :: l.h - 1 - n - dy < y <= l.h - 1 - n ==> Line(l, data, y) == Line(l, data, l.h - 1 - n)
    requires bytes == Replication(b.rep) + WrittenAs(b.codes, form.PatLen()) && |bytes| <= LiteralSize(l.scan) + 4
    ensures Wrote(l, data, form, file + bytes, blocks + [b], n + dy)
  {
    hide Line, Rows, Room, BlockFits, Formed, File, RowsOf, TopDown, BlocksFit, LiteralSize, FormedAll;
    hide Replication, WrittenAs, TextOf;
    var line := Line(l, data, l.h - 1 - n);
    FileSnoc(blocks, b, form.PatLen(), l.scan);
    RowsSnoc(blocks, b);
    MoreRows(l, data, n, dy);
    FormedMore(form, TopDown(l, data, n), Rows(line, dy));
    FormedRows(form, line, dy);
    RoomFor(n, dy, l.scan);
  }

  lemma FormedRows(form: Form, line: seq<Byte>, n: nat)
    ensures FormedAll(form, Rows(line, n)) == Rows(Formed(form, line), n)
  {
    hide Formed;
  }

  lemma LineLength(l: Layout, data: seq<Byte>, y: nat)
    requires l.Holds(|data|) && y < l.h
    ensures |Line(l, data, y)| == l.scan
  {
    LineInside(l, y);
  }

  lemma IsBlock(s: seq<Byte>, b: Block, patlen: nat, line: seq<Byte>)
    requires b.rep <= 0xff && Coded(s, b.codes, patlen, line)
    ensures BlockFits(b, patlen, |line|) && s == WrittenAs(b.codes, patlen) && TextOf(b.codes) == line
  {
  }

  lemma MoreRows(l: Layout, data: seq<Byte>, n: nat, dy: nat)
    requires l.Holds(|data|) && n < n + dy <= l.h
    requires forall y :: l.h - 1 - n - dy < y < l.h - n ==> Line(l, data, y) == Line(l, data, l.h - 1 - n)
    ensures TopDown(l, data, n + dy) == TopDown(l, data, n) + Rows(Line(l, data, l.h - 1 - n), dy)
  {
    hide Line, TopDown, Rows;
  }

  // ---- reading ----

  /** Writing `text` at the start of row y changes no other row. */
  lemma LineWritten(l: Layout, was: seq<Byte>, s: seq<Byte>, y: nat, text: seq<Byte>, y': nat)
    requires l.Holds(|was|) && l.Holds(|s|) && y < l.h && y' < l.h && l.scan <= |text| <= l.stride
    requires Spliced(was, s, y * l.stride, text)
    ensures Line(l, s, y') == if y' == y then text[..l.scan] else Line(l, was, y')
  {
    LineInside(l, y);
    LineInside(l, y');
    var at, a := y * l.stride, y' * l.stride;
    if y' < y {
      TimesMonotone(y' + 1, y, l.stride);
      assert (y' + 1) * l.stride == a + l.stride;
      assert s[..at] == was[..at];
      assert s[a..a + l.scan] == s[..at][a..a + l.scan];
    } else if y < y' {
      TimesMonotone(y + 1, y', l.stride);
      assert (y + 1) * l.stride == at + l.stride;
      Behind(was, s, at, text, a, l.scan);
    } else {
      SplicedAt(was, s, at, text);
      assert s[at..at + |text|][..l.scan] == s[at..at + l.scan];
    }
  }

  lemma Behind(was: seq<Byte>, s: seq<Byte>, at: nat, text: seq<Byte>, a: nat, n: nat)
    requires Spliced(was, s, at, text) && at + |text| <= a && a + n <= |was|
    ensures |s| == |was| && s[a..a + n] == was[a..a + n]
  {
  }

  lemma NextRow(l: Layout, was: seq<Byte>, s: seq<Byte>, y: nat, text: seq<Byte>)
    requires l.Holds(|was|) && l.Holds(|s|) && y < l.h && l.scan <= |text| <= l.stride
    requires Spliced(was, s, y * l.stride, text)
    ensures Line(l, s, y) == text[..l.scan]
    ensures TopDown(l, s, l.h - y) == TopDown(l, was, l.h - y - 1) + [text[..l.scan]]
  {
    hide Line, Spliced;
    forall y' | y <= y' < l.h
      ensures Line(l, s, y') == if y' == y then text[..l.scan] else Line(l, was, y')
    {
      LineWritten(l, was, s, y, text, y');
    }
  }

  /** A repeated row is a copy of the whole row above it. */
  method CopyRow(l: Layout, data: array<Byte>, y: nat)
    requires l.Holds(data.Length) && y + 1 < l.h
    modifies data
    ensures Line(l, data[..], y) == old(Line(l, data[..], y + 1))
    ensures TopDown(l, data[..], l.h - y) == old(TopDown(l, data[..], l.h - y - 1)) + [old(Line(l, data[..], y + 1))]
  {
    hide TopDown, Spliced;
    LineInside(l, y + 1);
    LineInside(l, y);
    assert (y + 1) * l.stride == y * l.stride + l.stride;
    ghost var was := data[..];
    ghost var from := (y + 1) * l.stride;
    CopyBytes(data, y * l.stride, (y + 1) * l.stride, l.stride);
    ghost var text := was[from..from + l.stride];
    SplicedAt(was, data[..], y * l.stride, text);
    NextRow(l, was, data[..], y, text);
    assert text[..l.scan] == Line(l, was, y + 1);
  }

  /** Rows still to come. */
  ghost function Upcoming(line: seq<Byte>, vrep: nat, blocks: seq<Block>): seq<seq<Byte>> {
    Rows(line, vrep) + RowsOf(blocks)
  }

  lemma NextBlock(blocks: seq<Block>, patlen: nat, scan: nat, rest: seq<Byte>)
    requires BlocksFit(blocks, patlen, scan) && RowsOf(blocks) != []
    ensures blocks != [] && BlockFits(blocks[0], patlen, scan) && BlocksFit(blocks[1..], patlen, scan)
    ensures Coming(File(blocks, patlen, scan) + rest, blocks[0].rep, blocks[0].codes, patlen,
                   File(blocks[1..], patlen, scan) + rest)
    ensures var text := TextOf(blocks[0].codes);
            RowsOf(blocks) == [text] + Upcoming(text, blocks[0].Count() - 1, blocks[1..])
  {
    assert blocks[0] in blocks;
    FileStep(blocks, patlen, scan, rest);
    RowsStep(blocks);
  }

  lemma FileStep(blocks: seq<Block>, patlen: nat, scan: nat, rest: seq<Byte>)
    requires BlocksFit(blocks, patlen, scan) && blocks != [] && BlockFits(blocks[0], patlen, scan)
    ensures BlocksFit(blocks[1..], patlen, scan)
    ensures Coming(File(blocks, patlen, scan) + rest, blocks[0].rep, blocks[0].codes, patlen,
                   File(blocks[1..], patlen, scan) + rest)
  {
    hide WrittenAs, Replication, TextOf, AllValid, Valid, Ends;
    var b, after := blocks[0], File(blocks[1..], patlen, scan);
    var head := Replication(b.rep) + WrittenAs(b.codes, patlen);
    assert head + after + rest == head + (after + rest);
  }

  lemma {:induction false} RowsStep(blocks: seq<Block>)
    requires blocks != []
    ensures var text := TextOf(blocks[0].codes);
            RowsOf(blocks) == [text] + Upcoming(text, blocks[0].Count() - 1, blocks[1..])
  {
    hide TextOf, Rows;
    var text, dy := TextOf(blocks[0].codes), blocks[0].Count();
    assert Rows(text, dy) == [text] + Rows(text, dy - 1);
    assert [text] + Rows(text, dy - 1) + RowsOf(blocks[1..]) == [text] + (Rows(text, dy - 1) + RowsOf(blocks[1..]));
  }

  lemma SomeRows(blocks: seq<Block>, patlen: nat, scan: nat)
    requires BlocksFit(blocks, patlen, scan) && blocks != []
    ensures RowsOf(blocks) != []
  {
    assert blocks[0] in blocks;
  }

  lemma NoRows(blocks: seq<Block>, patlen: nat, scan: nat)
    requires BlocksFit(blocks, patlen, scan) && RowsOf(blocks) == []
    ensures File(blocks, patlen, scan) == []
  {
    if blocks != [] {
      SomeRows(blocks, patlen, scan);
      assert false;
    }
  }

  /** Writing over what was just written. */
  lemma SpliceOver(was: seq<Byte>, mid: seq<Byte>, s: seq<Byte>, at: nat, text: seq<Byte>,
                    over: seq<Byte>)
    requires Spliced(was, mid, at, text) && Spliced(mid, s, at, over) && |over| == |text|
    ensures Spliced(was, s, at, over)
  {
    assert mid[..at] == was[..at];
    assert mid[at + |text|..] == was[at + |text|..];
  }

  /** A row of gem_rdata that is read from the file. */
  method ReadRow(ahead: Ahead, l: Layout, data: array<Byte>, y: nat, swapped: bool, patlen: nat,
                 ghost b: Block, ghost rest: seq<Byte>)
    returns (vrep: nat)
    requires l.Holds(data.Length) && y < l.h && patlen >= 1 && (swapped ==> l.scan % 3 == 0)
    requires BlockFits(b, patlen, l.scan) && ahead.Valid() && Coming(ahead.Rest(), b.rep, b.codes, patlen, rest)
    modifies ahead, data
    ensures ahead.Valid() && ahead.Rest() == rest && vrep == b.Count() - 1
    ensures var row := Formed(if swapped then Swapped else Plain, TextOf(b.codes));
            && Line(l, data[..], y) == row
            && CodedAs(if swapped then Swapped else Plain, TextOf(b.codes), row)
            && TopDown(l, data[..], l.h - y) == old(TopDown(l, data[..], l.h - y - 1)) + [row]
  {
    hide Ahead.Rest, Ahead.Valid;
    hide TopDown, Line, Coming, Spliced, Exchanged, CodedAs;
    LineInside(l, y);
    ghost var was, text := data[..], TextOf(b.codes);
    var at := y * l.stride;
    vrep := ReadGemLine(ahead, data, at, l.scan, patlen, 0, true, b.rep, b.codes, rest);
    if swapped {
      ghost var mid := data[..];
      SplicedAt(was, mid, at, text);
      RgbBgr(data[at..at + l.scan], data, at, l.scan / 3);
      SpliceOver(was, mid, data[..], at, text, Exchanged(text));
    }
    ghost var row := Formed(if swapped then Swapped else Plain, text);
    FormedBytes(if swapped then Swapped else Plain, text);
    assert row[..l.scan] == row;
    NextRow(l, was, data[..], y, row);
  }

  /** The row loops of gem_rdata for 1 and for 24 bits a pixel. */
  method ReadRows(ahead: Ahead, l: Layout, data: array<Byte>, swapped: bool, patlen: nat,
                  ghost blocks: seq<Block>, ghost rest: seq<Byte>)
    requires l.Holds(data.Length) && patlen >= 1 && (swapped ==> l.scan % 3 == 0) && BlocksFit(blocks, patlen, l.scan)
    requires ahead.Valid() && ahead.Rest() == File(blocks, patlen, l.scan) + rest && |RowsOf(blocks)| == l.h
    modifies ahead, data
    ensures ahead.Valid() && ahead.Rest() == rest
    ensures TopDown(l, data[..], l.h) == FormedAll(if swapped then Swapped else Plain, RowsOf(blocks))
    ensures forall n: nat :: n < l.h ==>
              CodedAs(if swapped then Swapped else Plain, RowsOf(blocks)[n], Line(l, data[..], l.h - 1 - n))
  {
    hide Ahead.Rest, Ahead.Valid;
    hide File, RowsOf, TopDown, Line, BlocksFit, Coming, Formed, FormedAll, Rows, Upcoming, CodedAs;
    ghost var form := if swapped then Swapped else Plain;
    var vrep: nat := 0;
    var y: nat := l.h;
    ghost var togo, last := blocks, [];
    NothingUpcoming(last, togo);
    while y > 0
      modifies ahead, data
      invariant y <= l.h && BlocksFit(togo, patlen, l.scan)
      invariant ahead.Valid() && ahead.Rest() == File(togo, patlen, l.scan) + rest
      invariant vrep > 0 ==> y < l.h && Formed(form, last) == Line(l, data[..], y)
      invariant FormedAll(form, RowsOf(blocks))
             == TopDown(l, data[..], l.h - y) + FormedAll(form, Upcoming(last, vrep, togo))
    {
      y := y - 1;
      if vrep > 0 {
        CopyRow(l, data, y);
        OneUpcoming(form, last, vrep, togo);
        vrep := vrep - 1;
      } else {
        NothingUpcoming(last, togo);
        NextBlock(togo, patlen, l.scan, rest);
        ghost var b := togo[0];
        vrep := ReadRow(ahead, l, data, y, swapped, patlen, b, File(togo[1..], patlen, l.scan) + rest);
        last, togo := TextOf(b.codes), togo[1..];
        FormedMore(form, [last], Upcoming(last, vrep, togo));
      }
    }
    assert Upcoming(last, vrep, togo) == [];
    UpcomingRows(last, vrep, togo);
    NoRows(togo, patlen, l.scan);
    forall n: nat | n < l.h
      ensures CodedAs(form, RowsOf(blocks)[n], Line(l, data[..], l.h - 1 - n))
    {
      FormedBack(l, data[..], form, RowsOf(blocks), n);
    }
  }

  lemma FormedBack(l: Layout, data: seq<Byte>, form: Form, rows: seq<seq<Byte>>, n: nat)
    requires l.Holds(|data|) && form.Fits(l) && n < l.h == |rows|
    requires TopDown(l, data, l.h) == FormedAll(form, rows)
    ensures CodedAs(form, rows[n], Line(l, data, l.h - 1 - n))
  {
    hide Formed, CodedAs;
    LineLength(l, data, l.h - 1 - n);
    assert FormedAll(form, rows)[n] == TopDown(l, data, l.h)[n] == Line(l, data, l.h - 1 - n);
    FormedBytes(form, rows[n]);
  }

  lemma NothingUpcoming(line: seq<Byte>, blocks: seq<Block>)
    ensures Upcoming(line, 0, blocks) == RowsOf(blocks)
  {
  }

  lemma UpcomingRows(line: seq<Byte>, vrep: nat, blocks: seq<Block>)
    requires Upcoming(line, vrep, blocks) == []
    ensures RowsOf(blocks) == []
  {
  }

  lemma OneUpcoming(form: Form, line: seq<Byte>, vrep: nat, blocks: seq<Block>)
    requires vrep > 0
    ensures FormedAll(form, Upcoming(line, vrep, blocks))
         == [Formed(form, line)] + FormedAll(form, Upcoming(line, vrep - 1, blocks))
  {
    assert Rows(line, vrep) == [line] + Rows(line, vrep - 1);
    assert Upcoming(line, vrep, blocks) == [line] + Upcoming(line, vrep - 1, blocks);
    FormedMore(form, [line], Upcoming(line, vrep - 1, blocks));
  }

  /** What gem_w writes, gem_rdata reads: every row of the bitmap comes back, complemented if it was
      written so (the reader then gives the two colours the other way round). */
  method RoundTrip(l: Layout, data: seq<Byte>, form: Form, tail: seq<Byte>) returns (copy: array<Byte>)
    requires l.Holds(|data|) && form.Fits(l)
    ensures copy.Length == |data|
    ensures forall y :: 0 <= y < l.h ==>
              Line(l, copy[..], y) == if form.Inverted? then Complement(Line(l, data, y)) else Line(l, data, y)
  {
    hide Line, TopDown, FormedAll, Complement, File, RowsOf, BlocksFit;
    var file;
    ghost var blocks;
    file, blocks := WriteRows(l, data, form);
    copy := new Byte[|data|];
    var ahead := new Ahead(file + tail);
    ReadRows(ahead, l, copy, form.Swapped?, form.PatLen(), blocks, tail);
    forall y: nat | y < l.h
      ensures Line(l, copy[..], y) == if form.Inverted? then Complement(Line(l, data, y)) else Line(l, data, y)
    {
      RowBack(l, data, copy[..], form, RowsOf(blocks), y);
    }
  }

  lemma RowBack(l: Layout, data: seq<Byte>, copy: seq<Byte>, form: Form, rows: seq<seq<Byte>>,
                 y: nat)
    requires l.Holds(|data|) && l.Holds(|copy|) && y < l.h && rows == FormedAll(form, TopDown(l, data, l.h))
    requires TopDown(l, copy, l.h) == FormedAll(if form.Swapped? then Swapped else Plain, rows)
    ensures Line(l, copy, y) == if form.Inverted? then Complement(Line(l, data, y)) else Line(l, data, y)
  {
    hide Line, TopDown, FormedAll, Exchanged, Complement;
    var k := l.h - 1 - y;
    assert TopDown(l, copy, l.h)[k] == Line(l, copy, y);
    assert TopDown(l, data, l.h)[k] == Line(l, data, y);
    ExchangedTwice(Line(l, data, y));
  }
}
