/** Bitmaps as GBM lays them out, and the order in which GIF visits their rows. */
module GifImage {
  import opened Bits
  import opened Counting

  // ---- pixels within a row ----

  predicate Depth(bpp: nat) { bpp == 1 || bpp == 4 || bpp == 8 }

  /** Rows are padded to a multiple of four bytes. */
  function RowBytes(w: nat, bpp: nat): (n: nat)
    ensures n % 4 == 0 && w * bpp <= 8 * n < w * bpp + 32
  {
    (w * bpp + 31) / 32 * 4
  }

  /** The byte of the row that holds pixel x. */
  function ByteOf(bpp: nat, x: nat): nat {
    if bpp == 8 then x else if bpp == 4 then x / 2 else x / 8
  }

  /** How far the pixel is from the low end of its byte: the leftmost pixel is in the high bits. */
  function ShiftOf(bpp: nat, x: nat): nat {
    if bpp == 8 then 0 else if bpp == 4 then 4 - x % 2 * 4 else 7 - x % 8
  }

  function PixelIn(bpp: nat, b: Byte, shift: nat): nat {
    Pow2Monotone(bpp, bpp);
    And(Shr(b, shift), Pow2(bpp) - 1)
  }

  lemma ByteInStride(w: nat, bpp: nat, x: nat)
    requires Depth(bpp) && x < w
    ensures ByteOf(bpp, x) < RowBytes(w, bpp)
  {
    if bpp == 1 {
      assert w * bpp == w;
    } else if bpp == 4 {
      assert w * bpp == 4 * w;
    } else {
      assert w * bpp == 8 * w;
    }
  }

  lemma PixelBit(bpp: nat, b: Byte, shift: nat, i: nat)
    ensures Bit(PixelIn(bpp, b, shift), i) <==> i < bpp && Bit(b, shift + i)
  {
    Pow2Monotone(bpp, bpp);
    BitOfAnd(Shr(b, shift), Pow2(bpp) - 1, i);
    BitOfMask(bpp, i);
    BitOfShr(b, shift, i);
  }

  lemma PixelBound(bpp: nat, b: Byte, shift: nat)
    ensures PixelIn(bpp, b, shift) < Pow2(bpp)
  {
    Pow2Monotone(bpp, bpp);
    AndBound(Shr(b, shift), Pow2(bpp) - 1);
  }

  /** No digit of b below n is set. */
  ghost predicate ClearBelow(b: Byte, n: nat) {
    forall i: nat {:trigger Bit(b, i)} :: i < n ==> !Bit(b, i)
  }

  /** What output stores: the pixel is ORed into the bits below those already in use. */
  function Put(b: Byte, value: nat, shift: nat): nat { Or(b, Shl(value, shift)) }

  lemma PutBit(b: Byte, value: nat, shift: nat, i: nat)
    ensures Bit(Put(b, value, shift), i) <==> Bit(b, i) || (i >= shift && Bit(value, i - shift))
  {
    BitOfOr(b, Shl(value, shift), i);
    BitOfShl(value, shift, i);
  }

  lemma PutBound(bpp: nat, b: Byte, value: nat, shift: nat)
    requires value < Pow2(bpp) && bpp + shift <= 8
    ensures Put(b, value, shift) < 256
  {
    ShlBound(value, bpp, shift);
    Pow2Monotone(bpp + shift, 8);
    Pow2Table();
    OrBound(b, Shl(value, shift), 8);
  }

  lemma {:induction false} ShlBound(v: nat, n: nat, s: nat)
    requires v < Pow2(n)
    ensures Shl(v, s) < Pow2(n + s)
  {
    if s != 0 {
      ShlBound(v, n, s - 1);
    }
  }

  /** The stored pixel reads back, the pixels to its left keep their values, and the bits to its right
      stay clear. */
  lemma PutPixel(bpp: nat, b: Byte, value: nat, shift: nat)
    requires value < Pow2(bpp) && bpp + shift <= 8 && ClearBelow(b, shift + bpp)
    ensures Put(b, value, shift) < 256
    ensures PixelIn(bpp, Put(b, value, shift), shift) == value
    ensures forall s: nat :: s >= shift + bpp ==> PixelIn(bpp, Put(b, value, shift), s) == PixelIn(bpp, b, s)
    ensures ClearBelow(Put(b, value, shift), shift)
  {
    PutBound(bpp, b, value, shift);
    var b' := Put(b, value, shift);
    forall i: nat | i < bpp
      ensures Bit(PixelIn(bpp, b', shift), i) == Bit(value, i)
    {
      PixelBit(bpp, b', shift, i);
      PutBit(b, value, shift, shift + i);
    }
    PixelBound(bpp, b', shift);
    SameBits(PixelIn(bpp, b', shift), value, bpp);
    forall s: nat | s >= shift + bpp
      ensures PixelIn(bpp, b', s) == PixelIn(bpp, b, s)
    {
      KeptPixel(bpp, b, value, shift, s);
    }
    forall i: nat | i < shift
      ensures !Bit(b', i)
    {
      PutBit(b, value, shift, i);
    }
  }

  lemma KeptPixel(bpp: nat, b: Byte, value: nat, shift: nat, s: nat)
    requires value < Pow2(bpp) && s >= shift + bpp && Put(b, value, shift) < 256
    ensures PixelIn(bpp, Put(b, value, shift), s) == PixelIn(bpp, b, s)
  {
    var b' := Put(b, value, shift);
    forall i: nat | i < bpp
      ensures Bit(PixelIn(bpp, b', s), i) == Bit(PixelIn(bpp, b, s), i)
    {
      PixelBit(bpp, b', s, i);
      PixelBit(bpp, b, s, i);
      PutBit(b, value, shift, s + i);
      BitBeyond(value, bpp, s + i - shift);
    }
    PixelBound(bpp, b', s);
    PixelBound(bpp, b, s);
    SameBits(PixelIn(bpp, b', s), PixelIn(bpp, b, s), bpp);
  }

  // ---- rows within a bitmap ----

  /** GBM keeps the bottom row first, so row y, counted from the top, starts here. */
  function RowStart(h: nat, stride: nat, y: nat): nat
    requires y < h
  {
    (h - 1 - y) * stride
  }

  lemma RowInside(h: nat, stride: nat, y: nat)
    requires y < h
    ensures RowStart(h, stride, y) + stride <= h * stride
  {
    Product(y, stride);
    assert h * stride == (h - 1 - y) * stride + stride + y * stride;
  }

  /** Different rows do not overlap. */
  lemma RowsApart(h: nat, stride: nat, y: nat, y': nat)
    requires y < y' < h
    ensures RowStart(h, stride, y') + stride <= RowStart(h, stride, y)
  {
    Product(y' - y - 1, stride);
    assert (h - 1 - y) * stride == (h - 1 - y') * stride + stride + (y' - y - 1) * stride;
  }

  datatype Shape = Shape(w: nat, h: nat, bpp: nat) {
    ghost predicate Valid() { w >= 1 && h >= 1 && Depth(bpp) }

    function Stride(): nat { RowBytes(w, bpp) }

    function Size(): nat { h * Stride() }
  }

  /** The index in the bitmap of the byte that holds pixel (x, y). */
  function Index(s: Shape, x: nat, y: nat): nat
    requires y < s.h
  {
    RowStart(s.h, s.Stride(), y) + ByteOf(s.bpp, x)
  }

  lemma IndexInside(s: Shape, x: nat, y: nat)
    requires s.Valid() && x < s.w && y < s.h
    ensures RowStart(s.h, s.Stride(), y) <= Index(s, x, y) < RowStart(s.h, s.Stride(), y) + s.Stride() <= s.Size()
  {
    ByteInStride(s.w, s.bpp, x);
    RowInside(s.h, s.Stride(), y);
  }

  /** The value of pixel (x, y). */
  function Pixel(s: Shape, data: seq<Byte>, x: nat, y: nat): nat
    requires s.Valid() && |data| >= s.Size() && x < s.w && y < s.h
  {
    IndexInside(s, x, y);
    PixelIn(s.bpp, data[Index(s, x, y)], ShiftOf(s.bpp, x))
  }

  /** What that is in the bitmap: the bottom row comes first, and the leftmost pixel is in the high bits
      of its byte. */
  lemma PixelIs(s: Shape, data: seq<Byte>, x: nat, y: nat)
    requires s.Valid() && |data| >= s.Size() && x < s.w && y < s.h
    ensures var at := (s.h - 1 - y) * s.Stride();
            && 0 <= at && at + s.Stride() <= |data|
            && (s.bpp == 8 ==> x < s.Stride() && Pixel(s, data, x, y) == data[at + x])
            && (s.bpp == 4 ==>
                  && x / 2 < s.Stride()
                  && Pixel(s, data, x, y) == if x % 2 == 0 then data[at + x / 2] / 16 else data[at + x / 2] % 16)
            && (s.bpp == 1 ==>
                  && x / 8 < s.Stride()
                  && Pixel(s, data, x, y) == if Bit(data[at + x / 8], 7 - x % 8) then 1 else 0)
  {
    IndexInside(s, x, y);
    var b, shift := data[Index(s, x, y)], ShiftOf(s.bpp, x);
    Pow2Table();
    match s.bpp {
      case 8 => AndLow(b, 0, 8);
      case 4 => NibbleIs(b);
      case 1 => PixelBit(1, b, shift, 0);
    }
    ShlZero(8);
    PixelBound(s.bpp, b, shift);
  }

  lemma NibbleIs(b: Byte)
    ensures PixelIn(4, b, 4) == b / 16 && PixelIn(4, b, 0) == b % 16
  {
    hide And;
    Pow2Table();
    assert Shr(b, 4) == Shr(b / 2, 3);
    assert Shr(b / 2, 3) == Shr(b / 4, 2);
    assert Shr(b / 4, 2) == Shr(b / 8, 1);
    assert Shr(b / 8, 1) == b / 16;
    Nibbles(b);
    Nibbles(b / 16);
  }

  /** The first n pixels of row y. */
  ghost function Row(s: Shape, data: seq<Byte>, y: nat, n: nat): (r: seq<nat>)
    requires s.Valid() && |data| >= s.Size() && y < s.h && n <= s.w
    ensures |r| == n
  {
    seq(n, (x: int) requires 0 <= x < n => Pixel(s, data, x, y))
  }

  /** The pixels of the given rows, one row after the other. */
  ghost function Scan(s: Shape, data: seq<Byte>, rows: seq<nat>): seq<nat>
    requires s.Valid() && |data| >= s.Size() && AllBelow(rows, s.h)
  {
    if rows == [] then [] else Scan(s, data, rows[..|rows| - 1]) + Row(s, data, rows[|rows| - 1], s.w)
  }

  // ---- the order of the rows ----

  /** Every step-th row from y on. */
  function Sweep(y: nat, step: nat, h: nat): seq<nat>
    requires step > 0
    decreases h - y
  {
    if y < h then [y] + Sweep(y + step, step, h) else []
  }

  /** The rows in the order they are sent (GIF89a, Appendix E for the interlaced order). */
  function Rows(h: nat, ilace: bool): seq<nat> {
    if ilace then Sweep(0, 8, h) + Sweep(4, 8, h) + Sweep(2, 4, h) + Sweep(1, 2, h) else Sweep(0, 1, h)
  }

  /** The rows still to come when row y of the given pass is next. */
  function RowsFrom(y: nat, pass: nat, h: nat, ilace: bool): seq<nat>
    requires pass < 4
  {
    if !ilace then Sweep(y, 1, h)
    else match pass
      case 0 => Sweep(y, 8, h) + Sweep(4, 8, h) + Sweep(2, 4, h) + Sweep(1, 2, h)
      case 1 => Sweep(y, 8, h) + Sweep(2, 4, h) + Sweep(1, 2, h)
      case 2 => Sweep(y, 4, h) + Sweep(1, 2, h)
      case _ => Sweep(y, 2, h)
  }

  /** Stepping to the next row of an interlaced image. */
  method StepIlace(y: nat, h: nat, pass: nat) returns (y': nat, pass': nat)
    requires y < h && pass < 4
    ensures pass' < 4
    ensures RowsFrom(y, pass, h, true) == [y] + RowsFrom(y', pass', h, true)
    ensures y' >= h <==> RowsFrom(y', pass', h, true) == []
  {
    hide RowsFrom;
    y', pass' := y, pass;
    match pass {
      case 0 => y' := y' + 8;
      case 1 => y' := y' + 8;
      case 2 => y' := y' + 4;
      case 3 => y' := y' + 2;
    }
    FirstOfPass(y, pass, h);
    if y' < h {
      NotEmpty(y', pass', h);
      return;
    }
    PassOver(y', pass', h);
    if pass' == 0 {
      pass', y' := 1, 4;
      if y' < h {
        NotEmpty(y', pass', h);
        return;
      }
      PassOver(y', pass', h);
    }
    if pass' == 1 {
      pass', y' := 2, 2;
      if y' < h {
        NotEmpty(y', pass', h);
        return;
      }
      PassOver(y', pass', h);
    }
    if pass' == 2 {
      pass', y' := 3, 1;
      if y' < h {
        NotEmpty(y', pass', h);
      } else {
        PassOver(y', pass', h);
      }
    }
  }

  lemma FirstOfSweep(y: nat, step: nat, h: nat, rest: seq<nat>)
    requires step > 0
    ensures y < h ==> Sweep(y, step, h) + rest == [y] + (Sweep(y + step, step, h) + rest)
    ensures y >= h ==> Sweep(y, step, h) + rest == rest
  {
  }

  function StepOf(pass: nat): nat { if pass < 2 then 8 else if pass == 2 then 4 else 2 }

  /** The rows of the passes after this one. */
  function LaterPasses(pass: nat, h: nat): seq<nat> {
    match pass
    case 0 => Sweep(4, 8, h) + (Sweep(2, 4, h) + Sweep(1, 2, h))
    case 1 => Sweep(2, 4, h) + Sweep(1, 2, h)
    case 2 => Sweep(1, 2, h)
    case _ => []
  }

  lemma ThisPass(y: nat, pass: nat, h: nat)
    requires pass < 4
    ensures RowsFrom(y, pass, h, true) == Sweep(y, StepOf(pass), h) + LaterPasses(pass, h)
  {
    hide Sweep;
    var a, b, c, d := Sweep(y, StepOf(pass), h), Sweep(4, 8, h), Sweep(2, 4, h), Sweep(1, 2, h);
    assert a + b + c + d == a + (b + (c + d));
    assert a + c + d == a + (c + d);
  }

  lemma FirstOfPass(y: nat, pass: nat, h: nat)
    requires y < h && pass < 4
    ensures RowsFrom(y, pass, h, true) == [y] + RowsFrom(y + StepOf(pass), pass, h, true)
  {
    hide RowsFrom, Sweep, LaterPasses;
    ThisPass(y, pass, h);
    ThisPass(y + StepOf(pass), pass, h);
    FirstOfSweep(y, StepOf(pass), h, LaterPasses(pass, h));
  }

  /** When a pass is over the rows of the next one come. */
  lemma PassOver(y: nat, pass: nat, h: nat)
    requires y >= h && pass < 4
    ensures pass == 0 ==> RowsFrom(y, pass, h, true) == RowsFrom(4, 1, h, true)
    ensures pass == 1 ==> RowsFrom(y, pass, h, true) == RowsFrom(2, 2, h, true)
    ensures pass == 2 ==> RowsFrom(y, pass, h, true) == RowsFrom(1, 3, h, true)
    ensures pass == 3 ==> RowsFrom(y, pass, h, true) == []
  {
    hide RowsFrom, Sweep;
    ThisPass(y, pass, h);
    FirstOfSweep(y, StepOf(pass), h, LaterPasses(pass, h));
    ThisPass(4, 1, h);
    ThisPass(2, 2, h);
    ThisPass(1, 3, h);
    assert Sweep(1, 2, h) + [] == Sweep(1, 2, h);
  }

  lemma NotEmpty(y: nat, pass: nat, h: nat)
    requires y < h && pass < 4
    ensures RowsFrom(y, pass, h, true) != []
  {
    FirstOfPass(y, pass, h);
  }

  /** How often a row comes in a list. */
  ghost function Times(rows: seq<nat>, row: nat): nat { multiset(rows)[row] }

  lemma SweepCount(y: nat, step: nat, h: nat, row: nat)
    requires step > 0 && y < h
    ensures Times(Sweep(y, step, h), row) == Times(Sweep(y + step, step, h), row) + if row == y then 1 else 0
  {
    CountFirst(y, Sweep(y + step, step, h), row);
  }

  lemma NoneLeft(y: nat, step: nat, h: nat, row: nat)
    requires step > 0 && y >= h
    ensures Times(Sweep(y, step, h), row) == 0
  {
  }

  /** Every other row of a sweep, and the rows between: two sweeps of twice the step. */
  lemma {:induction false} Halves(y: nat, step: nat, h: nat, row: nat)
    requires step > 0
    ensures Times(Sweep(y, step, h), row) == Times(Sweep(y, 2 * step, h), row)
            + Times(Sweep(y + step, 2 * step, h), row)
    decreases h - y
  {
    hide Sweep, Times;
    if y < h {
      Halves(y + step, step, h, row);
      SweepCount(y, step, h, row);
      SweepCount(y, 2 * step, h, row);
    } else {
      NoneLeft(y, step, h, row);
      NoneLeft(y, 2 * step, h, row);
      NoneLeft(y + step, 2 * step, h, row);
    }
  }

  lemma {:induction false} EveryRow(y: nat, h: nat, row: nat)
    ensures Times(Sweep(y, 1, h), row) == if y <= row < h then 1 else 0
    decreases h - y
  {
    hide Sweep, Times;
    if y < h {
      EveryRow(y + 1, h, row);
      SweepCount(y, 1, h, row);
    } else {
      NoneLeft(y, 1, h, row);
    }
  }

  lemma CountFirst(y: nat, rest: seq<nat>, row: nat)
    ensures Times([y] + rest, row) == Times(rest, row) + if row == y then 1 else 0
  {
    assert multiset([y] + rest) == multiset{y} + multiset(rest);
  }

  /** Every row of the image is visited exactly once, interlaced or not. */
  lemma RowsVisitEachOnce(h: nat, ilace: bool, row: nat)
    ensures multiset(Rows(h, ilace))[row] == if row < h then 1 else 0
  {
    hide Sweep, Times;
    EveryRow(0, h, row);
    Halves(0, 1, h, row);
    Halves(0, 2, h, row);
    Halves(0, 4, h, row);
    var a, b, c, d := Sweep(0, 8, h), Sweep(4, 8, h), Sweep(2, 4, h), Sweep(1, 2, h);
    TimesParts(a, b, row);
    TimesParts(a + b, c, row);
    TimesParts(a + b + c, d, row);
    IsTimes(Rows(h, ilace), row);
  }

  lemma IsTimes(rows: seq<nat>, row: nat)
    ensures multiset(rows)[row] == Times(rows, row)
  {
  }

  lemma TimesParts(a: seq<nat>, b: seq<nat>, row: nat)
    ensures Times(a + b, row) == Times(a, row) + Times(b, row)
  {
    assert multiset(a + b) == multiset(a) + multiset(b);
  }

  /** The pass an interlaced row comes in (GIF89a, Appendix E). */
  function PassOf(y: nat): nat {
    if y % 8 == 0 then 1 else if y % 8 == 4 then 2 else if y % 4 == 2 then 3 else 4
  }

  ghost predicate ByPass(rows: seq<nat>) {
    forall i, j :: 0 <= i < j < |rows| ==>
      PassOf(rows[i]) < PassOf(rows[j]) || (PassOf(rows[i]) == PassOf(rows[j]) && rows[i] < rows[j])
  }

  ghost predicate InPass(rows: seq<nat>, pass: nat) { forall i :: 0 <= i < |rows| ==> PassOf(rows[i]) == pass }

  lemma {:induction false} SweepSorted(y: nat, step: nat, h: nat)
    requires step > 0
    ensures var s := Sweep(y, step, h);
            && (forall i :: 0 <= i < |s| ==> y <= s[i])
            && (forall i, j :: 0 <= i < j < |s| ==> s[i] < s[j])
    decreases h - y
  {
    if y < h {
      SweepSorted(y + step, step, h);
      assert Sweep(y, step, h) == [y] + Sweep(y + step, step, h);
    }
  }

  lemma {:induction false} SweepInPass(y: nat, step: nat, h: nat, pass: nat)
    requires (step == 8 && PassOf(y) == pass <= 2) || (step == 4 && PassOf(y) == 3 == pass)
          || (step == 2 && PassOf(y) == 4 == pass)
    ensures InPass(Sweep(y, step, h), pass)
    decreases h - y
  {
    if y < h {
      hide PassOf;
      NextInPass(y, step, pass);
      SweepInPass(y + step, step, h, pass);
      assert Sweep(y, step, h) == [y] + Sweep(y + step, step, h);
    }
  }

  lemma NextInPass(y: nat, step: nat, pass: nat)
    requires (step == 8 && PassOf(y) == pass <= 2) || (step == 4 && PassOf(y) == 3 == pass)
          || (step == 2 && PassOf(y) == 4 == pass)
    ensures PassOf(y + step) == pass
  {
  }

  /** The rows of a pass put behind those of earlier passes. */
  lemma AddPass(rows: seq<nat>, sweep: seq<nat>, pass: nat)
    requires ByPass(rows) && (forall i :: 0 <= i < |rows| ==> PassOf(rows[i]) < pass)
    requires InPass(sweep, pass) && forall i, j :: 0 <= i < j < |sweep| ==> sweep[i] < sweep[j]
    ensures ByPass(rows + sweep) && forall i :: 0 <= i < |rows + sweep| ==> PassOf((rows + sweep)[i]) < pass + 1
  {
    hide PassOf;
  }

  /** An interlaced image has the rows of each pass in ascending order, pass after pass; another has all
      its rows in ascending order. */
  lemma RowsInOrder(h: nat, ilace: bool)
    ensures ilace ==> ByPass(Rows(h, ilace))
    ensures !ilace ==> forall i, j :: 0 <= i < j < |Rows(h, ilace)| ==> Rows(h, ilace)[i] < Rows(h, ilace)[j]
  {
    hide Sweep, ByPass, InPass;
    if ilace {
      NoPass();
      AddSweep([], 0, 8, h, 1);
      assert [] + Sweep(0, 8, h) == Sweep(0, 8, h);
      AddSweep(Sweep(0, 8, h), 4, 8, h, 2);
      AddSweep(Sweep(0, 8, h) + Sweep(4, 8, h), 2, 4, h, 3);
      AddSweep(Sweep(0, 8, h) + Sweep(4, 8, h) + Sweep(2, 4, h), 1, 2, h, 4);
    } else {
      PlainOrder(h);
    }
  }

  lemma PlainOrder(h: nat)
    ensures forall i, j :: 0 <= i < j < |Rows(h, false)| ==> Rows(h, false)[i] < Rows(h, false)[j]
  {
    SweepSorted(0, 1, h);
    assert Rows(h, false) == Sweep(0, 1, h);
  }

  lemma NoPass()
    ensures ByPass([])
  {
  }

  lemma AddSweep(rows: seq<nat>, y: nat, step: nat, h: nat, pass: nat)
    requires (step == 8 && PassOf(y) == pass <= 2) || (step == 4 && PassOf(y) == 3 == pass)
          || (step == 2 && PassOf(y) == 4 == pass)
    requires ByPass(rows) && forall i :: 0 <= i < |rows| ==> PassOf(rows[i]) < pass
    ensures var s := rows + Sweep(y, step, h); ByPass(s) && forall i :: 0 <= i < |s| ==> PassOf(s[i]) < pass + 1
  {
    hide PassOf, ByPass, Sweep, InPass;
    SweepInPass(y, step, h, pass);
    SweepSorted(y, step, h);
    AddPass(rows, Sweep(y, step, h), pass);
  }

  lemma RowsBelow(h: nat, ilace: bool)
    ensures AllBelow(Rows(h, ilace), h)
  {
    var rows := Rows(h, ilace);
    forall i | 0 <= i < |rows|
      ensures rows[i] < h
    {
      RowsVisitEachOnce(h, ilace, rows[i]);
      assert rows[i] in multiset(rows);
    }
  }

  /** So the rows before any point of the order differ from the row at that point. */
  lemma RowsDistinct(h: nat, ilace: bool, done: seq<nat>, y: nat, rest: seq<nat>)
    requires Rows(h, ilace) == done + [y] + rest
    ensures y < h && y !in done && AllBelow(done, h)
  {
    RowsVisitEachOnce(h, ilace, y);
    assert multiset(done + [y] + rest) == multiset(done) + multiset{y} + multiset(rest);
    forall i | 0 <= i < |done|
      ensures done[i] < h
    {
      RowsVisitEachOnce(h, ilace, done[i]);
      assert done[i] in multiset(done);
    }
  }

  // ---- scanning ----

  /** Changing the bytes of rows outside the list does not change the scan. */
  lemma {:induction false} ScanKept(s: Shape, d: seq<Byte>, d': seq<Byte>, rows: seq<nat>)
    requires s.Valid() && |d| >= s.Size() && |d'| >= s.Size()
    requires AllBelow(rows, s.h) && forall y :: y in rows && y < s.h ==> Row(s, d, y, s.w) == Row(s, d', y, s.w)
    ensures Scan(s, d, rows) == Scan(s, d', rows)
  {
    if rows != [] {
      ScanKept(s, d, d', rows[..|rows| - 1]);
    }
  }

  lemma {:induction false} ScanSnoc(s: Shape, d: seq<Byte>, rows: seq<nat>, y: nat)
    requires s.Valid() && |d| >= s.Size() && y < s.h && AllBelow(rows, s.h)
    ensures Scan(s, d, rows + [y]) == Scan(s, d, rows) + Row(s, d, y, s.w)
  {
    assert (rows + [y])[..|rows|] == rows;
  }

  /** Bitmaps with equal scans have equal pixels in every row of the scan. */
  lemma {:induction false} ScanInjective(s: Shape, d: seq<Byte>, d': seq<Byte>, rows: seq<nat>, x: nat, y: nat)
    requires s.Valid() && |d| >= s.Size() && |d'| >= s.Size()
    requires AllBelow(rows, s.h)
    requires Scan(s, d, rows) == Scan(s, d', rows) && y in rows && x < s.w
    ensures Pixel(s, d, x, y) == Pixel(s, d', x, y)
  {
    var last := rows[|rows| - 1];
    var a, a' := Scan(s, d, rows[..|rows| - 1]), Scan(s, d', rows[..|rows| - 1]);
    var b, b' := Row(s, d, last, s.w), Row(s, d', last, s.w);
    assert |a| == |a'| by {
      assert |a + b| == |a' + b'|;
    }
    assert a == (a + b)[..|a|] && b == (a + b)[|a|..] && a' == (a' + b')[..|a|] && b' == (a' + b')[|a|..];
    if y == last {
      assert b[x] == b'[x];
    } else {
      ScanInjective(s, d, d', rows[..|rows| - 1], x, y);
    }
  }

  /** The number of pixels of a scan does not depend on the bitmap. */
  lemma {:induction false} ScanLength(s: Shape, d: seq<Byte>, d': seq<Byte>, rows: seq<nat>)
    requires s.Valid() && |d| >= s.Size() && |d'| >= s.Size() && AllBelow(rows, s.h)
    ensures |Scan(s, d, rows)| == |Scan(s, d', rows)|
  {
    if rows != [] {
      ScanLength(s, d, d', rows[..|rows| - 1]);
    }
  }

  lemma {:induction false} ScanLonger(s: Shape, d: seq<Byte>, done: seq<nat>, y: nat, rest: seq<nat>)
    requires s.Valid() && |d| >= s.Size() && AllBelow(done + [y] + rest, s.h)
    ensures AllBelow(done, s.h) && |Scan(s, d, done + [y] + rest)| >= |Scan(s, d, done)| + s.w
  {
    var all := done + [y] + rest;
    assert forall i :: 0 <= i < |done| ==> done[i] == all[i];
    assert all[|done|] == y;
    if rest == [] {
      assert all == done + [y];
      ScanSnoc(s, d, done, y);
    } else {
      assert all[..|all| - 1] == done + [y] + rest[..|rest| - 1];
      ScanLonger(s, d, done, y, rest[..|rest| - 1]);
    }
  }

  lemma {:induction false} ScanPrefix(s: Shape, d: seq<Byte>, rows: seq<nat>, rest: seq<nat>)
    requires s.Valid() && |d| >= s.Size() && AllBelow(rows + rest, s.h)
    ensures AllBelow(rows, s.h) && Scan(s, d, rows) <= Scan(s, d, rows + rest)
  {
    assert AllBelow(rows, s.h) by {
      assert forall i :: 0 <= i < |rows| ==> (rows + rest)[i] == rows[i];
    }
    if rest == [] {
      assert rows + rest == rows;
    } else {
      var n := |rest| - 1;
      assert (rows + rest)[..|rows| + n] == rows + rest[..n];
      ScanPrefix(s, d, rows, rest[..n]);
    }
  }

  lemma RowPrefix(s: Shape, d: seq<Byte>, y: nat, n: nat)
    requires s.Valid() && |d| >= s.Size() && y < s.h && n <= s.w
    ensures Row(s, d, y, n) <= Row(s, d, y, s.w)
  {
  }
}
