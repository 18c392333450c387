/** The pixel output of the GIF reader: pixels arrive one by one and are packed into the bitmap row by
    row, in the order the rows were sent. */
module GifOutput {
  import opened Bits
  import opened Counting
  import opened GifImage
  import opened GifBlocks

  /** The byte output stores for pixel x: a pixel that starts a byte clears the rest of it. */
  function Stored(s: Shape, b: Byte, x: nat, value: nat): nat {
    var shift := ShiftOf(s.bpp, x);
    if shift + s.bpp == 8 then Shl(value, shift) else Put(b, value, shift)
  }

  /** The bits right of pixel x that the current byte still has to receive are clear. */
  ghost predicate Ready(s: Shape, b: Byte, x: nat) {
    ShiftOf(s.bpp, x) + s.bpp == 8 || ClearBelow(b, ShiftOf(s.bpp, x) + s.bpp)
  }

  lemma StoredByte(s: Shape, b: Byte, x: nat, value: nat)
    requires Depth(s.bpp) && value < Pow2(s.bpp) && Ready(s, b, x)
    ensures Stored(s, b, x, value) < 256
    ensures PixelIn(s.bpp, Stored(s, b, x, value), ShiftOf(s.bpp, x)) == value
    ensures ShiftOf(s.bpp, x) + s.bpp != 8 ==>
              forall n: nat :: n >= ShiftOf(s.bpp, x) + s.bpp ==>
                PixelIn(s.bpp, Stored(s, b, x, value), n) == PixelIn(s.bpp, b, n)
    ensures ClearBelow(Stored(s, b, x, value), ShiftOf(s.bpp, x))
  {
    var shift := ShiftOf(s.bpp, x);
    if shift + s.bpp == 8 {
      forall i: nat { BitOfZero(i); }
      PutPixel(s.bpp, 0, value, shift);
      OrZero(Shl(value, shift));
    } else {
      PutPixel(s.bpp, b, value, shift);
    }
  }

  /** Pixels left of x either are in another byte or higher up in the same one. */
  lemma Neighbours(bpp: nat, x: nat, x': nat)
    requires Depth(bpp) && x' < x
    ensures ByteOf(bpp, x') != ByteOf(bpp, x)
         || (ShiftOf(bpp, x) + bpp != 8 && ShiftOf(bpp, x') >= ShiftOf(bpp, x) + bpp)
  {
  }

  /** Storing pixel (x, y) sets it and changes no other pixel already drawn. */
  lemma StorePixel(s: Shape, d: seq<Byte>, x: nat, y: nat, value: nat, d': seq<Byte>)
    requires s.Valid() && |d| >= s.Size() && x < s.w && y < s.h && value < Pow2(s.bpp)
    requires Index(s, x, y) < |d| && Ready(s, d[Index(s, x, y)], x)
    requires Stored(s, d[Index(s, x, y)], x, value) < 256 ==>
               d' == d[Index(s, x, y) := Stored(s, d[Index(s, x, y)], x, value)]
    ensures Stored(s, d[Index(s, x, y)], x, value) < 256
    ensures Pixel(s, d', x, y) == value
    ensures forall x': nat :: x' < x ==> Pixel(s, d', x', y) == Pixel(s, d, x', y)
    ensures forall y': nat :: y' < s.h && y' != y ==> Row(s, d', y', s.w) == Row(s, d, y', s.w)
    ensures x + 1 < s.w && Index(s, x + 1, y) < |d'| ==> Ready(s, d'[Index(s, x + 1, y)], x + 1)
  {
    var i := Index(s, x, y);
    StoredByte(s, d[i], x, value);
    IndexInside(s, x, y);
    forall x': nat | x' < x
      ensures Pixel(s, d', x', y) == Pixel(s, d, x', y)
    {
      Neighbours(s.bpp, x, x');
      IndexInside(s, x', y);
    }
    forall y': nat | y' < s.h && y' != y
      ensures Row(s, d', y', s.w) == Row(s, d, y', s.w)
    {
      OtherRow(s, d, d', y, y', i);
    }
    if x + 1 < s.w {
      Neighbours(s.bpp, x + 1, x);
      NextShift(s.bpp, x);
    }
  }

  lemma NextShift(bpp: nat, x: nat)
    requires Depth(bpp)
    ensures ShiftOf(bpp, x + 1) + bpp != 8 ==>
              ByteOf(bpp, x + 1) == ByteOf(bpp, x) && ShiftOf(bpp, x + 1) + bpp == ShiftOf(bpp, x)
  {
  }

  lemma OtherRow(s: Shape, d: seq<Byte>, d': seq<Byte>, y: nat, y': nat, i: nat)
    requires s.Valid() && |d| >= s.Size() && |d'| == |d| && y < s.h && y' < s.h && y != y'
    requires RowStart(s.h, s.Stride(), y) <= i < RowStart(s.h, s.Stride(), y) + s.Stride()
    requires forall k :: 0 <= k < |d| && k != i ==> d'[k] == d[k]
    ensures Row(s, d', y', s.w) == Row(s, d, y', s.w)
  {
    if y < y' {
      RowsApart(s.h, s.Stride(), y, y');
    } else {
      RowsApart(s.h, s.Stride(), y', y);
    }
    forall x: nat | x < s.w
      ensures Pixel(s, d', x, y') == Pixel(s, d, x, y')
    {
      IndexInside(s, x, y');
    }
  }

  lemma PlainStep(y: nat, pass: nat, h: nat)
    requires y < h && pass < 4
    ensures RowsFrom(y, pass, h, false) == [y] + RowsFrom(y + 1, pass, h, false)
    ensures y + 1 >= h ==> RowsFrom(y + 1, pass, h, false) == []
  {
  }

  lemma StartRows(h: nat, ilace: bool)
    ensures Rows(h, ilace) == [] + RowsFrom(0, 0, h, ilace)
    ensures h == 0 ==> RowsFrom(0, 0, h, ilace) == []
  {
  }

  lemma NextIsFirst(y: nat, pass: nat, h: nat, ilace: bool)
    requires y < h && pass < 4
    ensures RowsFrom(y, pass, h, ilace) != [] && RowsFrom(y, pass, h, ilace)[0] == y
  {
    if ilace {
      FirstOfPass(y, pass, h);
    } else {
      PlainStep(y, pass, h);
    }
  }

  lemma RowStep(h: nat, stride: nat, y: nat)
    requires y < h
    ensures y + 1 < h ==> RowStart(h, stride, y) - stride == RowStart(h, stride, y + 1)
  {
    if y + 1 < h {
      assert (h - 1 - y) * stride == (h - 1 - (y + 1)) * stride + stride;
    }
  }

  lemma NextRowStart(s: Shape, y: nat)
    requires s.Valid() && y < s.h
    ensures (s.h - 1 - y) * s.Stride() == RowStart(s.h, s.Stride(), y)
    ensures Index(s, 0, y) < s.Size() && ShiftOf(s.bpp, 0) + s.bpp == 8
  {
    IndexInside(s, 0, y);
  }

  class OutputContext {
    const shape: Shape
    const ilace: bool
    const stride: nat
    const data: array<Byte>
    var x: nat
    var y: nat
    var pass: nat
    var line: int  // where in data row y starts

    ghost var done: seq<nat>   // the rows completed
    ghost var drawn: seq<nat>  // the pixels drawn

    ghost predicate Valid()
      reads this, data
    {
      && shape.Valid() && stride == shape.Stride() && data.Length == shape.Size()
      && x < shape.w && pass < 4
      && AllBelow(done, shape.h)
      && Rows(shape.h, ilace) == done + RowsFrom(y, pass, shape.h, ilace)
      && (if y < shape.h then
            && line == RowStart(shape.h, stride, y)
            && drawn == Scan(shape, data[..], done) + Row(shape, data[..], y, x)
            && Index(shape, x, y) < data.Length
            && Ready(shape, data[Index(shape, x, y)], x)
          else
            && RowsFrom(y, pass, shape.h, ilace) == []
            && drawn == Scan(shape, data[..], done))
    }

    constructor (shape: Shape, ilace: bool, data: array<Byte>)
      requires shape.Valid() && data.Length == shape.Size()
      ensures Valid() && drawn == [] && y == 0
      ensures this.shape == shape && this.ilace == ilace && this.data == data
    {
      this.shape, this.ilace, this.data := shape, ilace, data;
      stride := shape.Stride();
      x, y, pass := 0, 0, 0;
      line := (shape.h - 1) * shape.Stride();
      done, drawn := [], [];
      new;
      IndexInside(shape, 0, 0);
    }

    /** Draws one pixel; once the image is complete further pixels are dropped. */
    method Output(value: nat)
      requires Valid() && value < Pow2(shape.bpp)
      modifies this, data
      ensures Valid()
      ensures drawn == if old(y) < shape.h then old(drawn) + [value] else old(drawn)
      ensures old(y) >= shape.h ==> y >= shape.h
    {
      if y >= shape.h {
        return;
      }
      ghost var before := data[..];
      Store(value);
      drawn := drawn + [value];
      x := x + 1;
      assert Row(shape, data[..], y, x) == Row(shape, before, y, x - 1) + [value];
      RowsDistinctAt(done, y);
      ScanKept(shape, before, data[..], done);
      if x < shape.w {
        IndexInside(shape, x, y);
        return;
      }
      NextRow();
    }

    lemma RowsDistinctAt(done: seq<nat>, y: nat)
      requires y < shape.h && pass < 4 && Rows(shape.h, ilace) == done + RowsFrom(y, pass, shape.h, ilace)
      ensures y !in done && exists rest :: RowsFrom(y, pass, shape.h, ilace) == [y] + rest
    {
      hide Rows, RowsFrom, Sweep;
      var rows := RowsFrom(y, pass, shape.h, ilace);
      NextIsFirst(y, pass, shape.h, ilace);
      assert rows == [y] + rows[1..];
      Associate(done, [y], rows[1..]);
      RowsDistinct(shape.h, ilace, done, y, rows[1..]);
    }

    /** Packs the pixel into its byte. */
    method Store(value: nat)
      requires Valid() && y < shape.h && value < Pow2(shape.bpp)
      modifies data
      ensures Pixel(shape, data[..], x, y) == value
      ensures forall x': nat :: x' < x ==> Pixel(shape, data[..], x', y) == Pixel(shape, old(data[..]), x', y)
      ensures forall y': nat :: y' < shape.h && y' != y ==>
                Row(shape, data[..], y', shape.w) == Row(shape, old(data[..]), y', shape.w)
      ensures x + 1 < shape.w && Index(shape, x + 1, y) < data.Length ==>
                Ready(shape, data[Index(shape, x + 1, y)], x + 1)
    {
      hide Row;
      ghost var before, i := data[..], Index(shape, x, y);
      StoredByte(shape, before[i], x, value);
      match shape.bpp {
        case 1 =>
          if x % 8 != 0 {
            data[line + x / 8] := Or(data[line + x / 8], Shl(value, 7 - x % 8));
          } else {
            data[line + x / 8] := Shl(value, 7);
          }
        case 4 =>
          if x % 2 != 0 {
            data[line + x / 2] := Or(data[line + x / 2], value);
          } else {
            data[line + x / 2] := Shl(value, 4);
          }
        case 8 =>
          data[line + x] := value;
      }
      assert data[..] == before[i := Stored(shape, before[i], x, value)];
      StorePixel(shape, before, x, y, value, data[..]);
    }

    /** Moves on to the next row of the image. */
    method NextRow()
      requires shape.Valid() && stride == shape.Stride() && data.Length == shape.Size()
      requires y < shape.h && pass < 4 && x == shape.w && line == RowStart(shape.h, stride, y)
      requires AllBelow(done, shape.h)
      requires Rows(shape.h, ilace) == done + RowsFrom(y, pass, shape.h, ilace)
      requires drawn == Scan(shape, data[..], done) + Row(shape, data[..], y, x)
      modifies this`x, this`y, this`pass, this`line, this`done
      ensures Valid()
    {
      hide RowsFrom, Rows, Scan, RowStart, Row, Sweep;
      ScanSnoc(shape, data[..], done, y);
      ghost var row, before := y, done;
      PlainStep(y, pass, shape.h);
      RowStep(shape.h, stride, y);
      x := 0;
      done := done + [y];
      if ilace {
        y, pass := StepIlace(y, shape.h, pass);
        line := (shape.h - 1 - y) * stride;
      } else {
        y := y + 1;
        line := line - stride;
      }
      ghost var rest := RowsFrom(y, pass, shape.h, ilace);
      assert before + ([row] + rest) == done + rest;
      if y < shape.h {
        NextRowStart(shape, y);
      }
    }

    /** The number of pixels of the whole image. */
    ghost function Total(): nat
      reads this, data
      requires Valid()
    {
      RowsBelow(shape.h, ilace);
      |Scan(shape, data[..], Rows(shape.h, ilace))|
    }

    /** What has been drawn is where the scan of the image begins. */
    lemma DrawnFirst()
      requires Valid()
      ensures AllBelow(Rows(shape.h, ilace), shape.h) && drawn <= Scan(shape, data[..], Rows(shape.h, ilace))
    {
      hide Scan, Row, Sweep, Rows, RowsFrom;
      RowsBelow(shape.h, ilace);
      var rows := RowsFrom(y, pass, shape.h, ilace);
      if y < shape.h {
        RowsDistinctAt(done, y);
        var rest :| rows == [y] + rest;
        Associate(done, [y], rest);
        ScanSnoc(shape, data[..], done, y);
        RowPrefix(shape, data[..], y, x);
        ScanPrefix(shape, data[..], done + [y], rest);
      } else {
        assert done + rows == done;
      }
    }

    /** Until the last row is complete there are pixels missing; then the whole bitmap is drawn. */
    lemma Progress()
      requires Valid()
      ensures y < shape.h ==> |drawn| < Total()
      ensures y >= shape.h ==> drawn == Scan(shape, data[..], Rows(shape.h, ilace)) && |drawn| == Total()
    {
      hide Scan, Row, Sweep;
      RowsBelow(shape.h, ilace);
      var rows := RowsFrom(y, pass, shape.h, ilace);
      if y < shape.h {
        RowsDistinctAt(done, y);
        var rest :| rows == [y] + rest;
        assert done + rows == done + [y] + rest;
        ScanLonger(shape, data[..], done, y, rest);
      } else {
        assert done + rows == done;
      }
    }
  }
}
