/** Bytes, and the bit operators of the C source on unsigned values.

    Everything is defined one binary digit at a time, so that no proof needs multiplication or
    division by anything but 2 and 256. */
module Bits {

  type Byte = x: int | 0 <= x < 256

  function Shl(v: nat, n: nat): nat {
    if n == 0 then v else 2 * Shl(v, n - 1)
  }

  function Shr(v: nat, n: nat): nat {
    if n == 0 then v else Shr(v / 2, n - 1)
  }

  /** 2 to the power n, as the source writes it: 1 << n. */
  function Pow2(n: nat): nat { Shl(1, n) }

  /** Bitwise OR. */
  function Or(a: nat, b: nat): nat {
    if a == 0 && b == 0 then 0
    else (if a % 2 == 1 || b % 2 == 1 then 1 else 0) + 2 * Or(a / 2, b / 2)
  }

  /** Bitwise AND. */
  function And(a: nat, b: nat): nat {
    if a == 0 || b == 0 then 0
    else (if a % 2 == 1 && b % 2 == 1 then 1 else 0) + 2 * And(a / 2, b / 2)
  }

  /** Binary digit i of v; digit 0 is the least significant. */
  function Bit(v: nat, i: nat): bool {
    if i == 0 then v % 2 == 1 else Bit(v / 2, i - 1)
  }

  /** The n low bits of v, least significant first. */
  function LowBits(v: nat, n: nat): seq<bool> {
    seq(n, (i: int) requires 0 <= i => Bit(v, i))
  }

  /** Bit i of a byte string, each byte least significant bit first (GIF89a, Appendix F). */
  function BitAt(bytes: seq<Byte>, i: nat): bool
    requires i < 8 * |bytes|
  {
    Bit(bytes[i / 8], i % 8)
  }

  lemma Pow2Table()
    ensures Pow2(0) == 1 && Pow2(1) == 2 && Pow2(2) == 4 && Pow2(3) == 8 && Pow2(4) == 16
    ensures Pow2(5) == 32 && Pow2(6) == 64 && Pow2(7) == 128 && Pow2(8) == 256
    ensures Pow2(9) == 512 && Pow2(10) == 1024 && Pow2(11) == 2048 && Pow2(12) == 4096
  {
    assert Pow2(3) == 8;
    assert Pow2(6) == 64;
    assert Pow2(9) == 512;
  }

  lemma ShlByte(v: nat)
    ensures Shl(v, 8) == 256 * v && Pow2(16) == 65536
  {
    assert Shl(v, 1) == 2 * v;
    assert Shl(v, 2) == 4 * v;
    assert Shl(v, 4) == 4 * Shl(v, 2);
    assert Shl(v, 6) == 4 * Shl(v, 4);
    assert Shl(v, 8) == 4 * Shl(v, 6);
    Pow2Table();
    assert Pow2(14) == 4 * Pow2(12) && Pow2(16) == 4 * Pow2(14);
  }

  lemma {:induction false} Pow2Monotone(m: nat, n: nat)
    requires m <= n
    ensures 1 <= Pow2(m) <= Pow2(n)
  {
    if m < n {
      Pow2Monotone(m, n - 1);
    } else if m != 0 {
      Pow2Monotone(m - 1, m - 1);
    }
  }

  lemma {:induction false} BitOfZero(i: nat)
    ensures !Bit(0, i)
  {
    if i != 0 {
      BitOfZero(i - 1);
    }
  }

  lemma {:induction false} OrZero(b: nat)
    ensures Or(0, b) == b
  {
    if b != 0 {
      OrZero(b / 2);
    }
  }

  lemma {:induction false} BitOfOr(a: nat, b: nat, i: nat)
    ensures Bit(Or(a, b), i) <==> Bit(a, i) || Bit(b, i)
  {
    if a == 0 && b == 0 {
      BitOfZero(i);
    } else if i != 0 {
      BitOfOr(a / 2, b / 2, i - 1);
    }
  }

  lemma {:induction false} BitOfAnd(a: nat, b: nat, i: nat)
    ensures Bit(And(a, b), i) <==> Bit(a, i) && Bit(b, i)
  {
    if a == 0 || b == 0 {
      BitOfZero(i);
    } else if i != 0 {
      BitOfAnd(a / 2, b / 2, i - 1);
    }
  }

  lemma {:induction false} BitOfShl(v: nat, s: nat, i: nat)
    ensures Bit(Shl(v, s), i) <==> i >= s && Bit(v, i - s)
  {
    if s != 0 {
      if i != 0 {
        BitOfShl(v, s - 1, i - 1);
      }
    }
  }

  lemma {:induction false} BitOfShr(v: nat, s: nat, i: nat)
    ensures Bit(Shr(v, s), i) == Bit(v, i + s)
  {
    if s != 0 {
      BitOfShr(v / 2, s - 1, i);
    }
  }

  lemma {:induction false} BitOfMask(n: nat, i: nat)
    ensures Pow2(n) >= 1
    ensures Bit(Pow2(n) - 1, i) <==> i < n
  {
    Pow2Monotone(n, n);
    if n == 0 {
      BitOfZero(i);
    } else {
      Pow2Monotone(n - 1, n - 1);
      if i != 0 {
        BitOfMask(n - 1, i - 1);
        assert (Pow2(n) - 1) / 2 == Pow2(n - 1) - 1;
      }
    }
  }

  lemma {:induction false} BitBeyond(v: nat, n: nat, i: nat)
    requires v < Pow2(n) && n <= i
    ensures !Bit(v, i)
  {
    if n == 0 {
      BitOfZero(i);
    } else {
      BitBeyond(v / 2, n - 1, i - 1);
    }
  }

  lemma {:induction false} OrBound(a: nat, b: nat, n: nat)
    requires a < Pow2(n) && b < Pow2(n)
    ensures Or(a, b) < Pow2(n)
  {
    if n != 0 {
      OrBound(a / 2, b / 2, n - 1);
    }
  }

  lemma {:induction false} AndBound(a: nat, b: nat)
    ensures And(a, b) <= b
  {
    if a != 0 && b != 0 {
      AndBound(a / 2, b / 2);
    }
  }

  /** Two numbers of n bits with the same digits are the same number. */
  lemma {:induction false} SameBits(a: nat, b: nat, n: nat)
    requires a < Pow2(n) && b < Pow2(n)
    requires forall i: nat :: i < n ==> Bit(a, i) == Bit(b, i)
    ensures a == b
  {
    if n != 0 {
      forall i: nat | i < n - 1
        ensures Bit(a / 2, i) == Bit(b / 2, i)
      {
        assert Bit(a, i + 1) == Bit(b, i + 1);
      }
      SameBits(a / 2, b / 2, n - 1);
      assert Bit(a, 0) == Bit(b, 0);
    }
  }

  /** Adding values that share no digit joins their digits. */
  lemma {:induction false} BitOfSum(a: nat, b: nat, n: nat, i: nat)
    requires a < Pow2(n)
    ensures Bit(a + Shl(b, n), i) <==> if i < n then Bit(a, i) else Bit(b, i - n)
  {
    if n != 0 && i != 0 {
      assert (a + Shl(b, n)) / 2 == a / 2 + Shl(b, n - 1);
      BitOfSum(a / 2, b, n - 1, i - 1);
    }
  }

  /** Truncation to a byte keeps the eight low digits. */
  function LowByte(v: nat): (b: Byte) {
    AndBound(v, 255);
    And(v, 255)
  }

  lemma BitOfLowByte(v: nat, i: nat)
    ensures Bit(LowByte(v), i) <==> i < 8 && Bit(v, i)
  {
    Pow2Table();
    BitOfAnd(v, 255, i);
    BitOfMask(8, i);
  }

  lemma BitOfBigByte(b: Byte, i: nat)
    requires i >= 8
    ensures !Bit(b, i)
  {
    Pow2Table();
    BitBeyond(b, 8, i);
  }

  // ---- a number a + Shl(b, n) as n low digits a below the digits b ----

  lemma {:induction false} OrJoin(a: nat, b: nat, n: nat)
    requires a < Pow2(n)
    ensures Or(Shl(b, n), a) == a + Shl(b, n)
  {
    if n == 0 {
      OrSame(b);
    } else {
      OrJoin(a / 2, b, n - 1);
    }
  }

  lemma {:induction false} OrSame(b: nat)
    ensures Or(b, 0) == b
  {
    if b != 0 {
      OrSame(b / 2);
    }
  }

  lemma {:induction false} AndLow(a: nat, b: nat, n: nat)
    requires a < Pow2(n)
    ensures Pow2(n) >= 1 && And(a + Shl(b, n), Pow2(n) - 1) == a
  {
    Pow2Monotone(n, n);
    if n != 0 {
      Pow2Monotone(n - 1, n - 1);
      AndLow(a / 2, b, n - 1);
      assert (a + Shl(b, n)) / 2 == a / 2 + Shl(b, n - 1);
      assert (Pow2(n) - 1) / 2 == Pow2(n - 1) - 1;
    }
  }

  lemma {:induction false} AndHigh(a: nat, b: nat, c: nat, n: nat)
    requires a < Pow2(n)
    ensures And(a + Shl(b, n), Shl(c, n)) == Shl(And(b, c), n)
  {
    if n != 0 {
      AndHigh(a / 2, b, c, n - 1);
      assert (a + Shl(b, n)) / 2 == a / 2 + Shl(b, n - 1);
    }
  }

  /** Masks take a number of m + n digits apart into n low and m high ones. */
  lemma MaskParts(low: nat, high: nat, m: nat, n: nat)
    requires low < Pow2(n) && high < Pow2(m)
    ensures Pow2(n) >= 1 && And(low + Shl(high, n), Pow2(n) - 1) == low
    ensures Pow2(m) >= 1 && And(low + Shl(high, n), Shl(Pow2(m) - 1, n)) == Shl(high, n)
  {
    hide And, Shl;
    Pow2Monotone(m, m);
    AndLow(low, high, n);
    AndHigh(low, high, Pow2(m) - 1, n);
    AndLow(high, 0, m);
    ShlZero(m);
  }

  lemma Product(a: nat, b: nat)
    ensures a * b >= 0
  {
  }

  lemma TimesMonotone(a: nat, b: nat, c: nat)
    requires a <= b
    ensures a * c <= b * c
  {
  }

  lemma {:induction false} ShlTimes(v: nat, n: nat)
    ensures Shl(v, n) == v * Pow2(n)
  {
    if n != 0 {
      ShlTimes(v, n - 1);
    }
  }

  lemma {:induction false} ShlZero(n: nat)
    ensures Shl(0, n) == 0
  {
    if n != 0 {
      ShlZero(n - 1);
    }
  }

  /** The masks 0x0f and 0xf0. */
  lemma Nibbles(b: Byte)
    ensures And(b, 0x0f) == b % 16 && And(b, 0xf0) == b / 16 * 16
  {
    hide And;
    Pow2Table();
    ShlTimes(b / 16, 4);
    ShlTimes(15, 4);
    MaskParts(b % 16, b / 16, 4, 4);
  }

  /** The masks 0x3f and 0xc0. */
  lemma SixAndTwo(b: Byte)
    ensures And(b, 0x3f) == b % 64 && And(b, 0xc0) == b / 64 * 64
  {
    hide And;
    Pow2Table();
    ShlTimes(b / 64, 6);
    ShlTimes(3, 6);
    MaskParts(b % 64, b / 64, 2, 6);
  }

  /** The masks 0x7f and 0x80. */
  lemma SevenAndOne(b: Byte)
    ensures And(b, 0x7f) == b % 128 && And(b, 0x80) == b / 128 * 128
  {
    hide And;
    Pow2Table();
    ShlTimes(b / 128, 7);
    ShlTimes(1, 7);
    MaskParts(b % 128, b / 128, 1, 7);
  }
}
