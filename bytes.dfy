/** The five static helpers of `bitHelper.Bytes`. Each one promotes its
    `byte` operands to `int`, applies one `int` operator and casts the result
    back to `byte`; the shift count is a `byte` too and is promoted on its
    own. The lemmas say what that chain of conversions computes. */
module Bytes {
  import opened TwosComplement
  import opened Java

  /** `shiftRight(x, n)`: `(byte)((byte)x >> n)`. */
  function ShiftRight(x: Byte, n: Byte): Byte
  {
    NarrowToByte(IntShr(Promote(x), Promote(n)))
  }

  /** `shiftLeft(x, n)`: `(byte)((byte)x << n)`. */
  function ShiftLeft(x: Byte, n: Byte): Byte
  {
    NarrowToByte(IntShl(Promote(x), Promote(n)))
  }

  /** `unsignedShiftRight(x, n)`: `(byte)((byte)x >>> n)`. */
  function UnsignedShiftRight(x: Byte, n: Byte): Byte
  {
    NarrowToByte(IntUshr(Promote(x), Promote(n)))
  }

  /** `and(x, n)`: `(byte)((byte)x & (byte)n)`. */
  function And(x: Byte, n: Byte): Byte
  {
    NarrowToByte(IntAnd(Promote(x), Promote(n)))
  }

  /** `or(x, n)`: `(byte)((byte)x | (byte)n)`. */
  function Or(x: Byte, n: Byte): Byte
  {
    NarrowToByte(IntOr(Promote(x), Promote(n)))
  }

  function Min(a: int, b: int): int
  {
    if a <= b then a else b
  }

  // Shift counts

  /** Every shift depends on its count only modulo 32: the count is
      promoted to `int`, whose shift distance is its five low bits. A byte
      count is never large enough for the distance to reach 32, so counts
      that differ by a multiple of 32, negative ones included, agree. */
  lemma ShiftsDependOnCountModulo32(x: Byte, n: Byte, m: Byte)
    requires n % 32 == m % 32
    ensures ShiftRight(x, n) == ShiftRight(x, m)
    ensures ShiftLeft(x, n) == ShiftLeft(x, m)
    ensures UnsignedShiftRight(x, n) == UnsignedShiftRight(x, m)
  {
    assert ShiftDistance(n) == ShiftDistance(m);
  }

  /** Only the low five bits of the count matter: masking the count with
      `and(n, 31)` first changes nothing. */
  lemma ShiftsUseLowFiveBits(x: Byte, n: Byte)
    ensures ShiftRight(x, n) == ShiftRight(x, And(n, 31))
    ensures ShiftLeft(x, n) == ShiftLeft(x, And(n, 31))
    ensures UnsignedShiftRight(x, n) == UnsignedShiftRight(x, And(n, 31))
  {
    var m := And(n, 31);
    assert m == n % 32 by {
      AndIsBitAnd(n, 31);
      Pow2Constants();
      BitAndLowMask(n, 5);
    }
    ShiftsDependOnCountModulo32(x, n, m);
  }

  /** A count of 0 leaves the byte unchanged, for all three shifts. */
  lemma ZeroShiftIsIdentity(x: Byte)
    ensures ShiftRight(x, 0) == x
    ensures ShiftLeft(x, 0) == x
    ensures UnsignedShiftRight(x, 0) == x
  {
    assert Pow2(0) == 1;
    assert ShiftDistance(0) == 0;
    IntShrValue(x, 0);
    assert IntShr(x, 0) == x;
    assert IntShl(x, 0) == NarrowToInt(x);
    assert IntUshr(x, 0) == x;
  }

  // shiftRight

  /** `shiftRight(x, n)` is x / 2^s rounded down, where s = n mod 32; in
      particular it keeps the sign of x. */
  lemma ShiftRightIsFloorDivision(x: Byte, n: Byte)
    ensures ShiftRight(x, n) == x / Pow2(n % 32)
    ensures ShiftRight(x, n) < 0 <==> x < 0
  {
    IntShrValue(x, n);
    DivBounds(x, Pow2(n % 32));
  }

  /** From a shift distance of 7 on, `shiftRight` leaves only copies of
      the sign bit: 0 for a non-negative byte and -1 for a negative one. */
  lemma ShiftRightSaturates(x: Byte, n: Byte)
    requires 7 <= n % 32
    ensures ShiftRight(x, n) == if x < 0 then -1 else 0
  {
    Pow2Constants();
    var p := Pow2(n % 32);
    Pow2Monotone(7, n % 32);
    ShiftRightIsFloorDivision(x, n);
    if x < 0 {
      DivModUnique(x, p, -1, x + p);
    } else {
      DivModUnique(x, p, 0, x);
    }
  }

  /** Bit i of `shiftRight(x, n)` is bit i + s of x while that is inside the
      byte and the sign bit of x above: sign extension. */
  lemma ShiftRightBits(x: Byte, n: Byte, i: nat)
    requires i < 8
    ensures Bit(ShiftRight(x, n), i) == Bit(x, Min(i + n % 32, 7))
  {
    Pow2Constants();
    ShiftRightIsFloorDivision(x, n);
    BitOfDivPow2(x, n % 32, i);
    if 7 <= i + n % 32 {
      BitAboveWidth(x, 7, i + n % 32);
      BitAboveWidth(x, 7, 7);
    }
  }

  // shiftLeft

  /** `shiftLeft(x, n)` is x * 2^s reduced to a byte, where s = n mod 32:
      the `int` overflow in between makes no difference to the low 8 bits. */
  lemma ShiftLeftIsNarrowedProduct(x: Byte, n: Byte)
    ensures ShiftLeft(x, n) == Narrow(x * Pow2(n % 32), 8)
  {
    Pow2Constants();
    NarrowNarrow(x * Pow2(n % 32), 8, 32);
  }

  /** From a shift distance of 8 on, every bit of the byte is shifted out. */
  lemma ShiftLeftClears(x: Byte, n: Byte)
    requires 8 <= n % 32
    ensures ShiftLeft(x, n) == 0
  {
    Pow2Constants();
    forall i: nat | i <= 7
      ensures Bit(ShiftLeft(x, n), i) == Bit(0, i)
    {
      ShiftLeftBits(x, n, i);
      BitOfZero(i);
    }
    BitsDetermine(ShiftLeft(x, n), 0, 7);
  }

  /** Bit i of `shiftLeft(x, n)` is bit i - s of x, and 0 below s. */
  lemma ShiftLeftBits(x: Byte, n: Byte, i: nat)
    requires i < 8
    ensures Bit(ShiftLeft(x, n), i) == (n % 32 <= i && Bit(x, i - n % 32))
  {
    ShiftLeftIsNarrowedProduct(x, n);
    BitOfNarrow(x * Pow2(n % 32), 8, i);
    BitOfMulPow2(x, n % 32, i);
  }

  // unsignedShiftRight

  /** `unsignedShiftRight(x, n)` is the 32-bit pattern of the promoted x,
      read as unsigned and divided by 2^s, reduced to a byte. */
  lemma UnsignedShiftRightValue(x: Byte, n: Byte)
    ensures UnsignedShiftRight(x, n) == Narrow((x % 0x1_0000_0000) / Pow2(n % 32), 8)
  {
    Pow2Constants();
    NarrowNarrow((x % 0x1_0000_0000) / Pow2(n % 32), 8, 32);
  }

  /** Up to a shift distance of 24, `unsignedShiftRight` gives the same byte
      as `shiftRight`: the zeros come in at bit 31 of the sign-extended `int`
      and do not reach the low 8 bits. */
  lemma UnsignedShiftRightMatchesShiftRight(x: Byte, n: Byte)
    requires n % 32 <= 24
    ensures UnsignedShiftRight(x, n) == ShiftRight(x, n)
  {
    Pow2Constants();
    var s := n % 32;
    var p := Pow2(s);
    var q := x / p;
    var u := x % 0x1_0000_0000;
    ShiftRightIsFloorDivision(x, n);
    UnsignedShiftRightValue(x, n);
    assert -0x80 <= q < 0x80 by {
      DivBounds(x, p);
    }
    assert (u / p - q) % Pow2(8) == 0 by {
      if x < 0 {
        UnsignedQuotientOfNegative(x, s);
        Pow2Add(8, 24 - s);
        DivModUnique(Pow2(32 - s), 0x100, Pow2(24 - s), 0);
      } else {
        DivModUnique(x, 0x1_0000_0000, 0, x);
        DivModUnique(0, 0x100, 0, 0);
      }
    }
    NarrowCongruent(u / p, q, 8);
    NarrowInRange(q, 8);
  }


  /** From a shift distance of 25 on, the zeros reach the byte: the result
      is 0 for a non-negative x and 2^(32 - s) - 1 for a negative one, so it
      is never negative. */
  lemma UnsignedShiftRightZeroFillsLate(x: Byte, n: Byte)
    requires 25 <= n % 32
    ensures UnsignedShiftRight(x, n) == if x < 0 then Pow2(32 - n % 32) - 1 else 0
    ensures 0 <= UnsignedShiftRight(x, n)
  {
    Pow2Constants();
    var s := n % 32;
    var p := Pow2(s);
    var high := Pow2(32 - s);
    var u := x % 0x1_0000_0000;
    var q := if x < 0 then high - 1 else 0;
    UnsignedShiftRightValue(x, n);
    assert u / p == q by {
      Pow2Monotone(7, s);
      if x < 0 {
        Pow2Add(s, 32 - s);
        DivModUnique(x, 0x1_0000_0000, -1, x + 0x1_0000_0000);
        MulDistributes(p, high, -1);
        DivModUnique(u, p, high - 1, x + p);
      } else {
        DivModUnique(x, 0x1_0000_0000, 0, x);
        DivModUnique(x, p, 0, x);
      }
    }
    assert 0 <= q < 0x80 by {
      Pow2Monotone(32 - s, 7);
    }
    NarrowInRange(q, 8);
  }


  /** Bit i of `unsignedShiftRight(x, n)`: bit i + s of the sign-extended x
      while i + s < 32, and 0 from there on. A zero can only land in the byte
      when s >= 25. */
  lemma UnsignedShiftRightBits(x: Byte, n: Byte, i: nat)
    requires i < 8
    ensures Bit(UnsignedShiftRight(x, n), i) == (i + n % 32 < 32 && Bit(x, Min(i + n % 32, 7)))
  {
    Pow2Constants();
    var s := n % 32;
    var u := x % 0x1_0000_0000;
    UnsignedShiftRightValue(x, n);
    BitOfNarrow(u / Pow2(s), 8, i);
    BitOfDivPow2(u, s, i);
    BitOfMod(x, 32, i + s);
    if 7 <= i + s {
      BitAboveWidth(x, 7, i + s);
      BitAboveWidth(x, 7, 7);
    }
  }

  // and, or

  /** `and` computes the bitwise AND of the values; neither the sign
      extension nor the cast back changes it. */
  lemma AndIsBitAnd(x: Byte, y: Byte)
    ensures And(x, y) == BitAnd(x, y)
  {
    Pow2Constants();
    BitAndInRange(x, y, 7);
  }

  /** `or` computes the bitwise OR of the values. */
  lemma OrIsBitOr(x: Byte, y: Byte)
    ensures Or(x, y) == BitOr(x, y)
  {
    Pow2Constants();
    BitOrInRange(x, y, 7);
  }

  /** `and(x, y)` is the one byte whose eight bits are the ANDs of the bits
      of x and y: it is the 8-bit AND of the two's-complement patterns. */
  lemma AndIsBitwise(x: Byte, y: Byte, z: Byte)
    ensures z == And(x, y) <==> forall i: nat :: i < 8 ==> Bit(z, i) == (Bit(x, i) && Bit(y, i))
  {
    Pow2Constants();
    AndIsBitAnd(x, y);
    var r := And(x, y);
    forall i: nat | i < 8
      ensures Bit(r, i) == (Bit(x, i) && Bit(y, i))
    {
      BitOfAnd(x, y, i);
    }
    if z != r {
      assert exists j: nat :: j <= 7 && Bit(z, j) != Bit(r, j) by {
        if forall j: nat :: j <= 7 ==> Bit(z, j) == Bit(r, j) {
          BitsDetermine(z, r, 7);
        }
      }
      var j: nat :| j <= 7 && Bit(z, j) != Bit(r, j);
      assert Bit(z, j) != (Bit(x, j) && Bit(y, j));
    }
  }


  /** `or(x, y)` is the one byte whose eight bits are the ORs of the bits
      of x and y. */
  lemma OrIsBitwise(x: Byte, y: Byte, z: Byte)
    ensures z == Or(x, y) <==> forall i: nat :: i < 8 ==> Bit(z, i) == (Bit(x, i) || Bit(y, i))
  {
    Pow2Constants();
    OrIsBitOr(x, y);
    var r := Or(x, y);
    forall i: nat | i < 8
      ensures Bit(r, i) == (Bit(x, i) || Bit(y, i))
    {
      BitOfOr(x, y, i);
    }
    if z != r {
      assert exists j: nat :: j <= 7 && Bit(z, j) != Bit(r, j) by {
        if forall j: nat :: j <= 7 ==> Bit(z, j) == Bit(r, j) {
          BitsDetermine(z, r, 7);
        }
      }
      var j: nat :| j <= 7 && Bit(z, j) != Bit(r, j);
      assert Bit(z, j) != (Bit(x, j) || Bit(y, j));
    }
  }


  /** `and` is commutative and idempotent, 0 absorbs and -1 (all ones) is
      neutral. */
  lemma AndLaws(x: Byte, y: Byte)
    ensures And(x, y) == And(y, x)
    ensures And(x, x) == x
    ensures And(x, 0) == 0
    ensures And(x, -1) == x
  {
    AndIsBitAnd(x, y);
    AndIsBitAnd(y, x);
    AndIsBitAnd(x, x);
    AndIsBitAnd(x, 0);
    AndIsBitAnd(x, -1);
    BitAndCommutes(x, y);
    BitAndIdempotent(x);
    BitAndZero(x);
    BitAndMinusOne(x);
  }

  /** `or` is commutative and idempotent, 0 is neutral and -1 (all ones)
      absorbs. */
  lemma OrLaws(x: Byte, y: Byte)
    ensures Or(x, y) == Or(y, x)
    ensures Or(x, x) == x
    ensures Or(x, 0) == x
    ensures Or(x, -1) == -1
  {
    OrIsBitOr(x, y);
    OrIsBitOr(y, x);
    OrIsBitOr(x, x);
    OrIsBitOr(x, 0);
    OrIsBitOr(x, -1);
    BitOrCommutes(x, y);
    BitOrIdempotent(x);
    BitOrZero(x);
    BitOrMinusOne(x);
  }

  // A zero-filling shift of the byte's own pattern

  /** `unsignedShiftRight` as its name reads: the 8-bit pattern of x,
      `x & 0xFF`, shifted with zeros coming in at bit 7, that is
      `(byte)(((byte)x & 0xFF) >>> n)`. */
  function UnsignedShiftRightOfPattern(x: Byte, n: Byte): Byte
  {
    NarrowToByte(IntUshr(IntAnd(Promote(x), 0xFF), Promote(n)))
  }

  /** The pattern of x read as an unsigned number 0 .. 255, divided by 2^s,
      reduced to a byte. */
  lemma UnsignedShiftRightOfPatternValue(x: Byte, n: Byte)
    ensures UnsignedShiftRightOfPattern(x, n) == Narrow((x % 0x100) / Pow2(n % 32), 8)
  {
    Pow2Constants();
    var u := x % 0x100;
    var p := Pow2(n % 32);
    BitAndLowMask(x, 8);
    assert IntAnd(Promote(x), 0xFF) == u;
    DivModUnique(u, 0x1_0000_0000, 0, u);
    DivBounds(u, p);
    assert IntUshr(u, n) == u / p;
  }

  /** Bit i of the result is bit i + s of x while that is inside the byte,
      and 0 from there on: a logical shift of the 8-bit pattern. */
  lemma UnsignedShiftRightOfPatternBits(x: Byte, n: Byte, i: nat)
    requires i < 8
    ensures Bit(UnsignedShiftRightOfPattern(x, n), i) == (i + n % 32 < 8 && Bit(x, i + n % 32))
  {
    var u := x % Pow2(8);
    Pow2Constants();
    UnsignedShiftRightOfPatternValue(x, n);
    BitOfNarrow(u / Pow2(n % 32), 8, i);
    BitOfDivPow2(u, n % 32, i);
    BitOfMod(x, 8, i + n % 32);
  }

  /** Any shift distance from 1 on clears the sign bit. */
  lemma UnsignedShiftRightOfPatternIsNonNegative(x: Byte, n: Byte)
    requires n % 32 != 0
    ensures 0 <= UnsignedShiftRightOfPattern(x, n)
  {
    Pow2Constants();
    var s := n % 32;
    var u := x % 0x100;
    UnsignedShiftRightOfPatternValue(x, n);
    DivDiv(u, 2, Pow2(s - 1));
    DivBounds(u / 2, Pow2(s - 1));
    NarrowInRange(u / Pow2(s), 8);
  }

  /** For a non-negative byte the two readings agree. */
  lemma UnsignedShiftRightOfPatternAgreesOnNonNegative(x: Byte, n: Byte)
    requires 0 <= x
    ensures UnsignedShiftRightOfPattern(x, n) == UnsignedShiftRight(x, n)
  {
    UnsignedShiftRightOfPatternValue(x, n);
    UnsignedShiftRightValue(x, n);
    DivModUnique(x, 0x100, 0, x);
    DivModUnique(x, 0x1_0000_0000, 0, x);
  }

  /** The two readings part for a negative byte at a small count: the
      source's `unsignedShiftRight(-128, 1)` is -64, the pattern shifted
      with a zero is 64. */
  lemma UnsignedShiftRightSignFills()
    ensures UnsignedShiftRight(-128, 1) == -64
    ensures UnsignedShiftRightOfPattern(-128, 1) == 64
  {
    UnsignedShiftRightShiftsInOnes();
    UnsignedShiftRightOfPatternValue(-128, 1);
    assert Pow2(1) == 2;
    DivModUnique(-128, 0x100, -1, 128);
    DivModUnique(128, 2, 64, 0);
    assert Narrow(64, 8) == 64 by {
      Pow2Constants();
      NarrowInRange(64, 8);
    }
  }



  // Worked cases. A bit pattern such as 0b11001100 stands for the byte
  // `(byte)0xCC`, that is -52.

  lemma ShiftLeftExample()
    ensures ShiftLeft(1, 1) == 2
  {
    ShiftLeftIsNarrowedProduct(1, 1);
    assert Pow2(1) == 2;
    assert Narrow(2, 8) == 2 by {
      Pow2Constants();
      NarrowInRange(2, 8);
    }
  }

  lemma ShiftRightExample()
    ensures ShiftRight(-128, 1) == -64
  {
    ShiftRightIsFloorDivision(-128, 1);
    assert Pow2(1) == 2;
    DivModUnique(-128, 2, -64, 0);
  }

  /** 0b10000000 >>> 1 keeps the sign: the zero lands in bit 31 of the `int`. */
  lemma UnsignedShiftRightShiftsInOnes()
    ensures UnsignedShiftRight(-128, 1) == -64
  {
    UnsignedShiftRightMatchesShiftRight(-128, 1);
    ShiftRightExample();
  }

  /** From a count of 25 the zeros show: 0b11111111 >>> 25 is 0b01111111 and
      0b11111111 >>> 31 is 0b00000001. */
  lemma UnsignedShiftRightZeroFillExamples()
    ensures UnsignedShiftRight(-1, 25) == 127
    ensures UnsignedShiftRight(-1, 31) == 1
  {
    UnsignedShiftRightZeroFillsLate(-1, 25);
    UnsignedShiftRightZeroFillsLate(-1, 31);
    assert Pow2(1) == 2;
    assert Pow2(7) == 0x80 by {
      Pow2Constants();
    }
  }



  /** 0b11001100 & 0b10101010 == 0b10001000 and
      0b11001100 | 0b00110011 == 0b11111111. */
  lemma AndOrExamples()
    ensures And(NarrowToByte(0xCC), NarrowToByte(0xAA)) == NarrowToByte(0x88)
    ensures Or(NarrowToByte(0xCC), NarrowToByte(0x33)) == -1
  {
    ByteLiterals();
    AndIsBitAnd(-52, -86);
    OrIsBitOr(-52, 51);
    assert BitAnd(-52, -86) == -120;
    assert BitOr(-52, 51) == -1;
  }

  lemma ByteLiterals()
    ensures NarrowToByte(0xCC) == -52 && NarrowToByte(0xAA) == -86
    ensures NarrowToByte(0x88) == -120 && NarrowToByte(0x33) == 51
  {
    Pow2Constants();
    NarrowCongruent(0xCC, -52, 8);
    NarrowInRange(-52, 8);
    NarrowCongruent(0xAA, -86, 8);
    NarrowInRange(-86, 8);
    NarrowCongruent(0x88, -120, 8);
    NarrowInRange(-120, 8);
  }
}
