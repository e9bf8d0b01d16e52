/** The part of Java's integer semantics that the byte helpers rely on, as
    the Java Language Specification fixes it: the `byte` and `int` types
    (JLS 4.2.1), widening and narrowing conversions (JLS 5.1.2, 5.1.3), unary
    numeric promotion (JLS 5.6.1), the shift operators (JLS 15.19), bitwise
    complement (JLS 15.15.5), integer addition (JLS 15.18.2) and the integer
    bitwise operators (JLS 15.22.1). Values are the mathematical integers the
    two's-complement bit patterns denote. */
module Java {
  import opened TwosComplement

  /** Java `byte`: 8-bit signed two's-complement. */
  type Byte = x: int | -0x80 <= x < 0x80

  /** Java `int`: 32-bit signed two's-complement. */
  type Int = x: int | -0x8000_0000 <= x < 0x8000_0000

  lemma Pow2Constants()
    ensures Pow2(5) == 0x20 && Pow2(7) == 0x80 && Pow2(8) == 0x100
    ensures Pow2(31) == 0x8000_0000 && Pow2(32) == 0x1_0000_0000
  {
    assert Pow2(4) == 0x10;
    assert Pow2(5) == 2 * Pow2(4);
    Pow2Add(4, 4);
    assert Pow2(8) == 2 * Pow2(7);
    Pow2Add(8, 8);
    Pow2Add(16, 16);
    assert Pow2(32) == 2 * Pow2(31);
  }

  /** Widening `byte` to `int` (JLS 5.1.2), which unary numeric promotion
      applies to each operand of a shift and binary numeric promotion to both
      operands of `&` and `|` (JLS 5.6). The value is kept. */
  function Promote(b: Byte): Int
  {
    b
  }

  /** Widening is sign extension: bits 0 .. 6 are kept and the sign bit 7 is
      copied into bits 7 .. 31 (and beyond). */
  lemma PromoteSignExtends(b: Byte, i: nat)
    ensures Bit(Promote(b), i) == if i < 7 then Bit(b, i) else b < 0
  {
    if 7 <= i {
      Pow2Constants();
      BitAboveWidth(b, 7, i);
    }
  }

  /** Narrowing `int` to `byte`, the `(byte)` cast (JLS 5.1.3). */
  function NarrowToByte(v: Int): (r: Byte)
    ensures (v - r) % 0x100 == 0
    ensures -0x80 <= v < 0x80 ==> r == v
  {
    Pow2Constants();
    NarrowInRange(v, 8);
    Narrow(v, 8)
  }

  /** The `(byte)` cast keeps bits 0 .. 7 of the `int` and discards bits 8 .. 31. */
  lemma NarrowToByteKeepsLowBits(v: Int, i: nat)
    ensures Bit(NarrowToByte(v), i) == Bit(v, if i < 8 then i else 7)
  {
    BitOfNarrow(v, 8, i);
  }

  /** The low 32 bits of an integer result, read as an `int`: what happens
      to a result that overflows `int` (JLS 15.17.1, 15.18.2, 15.19). */
  function NarrowToInt(v: int): (r: Int)
    ensures (v - r) % 0x1_0000_0000 == 0
    ensures -0x8000_0000 <= v < 0x8000_0000 ==> r == v
  {
    Pow2Constants();
    NarrowInRange(v, 32);
    Narrow(v, 32)
  }

  /** Adding congruent values gives the same `int`. */
  lemma NarrowToIntAddCongruent(q: int, a: int, b: int)
    requires (a - b) % 0x1_0000_0000 == 0
    ensures NarrowToInt(q + a) == NarrowToInt(q + b)
  {
    Pow2Constants();
    assert (q + a) - (q + b) == a - b;
    NarrowCongruent(q + a, q + b, 32);
  }

  /** `a & b` on `int` (JLS 15.22.1). */
  function IntAnd(a: Int, b: Int): Int
  {
    Pow2Constants();
    BitAndInRange(a, b, 31);
    BitAnd(a, b)
  }

  /** `a | b` on `int` (JLS 15.22.1). */
  function IntOr(a: Int, b: Int): Int
  {
    Pow2Constants();
    BitOrInRange(a, b, 31);
    BitOr(a, b)
  }

  /** `~a` on `int` (JLS 15.15.5). */
  function IntNot(a: Int): Int
  {
    -(a as int) - 1
  }

  /** `a + b` on `int`, wrapping on overflow (JLS 15.18.2). */
  function IntAdd(a: Int, b: Int): Int
  {
    NarrowToInt(a + b)
  }

  /** The shift distance for an `int` left operand: only the five low bits
      of the right operand are used, as if it were masked with `& 0x1f`
      (JLS 15.19). That is its remainder modulo 32, also for negative n. */
  function ShiftDistance(n: Int): (s: nat)
    ensures s < 32 && s == n % 32
  {
    Pow2Constants();
    BitAndLowMask(n, 5);
    IntAnd(n, 0x1f)
  }

  /** `v >> n` on `int` (JLS 15.19): sign-extending; its value is v / 2^s
      rounded down, where s is the shift distance. */
  function IntShr(v: Int, n: Int): (r: Int)
    ensures r * Pow2(n % 32) <= v < (r + 1) * Pow2(n % 32)
  {
    var p := Pow2(ShiftDistance(n));
    DivBounds(v, p);
    FloorDivision(v, p);
    v / p
  }

  /** `v << n` on `int` (JLS 15.19): v * 2^s, keeping the low 32 bits. */
  function IntShl(v: Int, n: Int): (r: Int)
    ensures (v * Pow2(n % 32) - r) % 0x1_0000_0000 == 0
  {
    NarrowToInt(v * Pow2(ShiftDistance(n)))
  }

  /** `v >>> n` on `int` (JLS 15.19): zero-filling; the 32-bit pattern of v,
      read as an unsigned number, divided by 2^s. */
  function IntUshr(v: Int, n: Int): (r: Int)
    ensures n % 32 == 0 ==> r == v
    ensures n % 32 != 0 ==> 0 <= r
  {
    var s := ShiftDistance(n);
    UnsignedQuotientBounds(v, s);
    NarrowToInt((v % 0x1_0000_0000) / Pow2(s))
  }

  /** The unsigned 32-bit pattern of v divided by 2^s: for s = 0 it wraps
      back to v, and for s >= 1 it is below 2^31, so it is a non-negative
      `int`. */
  lemma UnsignedQuotientBounds(v: Int, s: nat)
    requires s < 32
    ensures s == 0 ==> NarrowToInt((v % 0x1_0000_0000) / Pow2(s)) == v
    ensures s != 0 ==> 0 <= NarrowToInt((v % 0x1_0000_0000) / Pow2(s))
  {
    Pow2Constants();
    var u := v % 0x1_0000_0000;
    if s == 0 {
      assert u == v || u == v + 0x1_0000_0000 by {
        DivModUnique(v, 0x1_0000_0000, if v < 0 then -1 else 0, if v < 0 then v + 0x1_0000_0000 else v);
      }
      NarrowCongruent(v, u, 32);
      NarrowInRange(v, 32);
    } else {
      DivDiv(u, 2, Pow2(s - 1));
      DivBounds(u / 2, Pow2(s - 1));
    }
  }

  /** A proof step that unfolds the definition of `>>`: the quotient in
      IntShr's ensures, written as a division. */
  lemma IntShrValue(v: Int, n: Int)
    ensures IntShr(v, n) == v / Pow2(n % 32)
  {
    var r := IntShr(v, n);
    DivModUnique(v, Pow2(n % 32), r, v - r * Pow2(n % 32));
  }

  /** `2 << ~n` is 2^(32 - s) modulo 2^32, where s is the shift distance of n. */
  lemma ShlTwoByNot(n: Int)
    ensures (IntShl(2, IntNot(n)) - Pow2(32 - n % 32)) % 0x1_0000_0000 == 0
  {
    var s := n % 32;
    var m := IntNot(n);
    DivModUnique(m, 32, -(n / 32) - 1, 31 - s);
    assert 2 * Pow2(31 - s) == Pow2(32 - s);
    var x := IntShl(2, m);
    assert (2 * Pow2(m % 32) - x) % 0x1_0000_0000 == 0;
    NegateMultiple(Pow2(32 - s) - x, 0x1_0000_0000);
  }

  /** The unsigned pattern of a negative `int` is v + 2^32, so dividing it
      by 2^s adds 2^(32 - s) to v / 2^s. */
  lemma UnsignedQuotientOfNegative(v: Int, s: nat)
    requires v < 0 && s < 32
    ensures (v % 0x1_0000_0000) / Pow2(s) == v / Pow2(s) + Pow2(32 - s)
  {
    Pow2Constants();
    Pow2Add(s, 32 - s);
    DivModUnique(v, 0x1_0000_0000, -1, v + 0x1_0000_0000);
    DivAddMultiple(v, Pow2(s), Pow2(32 - s));
  }

  /** For a non-negative v, `v >>> n` is `v >> n`. */
  lemma IntUshrOfNonNegative(v: Int, n: Int)
    requires v >= 0
    ensures IntUshr(v, n) == IntShr(v, n)
  {
    IntShrValue(v, n);
    DivModUnique(v, 0x1_0000_0000, 0, v);
    DivBounds(v, Pow2(n % 32));
  }

  /** For a negative v, `v >>> n` is `v >> n` plus 2^(32 - s), wrapped. */
  lemma IntUshrOfNegativeValue(v: Int, n: Int)
    requires v < 0
    ensures IntUshr(v, n) == NarrowToInt(IntShr(v, n) + Pow2(32 - n % 32))
  {
    IntShrValue(v, n);
    UnsignedQuotientOfNegative(v, n % 32);
  }

  /** For a negative v, `v >>> n` is `(v >> n) + (2 << ~n)`. */
  lemma IntUshrOfNegative(v: Int, n: Int)
    requires v < 0
    ensures IntUshr(v, n) == IntAdd(IntShr(v, n), IntShl(2, IntNot(n)))
  {
    IntUshrOfNegativeValue(v, n);
    ShlTwoByNot(n);
    NarrowToIntAddCongruent(IntShr(v, n), IntShl(2, IntNot(n)), Pow2(32 - n % 32));
  }

  /** The definition of `>>>` in JLS 15.19 by the other operators: for
      v >= 0 it is `v >> n`, for v < 0 it is `(v >> n) + (2 << ~n)`, with
      `int` wrap-around in the addition. */
  lemma IntUshrMatchesJls(v: Int, n: Int)
    ensures IntUshr(v, n) == if v >= 0 then IntShr(v, n) else IntAdd(IntShr(v, n), IntShl(2, IntNot(n)))
  {
    if v >= 0 {
      IntUshrOfNonNegative(v, n);
    } else {
      IntUshrOfNegative(v, n);
    }
  }
}
