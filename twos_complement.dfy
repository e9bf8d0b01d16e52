/** Two's-complement arithmetic on unbounded integers: powers of two, the
    bits of an integer, narrowing to a fixed width, and bitwise AND and OR.
    An integer is read as an infinite two's-complement bit string: a
    non-negative value has only finitely many ones, a negative value only
    finitely many zeros. */
module TwosComplement {

  /** 2 to the power k. */
  function Pow2(k: nat): (p: int)
    ensures p >= 1
  {
    if k == 0 then 1 else 2 * Pow2(k - 1)
  }

  lemma {:induction false} Pow2Add(a: nat, b: nat)
    ensures Pow2(a + b) == Pow2(a) * Pow2(b)
  {
    if b > 0 {
      Pow2Add(a, b - 1);
      assert Pow2(a + b) == 2 * Pow2(a + b - 1);
    }
  }

  lemma Pow2Monotone(a: nat, b: nat)
    requires a <= b
    ensures Pow2(a) <= Pow2(b)
  {
    Pow2Add(a, b - a);
    MulAtLeast(Pow2(a), Pow2(b - a));
  }

  /** Division with remainder has exactly one solution. */
  lemma DivModUnique(a: int, d: int, q: int, r: int)
    requires d > 0 && 0 <= r < d && a == d * q + r
    ensures a / d == q && a % d == r
  {
    var q0 := a / d;
    assert d * (q - q0) == a % d - r;
    if q > q0 {
      MulAtLeast(d, q - q0);
    } else if q < q0 {
      MulAtLeast(d, q0 - q);
    }
  }

  lemma MulAtLeast(d: int, k: int)
    requires d > 0 && k >= 1
    ensures d * k >= d
  {
  }

  lemma MulDistributes(a: int, b: int, c: int)
    ensures a * (b + c) == a * b + a * c
  {
  }

  lemma MulAssociates(a: int, b: int, c: int)
    ensures a * (b * c) == (a * b) * c
  {
  }

  lemma MulMonotone(a: int, b: int, c: int)
    requires a >= 0 && b <= c
    ensures a * b <= a * c
  {
    MulDistributes(a, b, c - b);
  }

  /** Division rounds down: v / p is the q with q * p <= v < (q + 1) * p. */
  lemma FloorDivision(v: int, p: int)
    requires p >= 1
    ensures (v / p) * p <= v < (v / p + 1) * p
  {
    MulDistributes(p, v / p, 1);
  }

  lemma DivDiv(a: int, b: int, c: int)
    requires b > 0 && c > 0
    ensures a / b / c == a / (b * c)
  {
    var q, r := a / b, a % b;
    var q2, r2 := q / c, q % c;
    assert a == (b * c) * q2 + (b * r2 + r) by {
      MulDistributes(b, c * q2, r2);
      MulAssociates(b, c, q2);
    }
    assert b * r2 + r < b * c by {
      MulMonotone(b, r2, c - 1);
      MulDistributes(b, c, -1);
    }
    DivModUnique(a, b * c, q2, b * r2 + r);
  }


  lemma MulGrows(p: int, k: int)
    requires p >= 1 && k >= 0
    ensures p * k >= k
  {
  }

  /** Dividing by p >= 1 moves a value towards zero, rounding down, and
      never across zero. */
  lemma DivBounds(v: int, p: int)
    requires p >= 1
    ensures v >= 0 ==> 0 <= v / p <= v
    ensures v < 0 ==> v <= v / p < 0
  {
    var q := v / p;
    if q < 0 {
      MulAtLeast(p, -q);
      if q + 1 < 0 {
        MulGrows(p, -(q + 1));
      }
    } else {
      MulGrows(p, q);
    }
  }

  lemma NegateMultiple(a: int, d: int)
    requires d > 0 && a % d == 0
    ensures (-a) % d == 0
  {
    DivModUnique(a, d, a / d, 0);
    DivModUnique(-a, d, -(a / d), 0);
  }

  /** Adding a multiple of the divisor shifts the quotient by that multiple. */
  lemma DivAddMultiple(a: int, d: int, k: int)
    requires d > 0
    ensures (a + d * k) / d == a / d + k && (a + d * k) % d == a % d
  {
    DivModUnique(a + d * k, d, a / d + k, a % d);
  }

  /** The remainder modulo 2 * p, split into its low bit and the rest. */
  lemma ModDouble(v: int, p: int)
    requires p > 0
    ensures v % (2 * p) == 2 * ((v / 2) % p) + v % 2
  {
    var q, b := v / 2, v % 2;
    var q2, r2 := q / p, q % p;
    assert v == (2 * p) * q2 + (2 * r2 + b);
    DivModUnique(v, 2 * p, q2, 2 * r2 + b);
  }

  /** Two integers congruent modulo d have the same remainder. */
  lemma CongruentSameMod(a: int, b: int, d: int)
    requires d > 0 && (a - b) % d == 0
    ensures a % d == b % d
  {
    DivModUnique(a - b, d, (a - b) / d, 0);
    DivAddMultiple(b, d, (a - b) / d);
  }

  /** A multiple of d that lies strictly between -d and d is zero. */
  lemma SmallMultipleIsZero(a: int, d: int)
    requires d > 0 && -d < a < d && a % d == 0
    ensures a == 0
  {
    var q := a / d;
    if q >= 1 {
      MulAtLeast(d, q);
    } else if q <= -1 {
      MulAtLeast(d, -q);
    }
  }

  /** Bit i of the two's-complement representation of v (bit 0 is the
      least significant); division rounds down, so a negative v has ones above
      its most significant zero. */
  predicate Bit(v: int, i: nat)
    decreases i
  {
    if i == 0 then v % 2 == 1 else Bit(v / 2, i - 1)
  }

  lemma {:induction false} BitOfZero(i: nat)
    ensures !Bit(0, i)
  {
    if i > 0 {
      BitOfZero(i - 1);
    }
  }

  lemma {:induction false} BitOfMinusOne(i: nat)
    ensures Bit(-1, i)
  {
    if i > 0 {
      BitOfMinusOne(i - 1);
    }
  }

  /** Dividing by 2^s moves bit i + s down to position i. */
  lemma {:induction false} BitOfDivPow2(v: int, s: nat, i: nat)
    ensures Bit(v / Pow2(s), i) == Bit(v, i + s)
    decreases s
  {
    if s > 0 {
      DivDiv(v, 2, Pow2(s - 1));
      BitOfDivPow2(v / 2, s - 1, i);
    }
  }

  /** Multiplying by 2^s moves bit i up to position i + s and clears the bits below s. */
  lemma {:induction false} BitOfMulPow2(v: int, s: nat, i: nat)
    ensures Bit(v * Pow2(s), i) == (s <= i && Bit(v, i - s))
  {
    if s > 0 {
      var w := v * Pow2(s - 1);
      assert v * Pow2(s) == 2 * w;
      assert (2 * w) % 2 == 0 && (2 * w) / 2 == w;
      if i > 0 {
        BitOfMulPow2(v, s - 1, i - 1);
      }
    }
  }

  /** A value that fits in k + 1 signed bits repeats its sign in every bit from k up. */
  lemma {:induction false} BitAboveWidth(v: int, k: nat, i: nat)
    requires -Pow2(k) <= v < Pow2(k) && k <= i
    ensures Bit(v, i) == (v < 0)
    decreases k
  {
    if k == 0 {
      if v == 0 {
        BitOfZero(i);
      } else {
        BitOfMinusOne(i);
      }
    } else {
      BitAboveWidth(v / 2, k - 1, i - 1);
    }
  }

  /** The remainder modulo 2^k keeps bits 0 .. k - 1 and clears the rest. */
  lemma {:induction false} BitOfMod(v: int, k: nat, i: nat)
    ensures Bit(v % Pow2(k), i) == (i < k && Bit(v, i))
    decreases k
  {
    if k <= i {
      BitAboveWidth(v % Pow2(k), k, i);
    } else {
      ModDouble(v, Pow2(k - 1));
      var rest := (v / 2) % Pow2(k - 1);
      assert v % Pow2(k) == 2 * rest + v % 2;
      if i > 0 {
        assert (v % Pow2(k)) / 2 == rest;
        BitOfMod(v / 2, k - 1, i - 1);
      }
    }
  }

  /** Values congruent modulo 2^k agree on bits 0 .. k - 1. */
  lemma BitOfCongruent(a: int, b: int, k: nat, i: nat)
    requires (a - b) % Pow2(k) == 0 && i < k
    ensures Bit(a, i) == Bit(b, i)
  {
    CongruentSameMod(a, b, Pow2(k));
    BitOfMod(a, k, i);
    BitOfMod(b, k, i);
  }

  /** Two values of k + 1 signed bits with the same bits 0 .. k are equal. */
  lemma {:induction false} BitsDetermine(a: int, b: int, k: nat)
    requires -Pow2(k) <= a < Pow2(k) && -Pow2(k) <= b < Pow2(k)
    requires forall i: nat :: i <= k ==> Bit(a, i) == Bit(b, i)
    ensures a == b
    decreases k
  {
    assert Bit(a, 0) == Bit(b, 0);
    if k > 0 {
      forall i: nat | i <= k - 1
        ensures Bit(a / 2, i) == Bit(b / 2, i)
      {
        assert Bit(a, i + 1) == Bit(b, i + 1);
      }
      BitsDetermine(a / 2, b / 2, k - 1);
    }
  }

  /** Narrowing to k bits (JLS 5.1.3): keep the low k bits and read them back
      as a signed k-bit number. The result is the one value in the signed
      k-bit range that is congruent to v modulo 2^k. */
  function Narrow(v: int, k: nat): (r: int)
    requires k >= 1
    ensures -Pow2(k - 1) <= r < Pow2(k - 1)
    ensures (v - r) % Pow2(k) == 0
  {
    var m := v % Pow2(k);
    DivModUnique(v - m, Pow2(k), v / Pow2(k), 0);
    DivModUnique(v - (m - Pow2(k)), Pow2(k), v / Pow2(k) + 1, 0);
    if m < Pow2(k - 1) then m else m - Pow2(k)
  }

  /** Narrowing depends on v only modulo 2^k. */
  lemma NarrowCongruent(a: int, b: int, k: nat)
    requires k >= 1 && (a - b) % Pow2(k) == 0
    ensures Narrow(a, k) == Narrow(b, k)
  {
    CongruentSameMod(a, b, Pow2(k));
  }

  /** A value already in the signed k-bit range is left unchanged. */
  lemma NarrowInRange(v: int, k: nat)
    requires k >= 1
    ensures -Pow2(k - 1) <= v < Pow2(k - 1) ==> Narrow(v, k) == v
  {
    if -Pow2(k - 1) <= v < Pow2(k - 1) {
      var r := Narrow(v, k);
      SmallMultipleIsZero(v - r, Pow2(k));
    }
  }

  /** Narrowing to j bits after narrowing to k >= j bits is narrowing to j bits. */
  lemma NarrowNarrow(v: int, j: nat, k: nat)
    requires 1 <= j <= k
    ensures Narrow(Narrow(v, k), j) == Narrow(v, j)
  {
    var r := Narrow(v, k);
    Pow2Add(j, k - j);
    var q := (v - r) / Pow2(k);
    DivModUnique(v - r, Pow2(k), q, 0);
    assert v - r == Pow2(j) * (Pow2(k - j) * q);
    DivModUnique(v - r, Pow2(j), Pow2(k - j) * q, 0);
    NarrowCongruent(v, r, j);
  }

  /** Narrowing keeps bits 0 .. k - 1 and copies bit k - 1, the new sign
      bit, into every bit above. */
  lemma BitOfNarrow(v: int, k: nat, i: nat)
    requires k >= 1
    ensures Bit(Narrow(v, k), i) == Bit(v, if i < k then i else k - 1)
  {
    var r := Narrow(v, k);
    assert (r - v) % Pow2(k) == 0 by {
      DivModUnique(v - r, Pow2(k), (v - r) / Pow2(k), 0);
      DivModUnique(r - v, Pow2(k), -((v - r) / Pow2(k)), 0);
    }
    if i < k {
      BitOfCongruent(r, v, k, i);
    } else {
      Pow2Monotone(k - 1, k - 1);
      BitAboveWidth(r, k - 1, i);
      BitAboveWidth(r, k - 1, k - 1);
      BitOfCongruent(r, v, k, k - 1);
    }
  }

  /** Size of v as a two's-complement number: 0 exactly for 0 and -1, the
      two values whose bits are all equal. Halving does not increase it. */
  function Magnitude(v: int): (m: nat)
    ensures m == 0 <==> v == 0 || v == -1
  {
    if v >= 0 then v else -v - 1
  }

  /** Bitwise AND of two's-complement integers (JLS 15.22.1), bit 0 first. */
  function BitAnd(a: int, b: int): int
    decreases Magnitude(a) + Magnitude(b)
  {
    if Magnitude(a) == 0 && Magnitude(b) == 0 then
      (if a == -1 && b == -1 then -1 else 0)
    else
      2 * BitAnd(a / 2, b / 2) + (if a % 2 == 1 && b % 2 == 1 then 1 else 0)
  }

  /** Bitwise inclusive OR of two's-complement integers (JLS 15.22.1). */
  function BitOr(a: int, b: int): int
    decreases Magnitude(a) + Magnitude(b)
  {
    if Magnitude(a) == 0 && Magnitude(b) == 0 then
      (if a == -1 || b == -1 then -1 else 0)
    else
      2 * BitOr(a / 2, b / 2) + (if a % 2 == 1 || b % 2 == 1 then 1 else 0)
  }

  /** Every bit of a & b is the AND of the two operands' bits. */
  lemma {:induction false} BitOfAnd(a: int, b: int, i: nat)
    ensures Bit(BitAnd(a, b), i) == (Bit(a, i) && Bit(b, i))
    decreases Magnitude(a) + Magnitude(b)
  {
    if Magnitude(a) == 0 && Magnitude(b) == 0 {
      BitOfZero(i);
      BitOfMinusOne(i);
    } else if i > 0 {
      var q := BitAnd(a / 2, b / 2);
      assert BitAnd(a, b) / 2 == q;
      BitOfAnd(a / 2, b / 2, i - 1);
    }
  }

  /** Every bit of a | b is the OR of the two operands' bits. */
  lemma {:induction false} BitOfOr(a: int, b: int, i: nat)
    ensures Bit(BitOr(a, b), i) == (Bit(a, i) || Bit(b, i))
    decreases Magnitude(a) + Magnitude(b)
  {
    if Magnitude(a) == 0 && Magnitude(b) == 0 {
      BitOfZero(i);
      BitOfMinusOne(i);
    } else if i > 0 {
      var q := BitOr(a / 2, b / 2);
      assert BitOr(a, b) / 2 == q;
      BitOfOr(a / 2, b / 2, i - 1);
    }
  }

  /** AND of two values of k + 1 signed bits fits in k + 1 signed bits. */
  lemma {:induction false} BitAndInRange(a: int, b: int, k: nat)
    requires -Pow2(k) <= a < Pow2(k) && -Pow2(k) <= b < Pow2(k)
    ensures -Pow2(k) <= BitAnd(a, b) < Pow2(k)
    decreases Magnitude(a) + Magnitude(b)
  {
    if Magnitude(a) != 0 || Magnitude(b) != 0 {
      BitAndInRange(a / 2, b / 2, k - 1);
    }
  }

  /** OR of two values of k + 1 signed bits fits in k + 1 signed bits. */
  lemma {:induction false} BitOrInRange(a: int, b: int, k: nat)
    requires -Pow2(k) <= a < Pow2(k) && -Pow2(k) <= b < Pow2(k)
    ensures -Pow2(k) <= BitOr(a, b) < Pow2(k)
    decreases Magnitude(a) + Magnitude(b)
  {
    if Magnitude(a) != 0 || Magnitude(b) != 0 {
      BitOrInRange(a / 2, b / 2, k - 1);
    }
  }

  /** AND with 2^k - 1, a mask of k ones, is the remainder modulo 2^k. */
  lemma {:induction false} BitAndLowMask(v: int, k: nat)
    ensures BitAnd(v, Pow2(k) - 1) == v % Pow2(k)
    decreases Magnitude(v) + k
  {
    if k == 0 {
      BitAndZero(v);
    } else if Magnitude(v) == 0 && k == 1 {
    } else {
      assert (Pow2(k) - 1) / 2 == Pow2(k - 1) - 1;
      assert (Pow2(k) - 1) % 2 == 1;
      BitAndLowMask(v / 2, k - 1);
      ModDouble(v, Pow2(k - 1));
    }
  }

  lemma {:induction false} BitAndCommutes(a: int, b: int)
    ensures BitAnd(a, b) == BitAnd(b, a)
    decreases Magnitude(a) + Magnitude(b)
  {
    if Magnitude(a) != 0 || Magnitude(b) != 0 {
      BitAndCommutes(a / 2, b / 2);
    }
  }

  lemma {:induction false} BitOrCommutes(a: int, b: int)
    ensures BitOr(a, b) == BitOr(b, a)
    decreases Magnitude(a) + Magnitude(b)
  {
    if Magnitude(a) != 0 || Magnitude(b) != 0 {
      BitOrCommutes(a / 2, b / 2);
    }
  }

  lemma {:induction false} BitAndIdempotent(a: int)
    ensures BitAnd(a, a) == a
    decreases Magnitude(a)
  {
    if Magnitude(a) != 0 {
      BitAndIdempotent(a / 2);
    }
  }

  lemma {:induction false} BitOrIdempotent(a: int)
    ensures BitOr(a, a) == a
    decreases Magnitude(a)
  {
    if Magnitude(a) != 0 {
      BitOrIdempotent(a / 2);
    }
  }

  lemma {:induction false} BitAndZero(a: int)
    ensures BitAnd(a, 0) == 0
    decreases Magnitude(a)
  {
    if Magnitude(a) != 0 {
      BitAndZero(a / 2);
    }
  }

  lemma {:induction false} BitAndMinusOne(a: int)
    ensures BitAnd(a, -1) == a
    decreases Magnitude(a)
  {
    if Magnitude(a) != 0 {
      BitAndMinusOne(a / 2);
    }
  }

  lemma {:induction false} BitOrZero(a: int)
    ensures BitOr(a, 0) == a
    decreases Magnitude(a)
  {
    if Magnitude(a) != 0 {
      BitOrZero(a / 2);
    }
  }

  lemma {:induction false} BitOrMinusOne(a: int)
    ensures BitOr(a, -1) == -1
    decreases Magnitude(a)
  {
    if Magnitude(a) != 0 {
      BitOrMinusOne(a / 2);
    }
  }
}
