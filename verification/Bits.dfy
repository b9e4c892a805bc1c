/** Binary digits of natural numbers: the bitwise operators of C on unsigned
    words, written over the integers, and the laws that let a word be reasoned
    about one bit at a time. */
module Bits {

  function Pow2(n: nat): (p: int)
    ensures p > 0
  {
    if n == 0 then 1 else 2 * Pow2(n - 1)
  }

  const TWO32: nat := 0x1_0000_0000

  /** An unsigned 32-bit word. */
  type uint32 = x: nat | x < 0x1_0000_0000

  /** Bit `i` of `x`, the least significant bit being bit 0. */
  predicate Bit(x: nat, i: nat) {
    if i == 0 then x % 2 == 1 else Bit(x / 2, i - 1)
  }

  /** C's `x & y`. */
  function And(x: nat, y: nat): nat {
    if x == 0 || y == 0 then 0
    else 2 * And(x / 2, y / 2) + (if x % 2 == 1 && y % 2 == 1 then 1 else 0)
  }

  /** C's `x | y`. */
  function Or(x: nat, y: nat): nat {
    if x == 0 then y else if y == 0 then x
    else 2 * Or(x / 2, y / 2) + (if x % 2 == 1 || y % 2 == 1 then 1 else 0)
  }

  /** C's `x ^ y`. */
  function Xor(x: nat, y: nat): nat {
    if x == 0 then y else if y == 0 then x
    else 2 * Xor(x / 2, y / 2) + (if x % 2 != y % 2 then 1 else 0)
  }

  /** C's `~x` on a 32-bit word. */
  function Not32(x: uint32): uint32 {
    0xFFFF_FFFF - x
  }

  /** C's `x << n` on a 32-bit word: the bits above bit 31 are lost. */
  function Shl32(x: nat, n: nat): uint32 {
    (x * Pow2(n)) % TWO32
  }

  /** C's `x >> n` on an unsigned word. */
  function Shr(x: nat, n: nat): nat {
    DivBound(x, Pow2(n));
    x / Pow2(n)
  }

  // ----- powers of two -----

  lemma Pow2Values()
    ensures Pow2(1) == 2 && Pow2(2) == 4 && Pow2(3) == 8 && Pow2(8) == 0x100
    ensures Pow2(14) == 0x4000 && Pow2(15) == 0x8000 && Pow2(16) == 0x1_0000 && Pow2(17) == 0x2_0000
    ensures Pow2(31) == 0x8000_0000 && Pow2(32) == TWO32
  {
    assert Pow2(8) == 0x100;
    assert Pow2(16) == 0x1_0000;
    assert Pow2(24) == 0x100_0000;
    assert Pow2(31) == 0x8000_0000;
  }

  lemma {:induction false} Pow2Add(m: nat, n: nat)
    ensures Pow2(m + n) == Pow2(m) * Pow2(n)
  {
    if m != 0 {
      Pow2Add(m - 1, n);
      MulAssoc(2, Pow2(m - 1), Pow2(n));
    }
  }

  lemma {:induction false} Pow2Monotone(m: nat, n: nat)
    requires m <= n
    ensures Pow2(m) <= Pow2(n)
    decreases n
  {
    if m < n {
      Pow2Monotone(m, n - 1);
    }
  }

  lemma MulAssoc(x: int, y: int, z: int)
    ensures (x * y) * z == x * (y * z)
  {
  }

  lemma Distribute(x: int, y: int, z: int)
    ensures (x + y) * z == x * z + y * z
    ensures (x - y) * z == x * z - y * z
    ensures z * (x + y) == z * x + z * y
    ensures z * (x - y) == z * x - z * y
  {
  }

  lemma SquareNonNegative(x: int)
    ensures 0 <= x * x
  {
  }

  lemma ProductSquare(x: int, y: int)
    ensures (x * y) * (x * y) == (x * x) * (y * y)
  {
  }

  lemma SwapFactors(x: int, y: int, z: int)
    ensures (x * y) * z == (x * z) * y
  {
  }

  // ----- Euclidean division -----

  /** Quotient and remainder are determined by `x == q * d + r`. */
  lemma DivModUnique(x: int, d: int, q: int, r: int)
    requires 0 <= r < d
    requires x == q * d + r
    ensures x / d == q && x % d == r
  {
    var q', r' := x / d, x % d;
    assert x == q' * d + r';
    assert (q - q') * d == r' - r;
    if q - q' >= 1 {
      MulMonotone(1, q - q', d);
    } else if q - q' <= -1 {
      MulMonotone(q - q', -1, d);
    }
  }

  lemma EuclidDivision(x: int, d: int)
    requires 0 < d
    ensures x == d * (x / d) + x % d && 0 <= x % d < d
  {
  }

  lemma MulMonotone(x: int, y: int, d: int)
    requires x <= y && 0 <= d
    ensures x * d <= y * d
  {
    assert (y - x) * d >= 0;
  }

  lemma DivBound(x: nat, d: nat)
    requires d > 0
    ensures 0 <= x / d <= x
  {
    var q := x / d;
    assert x == q * d + x % d;
    if q < 0 {
      MulMonotone(q, -1, d);
    } else {
      MulMonotone(1, d, q);
      assert d * q == q * d;
    }
  }

  lemma DivDiv(x: nat, a: nat, b: nat)
    requires a > 0 && b > 0
    ensures a * b > 0
    ensures x / a / b == x / (a * b)
  {
    assert a * b > 0;
    var q := x / a;
    var r := x % a;
    var q2 := q / b;
    var r2 := q % b;
    assert x == (q2 * b + r2) * a + r;
    assert (q2 * b + r2) * a == q2 * (a * b) + r2 * a;
    MulMonotone(r2, b - 1, a);
    assert (b - 1) * a == a * b - a;
    MulMonotone(0, r2, a);
    DivModUnique(x, a * b, q2, r2 * a + r);
  }

  // ----- one bit at a time -----

  /** Two numbers below 2^n with the same n bits are equal. */
  lemma {:induction false} BitExtensional(x: nat, y: nat, n: nat)
    requires x < Pow2(n) && y < Pow2(n)
    requires forall i: nat :: i < n ==> Bit(x, i) == Bit(y, i)
    ensures x == y
  {
    if n != 0 {
      assert Bit(x, 0) == Bit(y, 0);
      forall i: nat | i < n - 1
        ensures Bit(x / 2, i) == Bit(y / 2, i)
      {
        assert Bit(x, i + 1) == Bit(y, i + 1);
      }
      BitExtensional(x / 2, y / 2, n - 1);
    }
  }

  lemma {:induction false} BitZero(i: nat)
    ensures !Bit(0, i)
  {
    if i != 0 {
      BitZero(i - 1);
    }
  }

  lemma {:induction false} BitHigh(x: nat, n: nat, i: nat)
    requires x < Pow2(n) && n <= i
    ensures !Bit(x, i)
  {
    if n == 0 {
      BitZero(i);
    } else {
      BitHigh(x / 2, n - 1, i - 1);
    }
  }

  lemma {:induction false} BitAnd(x: nat, y: nat, i: nat)
    ensures Bit(And(x, y), i) == (Bit(x, i) && Bit(y, i))
  {
    BitZero(i);
    if x != 0 && y != 0 && i != 0 {
      BitAnd(x / 2, y / 2, i - 1);
    }
  }

  lemma {:induction false} BitOr(x: nat, y: nat, i: nat)
    ensures Bit(Or(x, y), i) == (Bit(x, i) || Bit(y, i))
  {
    BitZero(i);
    if x != 0 && y != 0 && i != 0 {
      BitOr(x / 2, y / 2, i - 1);
    }
  }

  lemma {:induction false} BitXor(x: nat, y: nat, i: nat)
    ensures Bit(Xor(x, y), i) == (Bit(x, i) != Bit(y, i))
  {
    BitZero(i);
    if x != 0 && y != 0 && i != 0 {
      BitXor(x / 2, y / 2, i - 1);
    }
  }

  lemma {:induction false} BitShr(x: nat, n: nat, i: nat)
    ensures Bit(Shr(x, n), i) == Bit(x, i + n)
    decreases n
  {
    if n != 0 {
      DivDiv(x, 2, Pow2(n - 1));
      BitShr(x / 2, n - 1, i);
    }
  }

  lemma {:induction false} BitMul(x: nat, n: nat, i: nat)
    ensures Bit(x * Pow2(n), i) == (n <= i && Bit(x, i - n))
  {
    if n != 0 {
      var y := x * Pow2(n - 1);
      assert x * Pow2(n) == 2 * y;
      if i != 0 {
        BitMul(x, n - 1, i - 1);
      }
    }
  }

  /** Reduction modulo 2^n keeps exactly the n low bits. */
  lemma {:induction false} BitMod(x: nat, n: nat, i: nat)
    ensures Bit(x % Pow2(n), i) == (i < n && Bit(x, i))
  {
    if n == 0 {
      BitZero(i);
    } else {
      var m := Pow2(n - 1);
      ModHalf(x, m);
      if i != 0 {
        BitMod(x / 2, n - 1, i - 1);
      }
    }
  }

  lemma ModHalf(x: nat, m: nat)
    requires m > 0
    ensures x % (2 * m) / 2 == (x / 2) % m && x % (2 * m) % 2 == x % 2
  {
    var q, r := x / 2 / m, x / 2 % m;
    assert x / 2 == q * m + r;
    assert x == q * (2 * m) + (2 * r + x % 2);
    DivModUnique(x, 2 * m, q, 2 * r + x % 2);
  }

  lemma BitShl32(x: nat, n: nat, i: nat)
    ensures Bit(Shl32(x, n), i) == (n <= i < 32 && Bit(x, i - n))
  {
    hide Bit, Pow2;
    Pow2Values();
    BitMod(x * Pow2(n), 32, i);
    BitMul(x, n, i);
  }

  lemma {:induction false} BitComplement(x: nat, n: nat, i: nat)
    requires x < Pow2(n) && i < n
    ensures Bit(Pow2(n) - 1 - x, i) == !Bit(x, i)
  {
    if i != 0 {
      var m := Pow2(n - 1);
      assert (2 * m - 1 - x) / 2 == m - 1 - x / 2;
      BitComplement(x / 2, n - 1, i - 1);
    }
  }

  lemma BitNot32(x: uint32, i: nat)
    requires i < 32
    ensures Bit(Not32(x), i) == !Bit(x, i)
  {
    Pow2Values();
    BitComplement(x, 32, i);
  }

  /** The mask 2^n - 1 has exactly the bits below n. */
  lemma BitMask(n: nat, i: nat)
    ensures Bit(Pow2(n) - 1, i) == (i < n)
  {
    if i < n {
      BitComplement(0, n, i);
      BitZero(i);
    } else {
      BitHigh(Pow2(n) - 1, n, i);
    }
  }

  // ----- bounds and masks -----

  lemma {:induction false} AndBound(x: nat, y: nat)
    ensures And(x, y) <= x && And(x, y) <= y
  {
    if x != 0 && y != 0 {
      AndBound(x / 2, y / 2);
    }
  }

  lemma {:induction false} OrBound(x: nat, y: nat, n: nat)
    requires x < Pow2(n) && y < Pow2(n)
    ensures Or(x, y) < Pow2(n)
  {
    if x != 0 && y != 0 {
      OrBound(x / 2, y / 2, n - 1);
    }
  }

  /** Masking with 2^n - 1 is reduction modulo 2^n. */
  lemma AndMask(x: nat, n: nat)
    ensures And(x, Pow2(n) - 1) == x % Pow2(n)
  {
    AndBound(x, Pow2(n) - 1);
    forall i: nat | i < n
      ensures Bit(And(x, Pow2(n) - 1), i) == Bit(x % Pow2(n), i)
    {
      BitAnd(x, Pow2(n) - 1, i);
      BitMask(n, i);
      BitMod(x, n, i);
    }
    BitExtensional(And(x, Pow2(n) - 1), x % Pow2(n), n);
  }

  /** A field written above n low bits does not meet them: `|` is then `+`. */
  lemma {:induction false} OrDisjoint(h: nat, l: nat, n: nat)
    requires l < Pow2(n)
    ensures Or(h * Pow2(n), l) == h * Pow2(n) + l
  {
    if n != 0 && h * Pow2(n) != 0 && l != 0 {
      var y := h * Pow2(n - 1);
      assert h * Pow2(n) == 2 * y;
      OrDisjoint(h, l / 2, n - 1);
    }
  }

  /** XOR with all ones is the complement. */
  lemma XorOnes(x: nat, n: nat)
    requires x < Pow2(n)
    ensures Xor(x, Pow2(n) - 1) == Pow2(n) - 1 - x
  {
    if n != 0 {
      if x == 0 {
      } else {
        var m := Pow2(n - 1);
        assert (2 * m - 1) / 2 == m - 1;
        XorOnes(x / 2, n - 1);
      }
    }
  }
}
