/** The Q7, Q15, Q31 and Q63 number types of the DSP library, C's conversions
    between them, and the saturators every kernel ends in. `>>` on a signed
    value is an arithmetic shift, which is division rounding down. */
module FixedPoint {
  import opened Bits

  type q7 = x: int | -0x80 <= x < 0x80
  type q15 = x: int | -0x8000 <= x < 0x8000
  type q31 = x: int | -0x8000_0000 <= x < 0x8000_0000
  type q63 = x: int | -0x8000_0000_0000_0000 <= x < 0x8000_0000_0000_0000

  // ----- conversions -----

  // A narrowing conversion adds or subtracts the range of the type until the value
  // fits; WrapModulo gives the closed form.

  /** `(int8_t) x` */
  function Wrap8(x: int): (r: q7)
    ensures -0x80 <= x < 0x80 ==> r == x
  {
    Wrap(x, 0x80)
  }

  /** `(int16_t) x` */
  function Wrap16(x: int): (r: q15)
    ensures -0x8000 <= x < 0x8000 ==> r == x
  {
    Wrap(x, 0x8000)
  }

  /** `(int32_t) x` */
  function Wrap32(x: int): (r: q31)
    ensures -0x8000_0000 <= x < 0x8000_0000 ==> r == x
  {
    Wrap(x, 0x8000_0000)
  }

  /** `(int64_t) x` */
  function Wrap64(x: int): (r: q63)
    ensures -0x8000_0000_0000_0000 <= x < 0x8000_0000_0000_0000 ==> r == x
  {
    Wrap(x, 0x8000_0000_0000_0000)
  }

  /** Wrap-around into [-half, half). */
  function Wrap(x: int, half: int): (r: int)
    requires half > 0
    ensures -half <= r < half
    decreases if x < 0 then -2 * x else 2 * x + 1
  {
    if x < -half then Wrap(x + 2 * half, half)
    else if x >= half then Wrap(x - 2 * half, half)
    else x
  }

  lemma {:induction false} WrapAt(x: int, half: int, k: int)
    requires half > 0 && -half <= x - k * (2 * half) < half
    ensures Wrap(x, half) == x - k * (2 * half)
    decreases Abs(k)
  {
    if k > 0 {
      MulMonotone(1, k, 2 * half);
      Distribute(k, 1, 2 * half);
      WrapAt(x - 2 * half, half, k - 1);
    } else if k < 0 {
      MulMonotone(k, -1, 2 * half);
      Distribute(k, 1, 2 * half);
      WrapAt(x + 2 * half, half, k + 1);
    }
  }

  /** The closed form of the conversions. */
  lemma WrapModulo(x: int)
    ensures Wrap8(x) == (x + 0x80) % 0x100 - 0x80
    ensures Wrap16(x) == (x + 0x8000) % 0x1_0000 - 0x8000
    ensures Wrap32(x) == (x + 0x8000_0000) % 0x1_0000_0000 - 0x8000_0000
  {
    hide Wrap8, Wrap16, Wrap32;
    Wrap8Modulo(x);
    Wrap16Modulo(x);
    Wrap32Modulo(x);
  }

  lemma Wrap8Modulo(x: int)
    ensures Wrap8(x) == (x + 0x80) % 0x100 - 0x80
  {
    WrapAt(x, 0x80, (x + 0x80) / 0x100);
  }

  lemma Wrap16Modulo(x: int)
    ensures Wrap16(x) == (x + 0x8000) % 0x1_0000 - 0x8000
  {
    WrapAt(x, 0x8000, (x + 0x8000) / 0x1_0000);
  }

  lemma Wrap32Modulo(x: int)
    ensures Wrap32(x) == (x + 0x8000_0000) % 0x1_0000_0000 - 0x8000_0000
  {
    WrapAt(x, 0x8000_0000, (x + 0x8000_0000) / 0x1_0000_0000);
  }

  lemma Wrap64Modulo(x: int)
    ensures Wrap64(x) == (x + 0x8000_0000_0000_0000) % 0x1_0000_0000_0000_0000 - 0x8000_0000_0000_0000
  {
    WrapAt(x, 0x8000_0000_0000_0000, (x + 0x8000_0000_0000_0000) / 0x1_0000_0000_0000_0000);
  }

  /** `(uint32_t) x` */
  function Unsigned32(x: int): uint32 {
    x % 0x1_0000_0000
  }

  /** `x ^ y` on int32_t operands. */
  function XorSigned32(x: q31, y: q31): q31 {
    Wrap32(Xor(Unsigned32(x), Unsigned32(y)))
  }

  // ----- saturation -----

  /** The point of [lo, hi] nearest to x. */
  function Clamp(x: int, lo: int, hi: int): int {
    if x < lo then lo else if hi < x then hi else x
  }

  function Clamp31(x: int): q31 {
    Clamp(x, -0x8000_0000, 0x7FFF_FFFF)
  }

  function Clamp15(x: int): q15 {
    Clamp(x, -0x8000, 0x7FFF)
  }

  function Abs(x: int): nat {
    if x < 0 then -x else x
  }

  /** Clamping moves no further from a point of the range than x was. */
  lemma ClampContracts(x: int, v: int, lo: int, hi: int)
    requires lo <= v <= hi
    ensures Abs(Clamp(x, lo, hi) - v) <= Abs(x - v)
  {
  }

  // ----- the clip functions -----

  /** XOR with the all-zero and all-one sign words leaves a value or complements
      it, which is how the clip functions form both saturation values. */
  lemma XorSign(c: q31)
    requires 0 <= c
    ensures XorSigned32(c, 0) == c
    ensures XorSigned32(c, -1) == -1 - c
  {
    Pow2Values();
    XorOnes(c, 32);
    assert Xor(c, 0) == c;
    WrapNegative(c);
    hide Wrap32, Xor;
    assert Unsigned32(-1) == 0xFFFF_FFFF && Unsigned32(0) == 0 && Unsigned32(c) == c;
  }

  lemma WrapNegative(c: int)
    requires 0 <= c < 0x8000_0000
    ensures Wrap32(0xFFFF_FFFF - c) == -1 - c
  {
    WrapAt(0xFFFF_FFFF - c, 0x8000_0000, 1);
  }

  /** Splitting x at a bit: the signed high part together with the low part. */
  lemma WrapSplit(x: int)
    ensures Wrap32(x) / 0x8000_0000 == if x % 0x1_0000_0000 < 0x8000_0000 then 0 else -1
  {
    var h, l := x / 0x1_0000_0000, x % 0x1_0000_0000;
    WrapAt(x, 0x8000_0000, if l < 0x8000_0000 then h else h + 1);
  }

  function ClipQ63ToQ31(x: q63): q31 {
    if Wrap32(x / 0x1_0000_0000) != Wrap32(x) / 0x8000_0000
    then XorSigned32(0x7FFF_FFFF, Wrap32(x / 0x8000_0000_0000_0000))
    else Wrap32(x)
  }

  function ClipQ31ToQ15(x: q31): q15 {
    if x / 0x1_0000 != x / 0x8000
    then Wrap16(XorSigned32(0x7FFF, Wrap16(x / 0x8000_0000)))
    else Wrap16(x)
  }

  function ClipQ31ToQ7(x: q31): q7 {
    if x / 0x100_0000 != x / 0x80_0000
    then Wrap8(XorSigned32(0x7F, Wrap8(x / 0x8000_0000)))
    else Wrap8(x)
  }

  function ClipQ63ToQ15(x: q63): q15 {
    if Wrap32(x / 0x1_0000_0000) != Wrap32(x) / 0x8000_0000
    then Wrap16(XorSigned32(0x7FFF, Wrap16(x / 0x8000_0000_0000_0000)))
    else Wrap16(x / 0x8000)
  }

  /** The high-half test of the 64-bit clips recognises the q31 range. */
  lemma HighHalfTest(x: q63)
    ensures Wrap32(x / 0x1_0000_0000) == Wrap32(x) / 0x8000_0000
       <==> -0x8000_0000 <= x < 0x8000_0000
    ensures Wrap32(x / 0x8000_0000_0000_0000) == Wrap16(x / 0x8000_0000_0000_0000)
         == if x < 0 then -1 else 0
  {
    WrapSplit(x);
    var h := x / 0x1_0000_0000;
    assert x == h * 0x1_0000_0000 + x % 0x1_0000_0000;
    assert -0x8000_0000 <= h < 0x8000_0000;
  }

  lemma ClipQ63ToQ31IsClamp(x: q63)
    ensures ClipQ63ToQ31(x) == Clamp31(x)
  {
    XorSign(0x7FFF_FFFF);
    HighHalfTest(x);
  }

  /** The saturation branch of the narrow clips, for a saturation constant c. */
  lemma SaturationWord(c: q31, x: q31)
    requires 0 <= c < 0x8000
    ensures x / 0x8000_0000 == Wrap16(x / 0x8000_0000) == Wrap8(x / 0x8000_0000)
         == if x < 0 then -1 else 0
    ensures XorSigned32(c, x / 0x8000_0000) == if x < 0 then -1 - c else c
  {
    XorSign(c);
  }

  lemma ClipQ31ToQ15IsClamp(x: q31)
    ensures ClipQ31ToQ15(x) == Clamp15(x)
  {
    HighBitsTest(x, 0x8000);
    if -0x8000 <= x < 0x8000 {
    } else {
      SaturationWord(0x7FFF, x);
    }
  }

  /** Two neighbouring arithmetic shifts agree exactly on the narrow range. */
  lemma HighBitsTest(x: int, d: int)
    requires d > 0
    ensures x / (2 * d) == x / d <==> -d <= x < d
  {
    var q, r := x / (2 * d), x % (2 * d);
    assert x == q * (2 * d) + r;
    if r < d {
      DivModUnique(x, d, 2 * q, r);
    } else {
      DivModUnique(x, d, 2 * q + 1, r - d);
    }
    if q >= 1 {
      MulMonotone(1, q, 2 * d);
    } else if q <= -1 {
      MulMonotone(q, -1, 2 * d);
    }
  }

  /** clip_q31_to_q7 tests bit 23 and up, not bit 7 and up: it is the clamp on
      the q7 range and beyond 24 bits, and in between it keeps the low byte, which
      is the saturation value only by coincidence. */
  lemma ClipQ31ToQ7Exactly(x: q31)
    ensures ClipQ31ToQ7(x) == Clamp(x, -0x80, 0x7F)
       <==> -0x80 <= x < 0x80 || x < -0x80_0000 || 0x80_0000 <= x
            || (0x80 <= x && x % 0x100 == 0x7F) || (x < -0x80 && x % 0x100 == 0x80)
  {
    hide XorSigned32;
    HighBitsTest(x, 0x80_0000);
    if -0x80_0000 <= x < 0x80_0000 {
      WrapAt(x, 0x80, (x + 0x80) / 0x100);
    } else {
      SaturationWord(0x7F, x);
    }
  }

  /** What it is instead: between 8 and 24 bits the low byte, read as signed. */
  lemma ClipQ31ToQ7Value(x: q31)
    ensures ClipQ31ToQ7(x) == if -0x80_0000 <= x < 0x80_0000 then (x + 0x80) % 0x100 - 0x80
                              else if x < 0 then -0x80 else 0x7F
  {
    hide XorSigned32;
    HighBitsTest(x, 0x80_0000);
    if -0x80_0000 <= x < 0x80_0000 {
      Wrap8Modulo(x);
    } else {
      SaturationWord(0x7F, x);
    }
  }

  /** clip_q63_to_q15 shifts before it narrows and does not test the shifted
      value: for an x that fits 32 bits it is the clamp of x >> 15 exactly when
      x fits 31 bits. */
  lemma ClipQ63ToQ15Exactly(x: q63)
    ensures ClipQ63ToQ15(x) == Clamp15(x / 0x8000)
       <==> -0x4000_0000 <= x < 0x4000_0000 || x < -0x8000_0000 || 0x8000_0000 <= x
  {
    hide Wrap16, Wrap32, XorSigned32;
    HighHalfTest(x);
    if -0x8000_0000 <= x < 0x8000_0000 {
      WrapShifted(x / 0x8000);
    } else {
      ClipQ63ToQ15Wide(x);
      ShiftedRange(x);
    }
  }

  /** What it is instead: for an x of 32 bits the low halfword of x >> 15, read as
      signed. */
  lemma ClipQ63ToQ15Value(x: q63)
    ensures ClipQ63ToQ15(x) == if -0x8000_0000 <= x < 0x8000_0000 then (x / 0x8000 + 0x8000) % 0x1_0000 - 0x8000
                               else if x < 0 then -0x8000 else 0x7FFF
  {
    hide Wrap16, Wrap32, XorSigned32;
    HighHalfTest(x);
    if -0x8000_0000 <= x < 0x8000_0000 {
      Wrap16Modulo(x / 0x8000);
    } else {
      ClipQ63ToQ15Wide(x);
    }
  }

  lemma ClipQ63ToQ15Wide(x: q63)
    requires x < -0x8000_0000 || 0x8000_0000 <= x
    ensures ClipQ63ToQ15(x) == if x < 0 then -0x8000 else 0x7FFF
  {
    hide Wrap16, Wrap32, XorSigned32;
    HighHalfTest(x);
    XorSign(0x7FFF);
  }

  lemma ShiftedRange(x: int)
    ensures x < -0x8000_0000 ==> x / 0x8000 < -0x8000
    ensures 0x8000_0000 <= x ==> 0x8000 <= x / 0x8000
  {
  }

  lemma WrapShifted(v: int)
    requires -0x1_0000 <= v < 0x1_0000
    ensures Wrap16(v) == Clamp15(v) <==> -0x8000 <= v < 0x8000
  {
    if v < -0x8000 {
      WrapAt(v, 0x8000, -1);
    } else if v >= 0x8000 {
      WrapAt(v, 0x8000, 1);
    }
  }

  // ----- saturating operations -----

  /** `__SSAT(val, sat)` */
  function Ssat(val: q31, sat: uint32): q31 {
    if 1 <= sat <= 32 then
      var max := Wrap32(Unsigned32(Shl32(1, sat - 1) - 1));
      var min := Wrap32(-1 - max);
      if val > max then max else if val < min then min else val
    else val
  }

  /** `__USAT(val, sat)` */
  function Usat(val: q31, sat: uint32): uint32 {
    if sat <= 31 then
      var max := Unsigned32(Shl32(1, sat) - 1);
      if val > Wrap32(max) then max else if val < 0 then 0 else Unsigned32(val)
    else Unsigned32(val)
  }

  /** `__QADD(x, y)` */
  function Qadd(x: q31, y: q31): q31 {
    ClipQ63ToQ31(x + y)
  }

  /** `__QSUB(x, y)` */
  function Qsub(x: q31, y: q31): q31 {
    ClipQ63ToQ31(x - y)
  }

  lemma SsatIsClamp(val: q31, sat: uint32)
    ensures Ssat(val, sat) == if 1 <= sat <= 32 then Clamp(val, -Pow2(sat - 1), Pow2(sat - 1) - 1) else val
  {
    hide Pow2, Shl32, Unsigned32, Wrap32;
    if 1 <= sat <= 32 {
      UsatLimit(sat - 1);
      assert Wrap32(-1 - (Pow2(sat - 1) - 1)) == -Pow2(sat - 1) by {
        Pow2AtMost31(sat - 1);
      }
    }
  }

  lemma Pow2AtMost31(n: nat)
    requires n <= 31
    ensures Pow2(n) <= 0x8000_0000
  {
    Pow2Monotone(n, 31);
    Pow2Values();
  }

  lemma UsatIsClamp(val: q31, sat: uint32)
    ensures Usat(val, sat) == if sat <= 31 then Clamp(val, 0, Pow2(sat) - 1) else Unsigned32(val)
  {
    hide Pow2, Shl32, Unsigned32, Wrap32;
    if sat <= 31 {
      UsatLimit(sat);
      SmallUnsigned(val);
      assert Usat(val, sat) == Clamp(val, 0, Pow2(sat) - 1);
    }
  }

  lemma UsatLimit(sat: nat)
    requires sat <= 31
    ensures Unsigned32(Shl32(1, sat) - 1) == Wrap32(Unsigned32(Shl32(1, sat) - 1)) == Pow2(sat) - 1
  {
    hide Pow2, Wrap32;
    Pow2AtMost31(sat);
    var p := Pow2(sat);
    assert Shl32(1, sat) == p;
    hide Shl32;
    assert Unsigned32(p - 1) == p - 1;
  }

  lemma SmallUnsigned(x: q31)
    ensures 0 <= x ==> Unsigned32(x) == x
  {
  }

  lemma QaddQsubAreClamps(x: q31, y: q31)
    ensures Qadd(x, y) == Clamp31(x + y)
    ensures Qsub(x, y) == Clamp31(x - y)
  {
    ClipQ63ToQ31IsClamp(x + y);
    ClipQ63ToQ31IsClamp(x - y);
  }

  // ----- 32 by 64 bit multiplication -----

  /** mult32x64: the low and the high word of x are multiplied separately. */
  function Mult32x64(x: q63, y: q31): q63 {
    Wrap64(Wrap64((x % 0x1_0000_0000) * y) / 0x1_0000_0000 + Wrap64((x / 0x1_0000_0000) * y))
  }

  /** Splitting x loses nothing: no intermediate wraps, and the sum of the two
      halves is the 96-bit product shifted down once. */
  lemma Mult32x64Exact(x: q63, y: q31)
    ensures Mult32x64(x, y) == (x * y) / 0x1_0000_0000
  {
    hide Wrap64;
    var h, l := x / 0x1_0000_0000, x % 0x1_0000_0000;
    HalvesFit(h, l, y);
    ProductSplit(h, l, y);
    assert h * 0x1_0000_0000 + l == x;
  }

  lemma HalvesFit(h: int, l: int, y: q31)
    requires -0x8000_0000 <= h < 0x8000_0000 && 0 <= l < 0x1_0000_0000
    ensures Wrap64(l * y) == l * y && Wrap64(h * y) == h * y
    ensures Wrap64((l * y) / 0x1_0000_0000 + h * y) == (l * y) / 0x1_0000_0000 + h * y
  {
    hide Wrap64;
    var p, q := l * y, h * y;
    assert -0x8000_0000_0000_0000 <= p < 0x8000_0000_0000_0000 by {
      ProductBound(l, y, 0xFFFF_FFFF, 0x8000_0000);
    }
    assert -0x4000_0000_0000_0000 <= q <= 0x4000_0000_0000_0000 by {
      ProductBound(h, y, 0x8000_0000, 0x8000_0000);
    }
    assert -0x8000_0000 <= p / 0x1_0000_0000 < 0x8000_0000;
  }

  lemma ProductSplit(h: int, l: int, y: int)
    ensures ((h * 0x1_0000_0000 + l) * y) / 0x1_0000_0000 == (l * y) / 0x1_0000_0000 + h * y
  {
    var p := l * y;
    assert (h * 0x1_0000_0000 + l) * y == (h * y) * 0x1_0000_0000 + p;
    DivModUnique((h * y) * 0x1_0000_0000 + p, 0x1_0000_0000, h * y + p / 0x1_0000_0000, p % 0x1_0000_0000);
  }

  /** A product computed in q63_t, of an int32_t and an int32_t or uint32_t. */
  function Product63(x: int, y: int): (p: q63)
    requires -0x8000_0000 <= x < 0x8000_0000 && -0x8000_0000 <= y < 0x1_0000_0000
    ensures p == x * y
  {
    ProductBound(x, y, 0x8000_0000, 0xFFFF_FFFF);
    x * y
  }

  /** A product computed in int32_t, of two int16_t. */
  function Product31(x: q15, y: q15): (p: q31)
    ensures p == x * y
  {
    ProductBound(x, y, 0x8000, 0x8000);
    x * y
  }

  lemma ProductBound(x: int, y: int, a: int, b: int)
    requires 0 <= a && 0 <= b
    requires -a <= x <= a && -b <= y <= b
    ensures -(a * b) <= x * y <= a * b
  {
    if y >= 0 {
      MulMonotone(x, a, y);
      MulMonotone(-a, x, y);
      MulMonotone(y, b, a);
    } else {
      MulMonotone(x, a, -y);
      MulMonotone(-a, x, -y);
      MulMonotone(-y, b, a);
    }
  }
}
