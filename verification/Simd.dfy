/** The C emulations of the dual 16-bit SIMD instructions: a 32-bit word is a
    pair of signed halves. */
module Simd {
  import opened Bits
  import opened FixedPoint

  type uint64 = x: nat | x < 0x1_0000_0000_0000_0000

  /** `((q31_t) x << 16) >> 16`: the low half. */
  function Low(x: uint32): (r: int) {
    Wrap32(Wrap32(x) * 0x1_0000) / 0x1_0000
  }

  /** `((q31_t) x) >> 16`: the high half. */
  function High(x: uint32): (r: int) {
    Wrap32(x) / 0x1_0000
  }

  /** The word whose memory image is the two halfwords, low one first. */
  function Pack(low: q15, high: q15): uint32 {
    low % 0x1_0000 + (high % 0x1_0000) * 0x1_0000
  }

  lemma HalvesOf(x: uint32, l: q15, h: q15)
    requires x == l % 0x1_0000 + (h % 0x1_0000) * 0x1_0000
    ensures Low(x) == l && High(x) == h
  {
    var ul, uh := l % 0x1_0000, h % 0x1_0000;
    WrapAt(x, 0x8000_0000, if uh < 0x8000 then 0 else 1);
    assert Wrap32(x) == h * 0x1_0000 + ul;
    hide Wrap32;
    ShiftedLow(h, ul, l);
  }

  lemma ShiftedLow(h: int, ul: int, l: q15)
    requires ul == l % 0x1_0000
    ensures Wrap32((h * 0x1_0000 + ul) * 0x1_0000) == l * 0x1_0000
  {
    WrapAt((h * 0x1_0000 + ul) * 0x1_0000, 0x8000_0000, if l < 0 then h + 1 else h);
  }

  /** Every word is the packing of its two halves. */
  lemma WordHalves(x: uint32)
    ensures -0x8000 <= Low(x) < 0x8000 && -0x8000 <= High(x) < 0x8000
    ensures x == Pack(Low(x), High(x))
  {
    hide Low, High;
    var ul, uh := x % 0x1_0000, x / 0x1_0000;
    var l: q15 := if ul < 0x8000 then ul else ul - 0x1_0000;
    var h: q15 := if uh < 0x8000 then uh else uh - 0x1_0000;
    HalvesOf(x, l, h);
  }

  lemma PackHalves(l: q15, h: q15)
    ensures Low(Pack(l, h)) == l && High(Pack(l, h)) == h
  {
    HalvesOf(Pack(l, h), l, h);
  }

  /** A q15_t converted to uint32_t: the high half is its sign. */
  lemma SignExtended(v: q15)
    ensures Low(Unsigned32(v)) == v
    ensures High(Unsigned32(v)) == if v < 0 then -1 else 0
  {
    HalvesOf(Unsigned32(v), v, if v < 0 then -1 else 0);
  }

  // ----- the instructions -----

  function Smuad(x: uint32, y: uint32): uint32 {
    Unsigned32(Low(x) * Low(y) + High(x) * High(y))
  }

  function Smusd(x: uint32, y: uint32): uint32 {
    Unsigned32(Low(x) * Low(y) - High(x) * High(y))
  }

  function Smuadx(x: uint32, y: uint32): uint32 {
    Unsigned32(Low(x) * High(y) + High(x) * Low(y))
  }

  /** The two products are added as 32-bit integers before the 64-bit sum. */
  function Smlald(x: uint32, y: uint32, sum: uint64): uint64 {
    (Wrap32(Low(x) * Low(y) + High(x) * High(y)) + Wrap64(sum)) % 0x1_0000_0000_0000_0000
  }

  predicate AllLowest(x: uint32, y: uint32) {
    Low(x) == High(x) == Low(y) == High(y) == -0x8000
  }

  /** The sum of two halfword products overflows 32 bits in one case only. */
  lemma DualProduct(a: q15, b: q15, c: q15, d: q15)
    ensures -0x8000_0000 < a * b + c * d <= 0x8000_0000
    ensures a * b + c * d == 0x8000_0000 <==> a == b == c == d == -0x8000
    ensures -0x8000_0000 < a * b - c * d < 0x8000_0000
  {
    HalfProduct(a, b);
    HalfProduct(c, d);
  }

  lemma HalfProduct(a: q15, b: q15)
    ensures -0x3FFF_8000 <= a * b <= 0x4000_0000
    ensures a * b == 0x4000_0000 <==> a == b == -0x8000
  {
    if a >= 0 {
      MulMonotone(-0x8000, b, a);
      MulMonotone(b, 0x7FFF, a);
    } else {
      var m: int := 0 - a;
      MulMonotone(-0x8000, b, m);
      MulMonotone(b, 0x7FFF, m);
      assert b * m == 0 - a * b;
    }
  }

  lemma SignedBack(v: int)
    requires -0x8000_0000 <= v < 0x8000_0000
    ensures Wrap32(Unsigned32(v)) == v
  {
    if v < 0 {
      assert Unsigned32(v) == v + 0x1_0000_0000;
      WrapAt(v + 0x1_0000_0000, 0x8000_0000, 1);
    }
  }

  /** With a word read as the complex number low + i*high, SMUSD is the real part
      of the product for all words, and SMUADX its imaginary part unless all four
      halves are -32768. */
  lemma ComplexProduct(x: uint32, y: uint32)
    ensures Wrap32(Smusd(x, y)) == Low(x) * Low(y) - High(x) * High(y)
    ensures Wrap32(Smuadx(x, y)) == Low(x) * High(y) + High(x) * Low(y) <==> !AllLowest(x, y)
    ensures AllLowest(x, y) ==> Wrap32(Smuadx(x, y)) == -0x8000_0000
  {
    hide Low, High, Wrap32, Unsigned32;
    WordHalves(x);
    WordHalves(y);
    DualProduct(Low(x), Low(y), High(x), High(y));
    DualProduct(Low(x), High(y), High(x), Low(y));
    SignedBack(Low(x) * Low(y) - High(x) * High(y));
    var im := Low(x) * High(y) + High(x) * Low(y);
    if im < 0x8000_0000 {
      SignedBack(im);
    } else {
      WrapTop();
    }
  }

  /** SMUAD is the sum of the two products of equal halves, unless all four halves
      are -32768. */
  lemma DualSum(x: uint32, y: uint32)
    ensures Wrap32(Smuad(x, y)) == Low(x) * Low(y) + High(x) * High(y) <==> !AllLowest(x, y)
    ensures AllLowest(x, y) ==> Wrap32(Smuad(x, y)) == -0x8000_0000
  {
    hide Low, High, Wrap32, Unsigned32;
    WordHalves(x);
    WordHalves(y);
    DualProduct(Low(x), Low(y), High(x), High(y));
    var sum := Low(x) * Low(y) + High(x) * High(y);
    if sum < 0x8000_0000 {
      SignedBack(sum);
    } else {
      WrapTop();
    }
  }

  lemma WrapTop()
    ensures Wrap32(Unsigned32(0x8000_0000)) == Wrap32(0x8000_0000) == -0x8000_0000
  {
  }

  /** Norms multiply: Re^2 + Im^2 == |x|^2 * |y|^2, for all words. */
  lemma ComplexNorm(x: uint32, y: uint32)
    ensures Wrap32(Smusd(x, y)) * Wrap32(Smusd(x, y)) + Wrap32(Smuadx(x, y)) * Wrap32(Smuadx(x, y))
         == Smuad(x, x) * Smuad(y, y)
  {
    hide Low, High, Wrap32, Unsigned32, Smuad, Smusd, Smuadx;
    ComplexProduct(x, y);
    NormUnsigned(x);
    NormUnsigned(y);
    Brahmagupta(Low(x), High(x), Low(y), High(y));
  }

  lemma NormUnsigned(x: uint32)
    ensures Smuad(x, x) == Low(x) * Low(x) + High(x) * High(x)
  {
    hide Low, High;
    WordHalves(x);
    var a, b := Low(x), High(x);
    DualProduct(a, a, b, b);
    assert a * a >= 0 && b * b >= 0;
  }

  lemma Brahmagupta(a: int, b: int, c: int, d: int)
    ensures (a * c - b * d) * (a * c - b * d) + (a * d + b * c) * (a * d + b * c)
         == (a * a + b * b) * (c * c + d * d)
  {
    assert (a * c - b * d) * (a * c - b * d) == (a * c) * (a * c) - 2 * ((a * c) * (b * d)) + (b * d) * (b * d);
    assert (a * d + b * c) * (a * d + b * c) == (a * d) * (a * d) + 2 * ((a * d) * (b * c)) + (b * c) * (b * c);
    assert (a * c) * (b * d) == (a * d) * (b * c);
    assert (a * a + b * b) * (c * c + d * d)
        == (a * c) * (a * c) + (a * d) * (a * d) + (b * c) * (b * c) + (b * d) * (b * d);
  }

  /** The 64-bit accumulation, itself modulo 2^64, is exact unless all four halves
      are -32768. */
  lemma SmlaldExact(x: uint32, y: uint32, sum: uint64)
    ensures Smlald(x, y, sum) == (sum + Low(x) * Low(y) + High(x) * High(y)) % 0x1_0000_0000_0000_0000
       <==> !AllLowest(x, y)
  {
    hide Low, High, Smlald;
    WordHalves(x);
    WordHalves(y);
    DualProduct(Low(x), Low(y), High(x), High(y));
    SmlaldResidue(x, y, sum);
    NarrowedSum(Low(x) * Low(y) + High(x) * High(y), sum);
    hide Wrap32;
  }

  /** The signed reading of the accumulator does not matter modulo 2^64. */
  lemma SmlaldResidue(x: uint32, y: uint32, sum: uint64)
    ensures Smlald(x, y, sum) == (sum + Wrap32(Low(x) * Low(y) + High(x) * High(y))) % 0x1_0000_0000_0000_0000
  {
    hide Low, High, Wrap32, Wrap64;
    Wrap64Residue(sum);
    ResidueOfSum(Wrap32(Low(x) * Low(y) + High(x) * High(y)), Wrap64(sum), sum);
  }

  lemma NarrowedSum(p: int, sum: int)
    requires -0x8000_0000 < p <= 0x8000_0000
    ensures (sum + Wrap32(p)) % 0x1_0000_0000_0000_0000 == (sum + p) % 0x1_0000_0000_0000_0000
       <==> p != 0x8000_0000
  {
    hide Wrap32;
    WrapTop();
    LostTop(sum);
  }

  lemma Wrap64Residue(sum: uint64)
    ensures Wrap64(sum) == if sum < 0x8000_0000_0000_0000 then sum else sum - 0x1_0000_0000_0000_0000
  {
    if sum >= 0x8000_0000_0000_0000 {
      WrapAt(sum, 0x8000_0000_0000_0000, 1);
    }
  }

  lemma ResidueOfSum(p: int, s: int, sum: int)
    requires s == sum || s == sum - 0x1_0000_0000_0000_0000
    ensures (p + s) % 0x1_0000_0000_0000_0000 == (sum + p) % 0x1_0000_0000_0000_0000
  {
  }

  lemma LostTop(sum: int)
    ensures (sum - 0x8000_0000) % 0x1_0000_0000_0000_0000 != (sum + 0x8000_0000) % 0x1_0000_0000_0000_0000
  {
  }

  /** With the accumulator read as a signed number away from the ends of int64_t. */
  lemma SmlaldSigned(x: uint32, y: uint32, sum: int)
    requires -0x4000_0000_0000_0000 <= sum <= 0x4000_0000_0000_0000
    ensures Wrap64(Smlald(x, y, sum % 0x1_0000_0000_0000_0000))
         == sum + Low(x) * Low(y) + High(x) * High(y)
       <==> !AllLowest(x, y)
    ensures AllLowest(x, y) ==> Wrap64(Smlald(x, y, sum % 0x1_0000_0000_0000_0000)) == sum - 0x8000_0000
  {
    hide Low, High, Smlald, Wrap64;
    var u := sum % 0x1_0000_0000_0000_0000;
    SmlaldExact(x, y, u);
    WordHalves(x);
    WordHalves(y);
    DualProduct(Low(x), Low(y), High(x), High(y));
    var p := Low(x) * Low(y) + High(x) * High(y);
    SignedResidue(Smlald(x, y, u), sum + p);
    ReducedSum(sum, p);
    if AllLowest(x, y) {
      SmlaldCorner(x, y, u);
      SignedResidue(Smlald(x, y, u), sum - 0x8000_0000);
      ReducedSum(sum, -0x8000_0000);
    }
  }

  lemma SmlaldCorner(x: uint32, y: uint32, sum: uint64)
    requires AllLowest(x, y)
    ensures Smlald(x, y, sum) == (sum - 0x8000_0000) % 0x1_0000_0000_0000_0000
  {
    hide Low, High, Wrap32, Smlald;
    SmlaldResidue(x, y, sum);
    WrapTop();
  }

  lemma ReducedSum(sum: int, p: int)
    ensures (sum % 0x1_0000_0000_0000_0000 + p) % 0x1_0000_0000_0000_0000 == (sum + p) % 0x1_0000_0000_0000_0000
  {
  }

  /** A value of int64_t is determined by its residue. */
  lemma SignedResidue(u: uint64, v: int)
    requires -0x8000_0000_0000_0000 <= v < 0x8000_0000_0000_0000
    ensures Wrap64(u) == v <==> u == v % 0x1_0000_0000_0000_0000
  {
    hide Wrap64;
    Wrap64Residue(u);
  }
}
