/** The fixed-point reciprocals arm_recip_q31 and arm_recip_q15: normalise by a
    leading-zero count, take a seed from a 64-entry table, refine it by two
    truncating Newton-Raphson steps. */
module Reciprocal {
  import opened Bits
  import opened BitLoops
  import opened FixedPoint

  const INDEX_MASK: nat := 0x3F

  // ----- one Newton step on exact integers -----

  // In both formats M is the weight of one unit (2^31 or 2^15), H = M / 2 and
  // G = M * H the product that n * out aims at. One step computes
  // t = M - 1 - (n * out) / M and next = (out * t) / H.

  /** The exact algebra of a step: r and s are the remainders of its two
      truncations, and the new deficit is the old one squared plus their cost. */
  lemma NewtonAlgebra(n: int, out: int, M: int, H: int, P: int, q: int, r: int, t: int, next: int, s: int)
    requires M == 2 * H && P == n * out
    requires P == M * q + r && t == M - 1 - q && out * t == H * next + s
    ensures (M * H) * (M * H - n * next)
         == (M * H - P) * (M * H - P) + P * (M - r) + M * (n * s)
  {
    var G := M * H;
    ScaledComplement(M, H, P, q, r);
    Reassociate(n, out, t, M, H, next, s);
    CollectSquare(G, P, M * t, M - r, n * next, M * (n * s));
  }

  lemma ScaledComplement(M: int, H: int, P: int, q: int, r: int)
    requires M == 2 * H && P == M * q + r
    ensures M * (M - 1 - q) == 2 * (M * H) - P - (M - r)
  {
    Distribute(M - 1, q, M);
    Distribute(M, 1, M);
  }

  lemma CollectSquare(G: int, P: int, Mt: int, c: int, product: int, cost: int)
    requires Mt == 2 * G - P - c && P * Mt == G * product + cost
    ensures G * (G - product) == (G - P) * (G - P) + P * c + cost
  {
    Distribute(2 * G - P, c, P);
    Square(G, P);
    Distribute(G, product, G);
  }

  lemma Square(G: int, P: int)
    ensures (G - P) * (G - P) == G * G - P * (2 * G - P)
  {
  }

  lemma Reassociate(n: int, out: int, t: int, M: int, H: int, next: int, s: int)
    requires out * t == H * next + s
    ensures (n * out) * (M * t) == (M * H) * (n * next) + M * (n * s)
  {
    assert (n * out) * (M * t) == (n * M) * (out * t);
    assert (n * M) * (H * next + s) == (n * M) * (H * next) + (n * M) * s;
    assert (n * M) * (H * next) == (M * H) * (n * next);
    assert (n * M) * s == M * (n * s);
  }

  /** One step is one-sided and contracts quadratically: with D the deficit
      G - n * out, the new one D' satisfies D^2 / G <= D' < D^2 / G + n * out / H + n,
      and the refined value stays inside the format. */
  lemma NewtonContracts(n: int, out: int, M: int, H: int, t: int, next: int)
    requires M == 2 * H && H > 0 && H <= n < M && 0 <= out < M
    requires t == M - 1 - (n * out) / M && next == (out * t) / H
    ensures 0 <= t < M && 0 <= next < M
    ensures (M * H - n * out) * (M * H - n * out) <= (M * H) * (M * H - n * next)
    ensures 0 < M * H - n * next
    ensures (M * H) * (M * H - n * next)
          < (M * H - n * out) * (M * H - n * out) + (n * out) * M + (M * H) * n
  {
    var P := n * out;
    var r, q, s := P % M, P / M, (out * t) % H;
    ProductRange(n, out, M);
    QuotientRange(P, M);
    ProductRange(out, t, M);
    EuclidDivision(P, M);
    EuclidDivision(out * t, H);
    QuotientSign(out * t, H);
    NewtonAlgebra(n, out, M, H, P, q, r, t, next, s);
    ContractAlgebra(n, out, M, H, P, r, s, next);
  }

  lemma ContractAlgebra(n: int, out: int, M: int, H: int, P: int, r: int, s: int, next: int)
    requires M == 2 * H && H > 0 && H <= n < M && 0 <= out < M && P == n * out
    requires 0 <= r < M && 0 <= s < H && 0 <= next && (out == 0 ==> next == 0)
    requires (M * H) * (M * H - n * next)
          == (M * H - P) * (M * H - P) + P * (M - r) + M * (n * s)
    ensures (M * H - P) * (M * H - P) <= (M * H) * (M * H - n * next)
    ensures 0 < M * H - n * next
    ensures next < M
    ensures (M * H) * (M * H - n * next) < (M * H - P) * (M * H - P) + P * M + (M * H) * n
  {
    var G := M * H;
    var left := P * (M - r);
    PositiveProduct(M, H);
    ProductRange(n, out, M);
    ScaleBetween(1, M - r, M, P);
    RemainderTerm(n, s, M, H);
    SquareNonNegative(G - P);
    if 0 < out {
      PositiveProduct(n, out);
      PositiveFactor(G, G - n * next);
      if next >= M {
        ProductAtLeast(n, next, H, M);
        assert false;
      }
    } else {
      assert n * next == 0;
    }
  }

  lemma ScaleBetween(x: int, y: int, z: int, p: int)
    requires x <= y <= z && 0 <= p
    ensures p * x <= p * y <= p * z
  {
    MulMonotone(x, y, p);
    MulMonotone(y, z, p);
  }

  lemma ProductRange(x: int, y: int, M: int)
    requires 0 <= x < M && 0 <= y < M
    ensures 0 <= x * y < M * M
  {
    MulMonotone(x, M, y);
    MulMonotone(y, M - 1, M);
    assert M * y == y * M;
    assert (M - 1) * M == M * M - M;
    MulMonotone(0, x, y);
  }

  lemma ProductAtLeast(x: int, y: int, a: int, b: int)
    requires 0 <= a <= x && 0 <= b <= y
    ensures a * b <= x * y
  {
    MulMonotone(a, x, b);
    MulMonotone(b, y, x);
    assert x * b == b * x && x * y == y * x;
  }

  lemma QuotientRange(P: int, M: int)
    requires M > 0 && 0 <= P < M * M
    ensures 0 <= P / M < M
  {
    var q := P / M;
    assert P == M * q + P % M;
    assert M * q == q * M;
    if q < 0 {
      MulMonotone(q, -1, M);
    } else if q >= M {
      MulMonotone(M, q, M);
    }
  }

  lemma QuotientSign(x: int, d: int)
    requires 0 <= x && 0 < d
    ensures 0 <= x / d && (x == 0 ==> x / d == 0)
  {
    DivBound(x, d);
  }

  lemma RemainderTerm(n: int, s: int, M: int, H: int)
    requires 0 < n && 0 < M && 0 <= s < H
    ensures 0 <= M * (n * s) < (M * H) * n
  {
    MulMonotone(0, s, n);
    MulMonotone(s, H - 1, n);
    assert (H - 1) * n == H * n - n && s * n == n * s;
    MulMonotone(0, n * s, M);
    MulMonotone(n * s, H * n - 1, M);
    assert (H * n - 1) * M == (M * H) * n - M;
    assert (n * s) * M == M * (n * s);
  }

  lemma PositiveFactor(G: int, x: int)
    requires G > 0 && G * x > 0
    ensures x > 0
  {
    assert x * G == G * x;
    if x <= 0 {
      MulMonotone(x, 0, G);
    }
  }

  lemma PositiveProduct(x: int, y: int)
    requires x > 0 && y > 0
    ensures x * y > 0
  {
    MulMonotone(1, x, y);
  }

  /** Two squared deficits make a fourth power, with the cost of each step. */
  lemma FourthPower(D0: int, D1: int, D: int, G: int, cost: int)
    requires G > 0 && cost > 0 && 0 <= D1
    requires D0 * D0 <= G * D1 < D0 * D0 + G * cost
    requires D1 * D1 <= G * D < D1 * D1 + G * cost
    ensures (D0 * D0) * (D0 * D0) <= (G * G) * (G * D)
    ensures (G * G) * (G * D) < (D0 * D0 + G * cost) * (D0 * D0 + G * cost) + (G * G) * (G * cost)
  {
    var a, b := D0 * D0, G * D1;
    SquareNonNegative(D0);
    ProductAtLeast(b, b, a, a);
    ProductAtLeast(a + G * cost, a + G * cost, b, b);
    ProductSquare(G, D1);
    PositiveProduct(G, G);
    MulMonotone(D1 * D1, G * D, G * G);
    MulMonotone(G * D + 1, D1 * D1 + G * cost, G * G);
    Distribute(G * D, 1, G * G);
    Distribute(D1 * D1, G * cost, G * G);
  }

  /** One step on exact integers, in the format whose unit is M. */
  function NewtonStep(n: int, out: int, M: int): int
    requires M > 1
  {
    (out * (M - 1 - (n * out) / M)) / (M / 2)
  }

  /** The bucket of a normalised value: 64 per octave. */
  function Bucket(n: int, width: int): (i: nat)
    requires width > 0 && 64 * width <= n < 128 * width
    ensures i < 64
  {
    BucketRange(n, width);
    n / width - 64
  }

  lemma BucketRange(n: int, width: int)
    requires width > 0 && 64 * width <= n < 128 * width
    ensures 64 <= n / width < 128
  {
    EuclidDivision(n, width);
    var q := n / width;
    if q < 64 {
      MulMonotone(q + 1, 64, width);
      Distribute(q, 1, width);
    } else if q > 127 {
      MulMonotone(128, q, width);
    }
  }

  // ----- Q31 -----

  /** signBits of arm_recip_q31: the shift that normalises |x|. */
  function SignBits31(x: q31): nat
    requires -0x8000_0000 < x
  {
    SignBitsRange(Abs(x));
    LeadingZeros(Abs(x)) - 1
  }

  lemma SignBitsRange(a: nat)
    requires a < 0x8000_0000
    ensures 1 <= LeadingZeros(a)
  {
    Pow2Values();
    BitLengthBound(a, 31);
  }

  function Normalised31(x: q31): q31
    requires -0x8000_0000 < x
  {
    Wrap32(x * Pow2(SignBits31(x)))
  }

  /** The table index of a normalised value. */
  function Index31(n: q31): (i: nat)
    ensures i < 64
  {
    AndBound(Unsigned32(n / 0x100_0000), INDEX_MASK);
    And(Unsigned32(n / 0x100_0000), INDEX_MASK)
  }

  /** One iteration of the loop, with its unsigned intermediate and its clip. */
  function Step31(n: q31, out: q31): q31 {
    var tempVal := Unsigned32(0x7FFF_FFFF - Unsigned32(Product63(n, out) / 0x8000_0000));
    ClipQ63ToQ31(Product63(out, tempVal) / 0x4000_0000)
  }

  /** arm_recip_q31 as a function of its arguments. */
  function Recip31(x: q31, table: seq<q31>): q31
    requires -0x8000_0000 < x && |table| == 64
  {
    var n := Normalised31(x);
    Step31(n, Step31(n, table[Index31(n)]))
  }

  method ArmRecipQ31(x: q31, table: seq<q31>) returns (dst: q31, shift: uint32)
    requires -0x8000_0000 < x
    requires |table| == 64
    ensures dst == Recip31(x, table)
    ensures shift == SignBits31(x) + 1
  {
    hide LeadingZeros, Wrap32, And, ClipQ63ToQ31, Unsigned32;
    var signBits: nat;
    SignBitsRange(Abs(x));
    if x > 0 {
      var zeros := CountLeadingZeros(x);
      signBits := zeros - 1;
    } else {
      var zeros := CountLeadingZeros(-x);
      signBits := zeros - 1;
    }
    var n := Wrap32(x * Pow2(signBits));
    var index := And(Unsigned32(n / 0x100_0000), INDEX_MASK);
    AndBound(Unsigned32(n / 0x100_0000), INDEX_MASK);
    var out := table[index];
    var i := 0;
    while i < 2
      invariant 0 <= i <= 2
      invariant out == if i == 0 then table[Index31(n)]
                       else if i == 1 then Step31(n, table[Index31(n)])
                       else Recip31(x, table)
    {
      var tempVal: int := Unsigned32(Product63(n, out) / 0x8000_0000);
      tempVal := Unsigned32(0x7FFF_FFFF - tempVal);
      out := ClipQ63ToQ31(Product63(out, tempVal) / 0x4000_0000);
      i := i + 1;
    }
    dst := out;
    shift := signBits + 1;
  }

  /** For a positive input normalising loses nothing and lands in [2^30, 2^31). */
  lemma Normalise31(x: q31)
    requires 0 < x
    ensures Normalised31(x) == x * Pow2(SignBits31(x))
    ensures 0x4000_0000 <= Normalised31(x) < 0x8000_0000
  {
    SignBitsRange(x);
    var c := LeadingZeros(x);
    LeadingZerosNormalise(x);
    assert x * Pow2(c) == 2 * (x * Pow2(c - 1));
  }

  lemma Index31Value(n: q31)
    requires 0x4000_0000 <= n
    ensures Index31(n) == n / 0x100_0000 - 64
  {
    hide And, Unsigned32;
    var b := n / 0x100_0000;
    assert 64 <= b < 128;
    assert Unsigned32(b) == b by { SmallUnsigned(b); }
    AndIndexMask(b);
  }

  lemma AndIndexMask(b: nat)
    ensures And(b, INDEX_MASK) == b % 64
  {
    assert Pow2(6) == 64;
    AndMask(b, 6);
  }

  /** On normalised values nothing wraps and the clip never fires. */
  lemma Step31Exact(n: q31, out: q31)
    requires 0x4000_0000 <= n && 0 <= out
    ensures 0 <= 0x7FFF_FFFF - (n * out) / 0x8000_0000
    ensures Step31(n, out) == (out * (0x7FFF_FFFF - (n * out) / 0x8000_0000)) / 0x4000_0000
    ensures 0 <= Step31(n, out)
  {
    var q := (n * out) / 0x8000_0000;
    var next := (out * (0x7FFF_FFFF - q)) / 0x4000_0000;
    NewtonContracts(n, out, 0x8000_0000, 0x4000_0000, 0x7FFF_FFFF - q, next);
    SmallUnsigned(q);
    SmallUnsigned(0x7FFF_FFFF - q);
    ClipQ63ToQ31IsClamp(next);
    hide Unsigned32, ClipQ63ToQ31;
    assert Step31(n, out) == ClipQ63ToQ31(next);
  }

  /** One iteration for every normalised input of either sign and every seed: the
      unsigned intermediate is never out of range, and the clip saturates. */
  lemma Step31Everywhere(n: q31, out: q31)
    requires -0x8000_0000 < n
    ensures 0 <= 0x7FFF_FFFF - (n * out) / 0x8000_0000 < 0x1_0000_0000
    ensures Step31(n, out) == Clamp31((out * (0x7FFF_FFFF - (n * out) / 0x8000_0000)) / 0x4000_0000)
  {
    hide Unsigned32, ClipQ63ToQ31;
    var q := (n * out) / 0x8000_0000;
    ProductBound(n, out, 0x7FFF_FFFF, 0x8000_0000);
    TempVal31(q);
    ProductBound(out, 0x7FFF_FFFF - q, 0x8000_0000, 0xFFFF_FFFF);
    ClipQ63ToQ31IsClamp((out * (0x7FFF_FFFF - q)) / 0x4000_0000);
  }

  lemma TempVal31(q: int)
    requires -0x8000_0000 <= q < 0x8000_0000
    ensures Unsigned32(0x7FFF_FFFF - Unsigned32(q)) == 0x7FFF_FFFF - q
  {
  }

  /** Each iteration, from any non-negative seed: the product stays below 2^61
      (so the quotient is never over-estimated), and the deficit is squared. */
  lemma Step31Contracts(n: q31, out: q31)
    requires 0x4000_0000 <= n && 0 <= out
    ensures var D := 0x2000_0000_0000_0000 - n * out;
            var D' := 0x2000_0000_0000_0000 - n * Step31(n, out);
            0 <= Step31(n, out) && 0 < D'
            && D * D <= 0x2000_0000_0000_0000 * D'
            && 0x2000_0000_0000_0000 * D' < D * D + 0x2000_0000_0000_0000 * 0x2_0000_0000
  {
    hide Step31;
    var t := 0x7FFF_FFFF - (n * out) / 0x8000_0000;
    NewtonContracts(n, out, 0x8000_0000, 0x4000_0000, t, (out * t) / 0x4000_0000);
    Step31Exact(n, out);
    var P := n * out;
    ProductRange(n, out, 0x8000_0000);
    assert P * 0x8000_0000 < 0x4000_0000_0000_0000 * 0x8000_0000;
    assert 0x2000_0000_0000_0000 * n < 0x2000_0000_0000_0000 * 0x8000_0000;
  }

  /** From a seed within 2^-6 of the reciprocal, two iterations end within 2^38 of
      the target, and never above it. */
  lemma TwoSteps31(n: q31, seed: q31)
    requires 0x4000_0000 <= n && 0 <= seed
    requires Abs(0x2000_0000_0000_0000 - n * seed) <= 0x80_0000_0000_0000
    ensures 0 < 0x2000_0000_0000_0000 - n * Step31(n, Step31(n, seed)) < 0x40_0000_0000
  {
    var D0 := 0x2000_0000_0000_0000 - n * seed;
    Step31Contracts(n, seed);
    SquareBound(D0, 0x80_0000_0000_0000);
    var o1 := Step31(n, seed);
    var D1 := 0x2000_0000_0000_0000 - n * o1;
    assert 0 <= D1 <= 0x2_0002_0000_0000;
    Step31Contracts(n, o1);
    SquareBound(D1, 0x2_0002_0000_0000);
  }

  lemma SquareBound(x: int, b: int)
    requires 0 <= b
    requires -b <= x <= b
    ensures x * x <= b * b
  {
    ProductBound(x, x, b, b);
  }

  /** A seed table is accurate when each entry is within 2^-6 (relative) of the
      reciprocal of every normalised value that selects it. */
  ghost predicate AccurateTable31(table: seq<q31>)
  {
    |table| == 64
    && (forall i :: 0 <= i < 64 ==> 0 <= table[i])
    && forall n: q31 :: 0x4000_0000 <= n ==>
         Abs(0x2000_0000_0000_0000 - n * table[Index31(n)]) <= 0x80_0000_0000_0000
  }

  /** arm_recip_q31 returns 1/x: the product of the input, the output and the
      returned exponent is 1 in 2.62 format, short of it by less than 2^-23. */
  lemma RecipQ31Accurate(x: q31, table: seq<q31>)
    requires 0 < x && AccurateTable31(table)
    ensures 0x4000_0000_0000_0000 - 0x80_0000_0000
          < x * Recip31(x, table) * Pow2(SignBits31(x) + 1)
          < 0x4000_0000_0000_0000
  {
    var n := Normalised31(x);
    var dst := Recip31(x, table);
    Normalise31(x);
    TwoSteps31(n, table[Index31(n)]);
    ScaledProduct(x, dst, Pow2(SignBits31(x)));
  }

  lemma ScaledProduct(x: int, dst: int, p: int)
    ensures x * dst * (2 * p) == 2 * ((x * p) * dst)
  {
    assert x * dst * (2 * p) == 2 * (x * dst * p);
    assert x * dst * p == (x * p) * dst;
  }

  /** The loop takes exactly two steps, from the table entry of the normalised value,
      whatever way that value is found: any shift that brings x into its range is
      the one the code takes. */
  lemma RecipQ31TwoSteps(x: q31, table: seq<q31>, k: nat)
    requires 0 < x && |table| == 64 && 0x4000_0000 <= x * Pow2(k) < 0x8000_0000
    requires 0 <= table[Bucket(x * Pow2(k), 0x100_0000)]
    ensures SignBits31(x) == k
    ensures var n := x * Pow2(k);
            Recip31(x, table) == NewtonStep(n, NewtonStep(n, table[Bucket(n, 0x100_0000)], 0x8000_0000), 0x8000_0000)
  {
    hide Step31, SignBits31, Normalised31, Index31, Pow2, NewtonStep;
    SignBits31Exactly(x, k);
    Normalise31(x);
    var n := x * Pow2(k);
    Index31Value(n);
    ExactSteps31(n, table[Bucket(n, 0x100_0000)]);
  }

  lemma ExactSteps31(n: q31, seed: q31)
    requires 0x4000_0000 <= n && 0 <= seed
    ensures Step31(n, Step31(n, seed)) == NewtonStep(n, NewtonStep(n, seed, 0x8000_0000), 0x8000_0000)
  {
    hide Step31, NewtonStep;
    ExactStep31(n, seed);
    ExactStep31(n, Step31(n, seed));
  }

  lemma ExactStep31(n: q31, out: q31)
    requires 0x4000_0000 <= n && 0 <= out
    ensures Step31(n, out) == NewtonStep(n, out, 0x8000_0000) && 0 <= Step31(n, out)
  {
    hide Step31;
    Step31Exact(n, out);
  }

  /** From any seed that is not negative, the deficit of the result against that of the
      seed, on both sides: the fourth power of the one is the other, with the cost of
      two truncating steps. */
  lemma RecipQ31FromSeed(x: q31, table: seq<q31>)
    requires 0 < x && |table| == 64 && 0 <= table[Index31(Normalised31(x))]
    ensures var n, G := Normalised31(x), 0x2000_0000_0000_0000;
            var D0, D := G - n * table[Index31(n)], G - n * Recip31(x, table);
            (D0 * D0) * (D0 * D0) <= (G * G) * (G * D)
            && (G * G) * (G * D) <
              (D0 * D0 + G * 0x2_0000_0000) * (D0 * D0 + G * 0x2_0000_0000) + (G * G) * (G * 0x2_0000_0000)
  {
    hide Step31, SignBits31, Normalised31, Index31;
    var n := Normalised31(x);
    Normalise31(x);
    var seed := table[Index31(n)];
    Step31Contracts(n, seed);
    var o := Step31(n, seed);
    Step31Contracts(n, o);
    FourthPower(
      0x2000_0000_0000_0000 - n * seed,
      0x2000_0000_0000_0000 - n * o,
      0x2000_0000_0000_0000 - n * Step31(n, o),
      0x2000_0000_0000_0000, 0x2_0000_0000);
  }

  /** The shift for every input: the one that normalises its magnitude, and 31 for 0. */
  lemma SignBits31Exactly(x: q31, k: nat)
    requires -0x8000_0000 < x
    ensures SignBits31(x) == k <==> if x == 0 then k == 31 else 0x4000_0000 <= Abs(x) * Pow2(k) < 0x8000_0000
  {
    hide LeadingZeros;
    SignBitsRange(Abs(x));
    LeadingZerosExactly(Abs(x), k + 1);
    NextShift(Abs(x), k);
  }

  lemma NextShift(a: nat, k: nat)
    ensures a * Pow2(k + 1) == 2 * (a * Pow2(k))
  {
    assert Pow2(k + 1) == 2 * Pow2(k);
    MulAssoc(2, Pow2(k), a);
  }

  /** The table of bucket-midpoint reciprocals. */
  function MidpointTable31(): seq<q31> {
    seq(64, (i: nat) requires i < 64 => MidpointSeed31(i))
  }

  function MidpointSeed31(i: nat): (s: q31)
    requires i < 64
    ensures 0x4000_0000 <= s
  {
    0x40_0000_0000 / (129 + 2 * i)
  }

  /** Accurate tables exist, so the accuracy theorem has instances. */
  lemma MidpointTable31Accurate()
    ensures AccurateTable31(MidpointTable31())
  {
    forall n: q31 | 0x4000_0000 <= n
      ensures Abs(0x2000_0000_0000_0000 - n * MidpointTable31()[Index31(n)]) <= 0x80_0000_0000_0000
    {
      Index31Value(n);
      MidpointSeedError31(n, n / 0x100_0000 - 64);
    }
  }

  lemma MidpointSeedError31(n: int, i: nat)
    requires i < 64 && (64 + i) * 0x100_0000 <= n < (65 + i) * 0x100_0000
    ensures Abs(0x2000_0000_0000_0000 - n * MidpointSeed31(i)) <= 0x80_0000_0000_0000
  {
    var w := 129 + 2 * i;
    var seed, rho := 0x40_0000_0000 / w, 0x40_0000_0000 % w;
    var d := n - w * 0x80_0000;
    assert seed * w == 0x40_0000_0000 - rho;
    assert (w * 0x80_0000 + d) * seed == 0x80_0000 * (seed * w) + d * seed;
    ProductBound(d, seed, 0x80_0000, 0x8000_0000);
  }

  /** One step on exact integers with the saturation of the result. */
  function ClampedStep31(n: int, out: int): q31 {
    Clamp31((out * (0x7FFF_FFFF - (n * out) / 0x8000_0000)) / 0x4000_0000)
  }

  lemma Index31Everywhere(n: q31)
    ensures Index31(n) == (n / 0x100_0000) % 64
  {
    hide And, Unsigned32;
    SignedIndex(n / 0x100_0000);
    AndIndexMask(Unsigned32(n / 0x100_0000));
  }

  lemma SignedIndex(b: int)
    requires -0x80 <= b < 0x80
    ensures Unsigned32(b) % 64 == b % 64
  {
  }

  /** For every input the code can take and any table whatever: two saturated steps
      from the entry that six bits of the normalised value select. */
  lemma RecipQ31Everywhere(x: q31, table: seq<q31>, k: nat)
    requires -0x8000_0000 < x && |table| == 64
    requires if x == 0 then k == 31 else 0x4000_0000 <= Abs(x) * Pow2(k) < 0x8000_0000
    ensures var n := x * Pow2(k);
            Recip31(x, table) == ClampedStep31(n, ClampedStep31(n, table[(n / 0x100_0000) % 64]))
  {
    hide Step31, SignBits31, Normalised31, Index31, Pow2;
    SignBits31Exactly(x, k);
    if x > 0 {
      Normalise31(x);
    } else {
      NormaliseNegative31(x);
    }
    var n := Normalised31(x);
    Index31Everywhere(n);
    var seed := table[Index31(n)];
    Step31Everywhere(n, seed);
    Step31Everywhere(n, Step31(n, seed));
  }

  /** For an input that is not positive the subtraction of the negative product
      adds instead: from any accurate table the output is the largest q31, whatever
      the input. */
  lemma RecipQ31NonPositive(x: q31, table: seq<q31>)
    requires -0x8000_0000 < x <= 0 && AccurateTable31(table)
    ensures Recip31(x, table) == 0x7FFF_FFFF
  {
    hide Normalised31, Step31, AccurateTable31;
    var n := Normalised31(x);
    NormaliseNegative31(x);
    AccurateSeed31(table, Index31(n));
    Step31Grows(n, table[Index31(n)]);
    Step31Grows(n, Step31(n, table[Index31(n)]));
  }

  /** The result is a reciprocal exactly for positive inputs. */
  lemma RecipQ31Exactly(x: q31, table: seq<q31>)
    requires -0x8000_0000 < x && AccurateTable31(table)
    ensures 0x4000_0000_0000_0000 - 0x80_0000_0000
          < x * Recip31(x, table) * Pow2(SignBits31(x) + 1)
          < 0x4000_0000_0000_0000
       <==> 0 < x
  {
    hide AccurateTable31, Recip31, SignBits31, Pow2;
    assert |table| == 64 by { AccurateSeed31(table, 0); }
    if 0 < x {
      RecipQ31Accurate(x, table);
    } else {
      RecipQ31NonPositive(x, table);
      MulMonotone(x * 0x7FFF_FFFF, 0, Pow2(SignBits31(x) + 1));
    }
  }

  /** An accurate table is close to the reciprocal at the left end of each bucket,
      so no entry is below 63/128. */
  lemma AccurateSeed31(table: seq<q31>, i: nat)
    requires i < 64 && AccurateTable31(table)
    ensures |table| == 64 && 0x3F00_0000 <= table[i]
  {
    hide Index31;
    var n: q31 := (64 + i) * 0x100_0000;
    Index31Value(n);
    MulMonotone(n, 0x8000_0000, table[i]);
  }

  lemma NormaliseNegative31(x: q31)
    requires -0x8000_0000 < x <= 0
    ensures Normalised31(x) == x * Pow2(SignBits31(x))
    ensures if x == 0 then Normalised31(x) == 0 else -0x8000_0000 < Normalised31(x) <= -0x4000_0000
  {
    hide SignBits31, Pow2;
    if x < 0 {
      SignBits31Exactly(x, SignBits31(x));
      var p := Pow2(SignBits31(x));
      assert x * p == -((-x) * p);
    }
  }

  /** Without a positive product to subtract, a step all but doubles its seed. */
  lemma Step31Grows(n: q31, out: q31)
    requires -0x8000_0000 < n <= 0 && 0x3F00_0000 <= out
    ensures 0x4000_0000 <= Step31(n, out)
    ensures 0x4000_0000 <= out ==> Step31(n, out) == 0x7FFF_FFFF
  {
    hide Step31;
    var y := AddedProduct(n, out);
    Step31Everywhere(n, out);
    GrownProduct(out, 0x7FFF_FFFF + y);
  }

  lemma AddedProduct(n: q31, out: q31) returns (y: int)
    requires n <= 0 && 0 <= out
    ensures y == -((n * out) / 0x8000_0000) && 0 <= y <= 0x8000_0000
  {
    y := -((n * out) / 0x8000_0000);
    ProductBound(n, out, 0x8000_0000, 0x8000_0000);
    MulMonotone(n, 0, out);
  }

  lemma GrownProduct(out: int, t: int)
    requires 0x3F00_0000 <= out && 0x7FFF_FFFF <= t
    ensures 0x4000_0000 <= (out * t) / 0x4000_0000
    ensures 0x4000_0000 <= out ==> 0x7FFF_FFFF <= (out * t) / 0x4000_0000
  {
    ProductAtLeast(out, t, 0x3F00_0000, 0x7FFF_FFFF);
    if 0x4000_0000 <= out {
      ProductAtLeast(out, t, 0x4000_0000, 0x7FFF_FFFF);
    }
  }

  // ----- Q15 -----

  function SignBits15(x: q15): nat
    requires -0x8000 < x
  {
    Small15LeadingZeros(Abs(x));
    LeadingZeros(Abs(x)) - 17
  }

  lemma Small15LeadingZeros(a: nat)
    requires a < 0x8000
    ensures 17 <= LeadingZeros(a)
  {
    assert Pow2(15) == 0x8000;
    BitLengthBound(a, 15);
  }

  function Normalised15(x: q15): q15
    requires -0x8000 < x
  {
    Wrap16(x * Pow2(SignBits15(x)))
  }

  function Index15(n: q15): (i: nat)
    ensures i < 64
  {
    AndBound(Unsigned32(n / 0x100), INDEX_MASK);
    And(Unsigned32(n / 0x100), INDEX_MASK)
  }

  /** One iteration: `(q31_t) out * tempVal` is computed in uint32_t, and the
      narrowing to q15_t is a plain cast; the clip is commented out. */
  function Step15(n: q15, out: q15): q15 {
    var tempVal := Unsigned32(0x7FFF - Unsigned32(Product31(n, out) / 0x8000));
    Wrap16(Unsigned32(out * tempVal) / 0x4000)
  }

  function Recip15(x: q15, table: seq<q15>): q15
    requires -0x8000 < x && |table| == 64
  {
    var n := Normalised15(x);
    Step15(n, Step15(n, table[Index15(n)]))
  }

  method ArmRecipQ15(x: q15, table: seq<q15>) returns (dst: q15, shift: uint32)
    requires -0x8000 < x
    requires |table| == 64
    ensures dst == Recip15(x, table)
    ensures shift == SignBits15(x) + 1
  {
    hide LeadingZeros, Wrap16, And, Unsigned32;
    var signBits: nat := 0;
    Small15LeadingZeros(Abs(x));
    if x > 0 {
      var zeros := CountLeadingZeros(x);
      signBits := zeros - 17;
    } else {
      var zeros := CountLeadingZeros(-x);
      signBits := zeros - 17;
    }
    var n := Wrap16(x * Pow2(signBits));
    var index := And(Unsigned32(n / 0x100), INDEX_MASK);
    AndBound(Unsigned32(n / 0x100), INDEX_MASK);
    var out := table[index];
    var i := 0;
    while i < 2
      invariant 0 <= i <= 2
      invariant out == if i == 0 then table[Index15(n)]
                       else if i == 1 then Step15(n, table[Index15(n)])
                       else Recip15(x, table)
    {
      var tempVal: int := Unsigned32(Product31(n, out) / 0x8000);
      tempVal := Unsigned32(0x7FFF - tempVal);
      out := Wrap16(Unsigned32(out * tempVal) / 0x4000);
      i := i + 1;
    }
    dst := out;
    shift := signBits + 1;
  }

  lemma Normalise15(x: q15)
    requires 0 < x
    ensures Normalised15(x) == x * Pow2(SignBits15(x))
    ensures 0x4000 <= Normalised15(x) < 0x8000
  {
    Small15LeadingZeros(x);
    var c := LeadingZeros(x);
    LeadingZerosNormalise(x);
    SplitShift(x, c - 17);
    hide Pow2, LeadingZeros;
    assert 0x4000 <= x * Pow2(c - 17) < 0x8000;
  }

  lemma SplitShift(x: int, k: nat)
    ensures x * Pow2(k + 17) == (x * Pow2(k)) * 0x2_0000
  {
    Pow2Values();
    hide Pow2;
    Pow2Add(k, 17);
    MulAssoc(x, Pow2(k), 0x2_0000);
  }

  lemma Index15Value(n: q15)
    requires 0x4000 <= n
    ensures Index15(n) == n / 0x100 - 64
  {
    hide And, Unsigned32;
    var b := n / 0x100;
    assert 64 <= b < 128;
    assert Unsigned32(b) == b by { SmallUnsigned(b); }
    AndIndexMask(b);
  }

  /** On normalised values the uint32_t product does not wrap and the cast to
      q15_t changes nothing: the commented-out clip is redundant. */
  lemma Step15Exact(n: q15, out: q15)
    requires 0x4000 <= n && 0 <= out
    ensures 0 <= 0x7FFF - (n * out) / 0x8000
    ensures Step15(n, out) == (out * (0x7FFF - (n * out) / 0x8000)) / 0x4000
         == ClipQ31ToQ15((out * (0x7FFF - (n * out) / 0x8000)) / 0x4000)
    ensures 0 <= Step15(n, out)
  {
    var q := (n * out) / 0x8000;
    var t := 0x7FFF - q;
    var next := (out * t) / 0x4000;
    NewtonContracts(n, out, 0x8000, 0x4000, t, next);
    ProductRange(out, t, 0x8000);
    SmallUnsigned(q);
    SmallUnsigned(t);
    SmallUnsigned(out * t);
    ClipQ31ToQ15IsClamp(next);
    hide Unsigned32, ClipQ31ToQ15, Wrap16;
    assert Step15(n, out) == Wrap16(next);
  }

  /** Each iteration from any non-negative seed keeps the product below 2^29 and
      squares the deficit. */
  lemma Step15Contracts(n: q15, out: q15)
    requires 0x4000 <= n && 0 <= out
    ensures var D := 0x2000_0000 - n * out;
            var D' := 0x2000_0000 - n * Step15(n, out);
            0 <= Step15(n, out) && 0 < D'
            && D * D <= 0x2000_0000 * D'
            && 0x2000_0000 * D' < D * D + (n * out) * 0x8000 + 0x2000_0000 * n
            && 0x2000_0000 * D' < D * D + 0x2000_0000 * 0x2_0000
  {
    hide Step15;
    var t := 0x7FFF - (n * out) / 0x8000;
    NewtonContracts(n, out, 0x8000, 0x4000, t, (out * t) / 0x4000);
    Step15Exact(n, out);
    ProductRange(n, out, 0x8000);
    CostBound15(n * out, n);
  }

  lemma CostBound15(P: int, n: int)
    requires P < 0x4000_0000 && n < 0x8000
    ensures P * 0x8000 + 0x2000_0000 * n < 0x2000_0000 * 0x2_0000
  {
  }

  lemma TwoSteps15(n: q15, seed: q15)
    requires 0x4000 <= n && 0 <= seed
    requires Abs(0x2000_0000 - n * seed) <= 0x80_0000
    ensures 0 < 0x2000_0000 - n * Step15(n, Step15(n, seed)) < 0x1_0100
  {
    var D0 := 0x2000_0000 - n * seed;
    Step15Contracts(n, seed);
    SquareBound(D0, 0x80_0000);
    var o1 := Step15(n, seed);
    var D1 := 0x2000_0000 - n * o1;
    assert 0 <= D1 <= 0x4_0000;
    Step15Contracts(n, o1);
    SquareBound(D1, 0x4_0000);
  }

  ghost predicate AccurateTable15(table: seq<q15>)
  {
    |table| == 64
    && (forall i :: 0 <= i < 64 ==> 0 <= table[i])
    && forall n: q15 :: 0x4000 <= n ==>
         Abs(0x2000_0000 - n * table[Index15(n)]) <= 0x80_0000
  }

  /** arm_recip_q15 returns 1/x: input times output times 2^shift is 1 in 2.30
      format, short of it by less than 2^17 + 2^9 (relative error about 2^-13). */
  lemma RecipQ15Accurate(x: q15, table: seq<q15>)
    requires 0 < x && AccurateTable15(table)
    ensures 0x4000_0000 - 0x2_0200 < x * Recip15(x, table) * Pow2(SignBits15(x) + 1) < 0x4000_0000
  {
    var n := Normalised15(x);
    Normalise15(x);
    TwoSteps15(n, table[Index15(n)]);
    ScaledProduct(x, Recip15(x, table), Pow2(SignBits15(x)));
  }

  /** The loop takes exactly two steps, from the table entry of the normalised value,
      whatever way that value is found: any shift that brings x into its range is
      the one the code takes. */
  lemma RecipQ15TwoSteps(x: q15, table: seq<q15>, k: nat)
    requires 0 < x && |table| == 64 && 0x4000 <= x * Pow2(k) < 0x8000
    requires 0 <= table[Bucket(x * Pow2(k), 0x100)]
    ensures SignBits15(x) == k
    ensures var n := x * Pow2(k);
            Recip15(x, table) == NewtonStep(n, NewtonStep(n, table[Bucket(n, 0x100)], 0x8000), 0x8000)
  {
    hide Step15, SignBits15, Normalised15, Index15, Pow2, NewtonStep;
    SignBits15Exactly(x, k);
    Normalise15(x);
    var n := x * Pow2(k);
    Index15Value(n);
    ExactSteps15(n, table[Bucket(n, 0x100)]);
  }

  lemma ExactSteps15(n: q15, seed: q15)
    requires 0x4000 <= n && 0 <= seed
    ensures Step15(n, Step15(n, seed)) == NewtonStep(n, NewtonStep(n, seed, 0x8000), 0x8000)
  {
    hide Step15, NewtonStep;
    ExactStep15(n, seed);
    ExactStep15(n, Step15(n, seed));
  }

  lemma ExactStep15(n: q15, out: q15)
    requires 0x4000 <= n && 0 <= out
    ensures Step15(n, out) == NewtonStep(n, out, 0x8000) && 0 <= Step15(n, out)
  {
    hide Step15, ClipQ31ToQ15;
    Step15Exact(n, out);
  }

  /** From any seed that is not negative, the deficit of the result against that of the
      seed, on both sides: the fourth power of the one is the other, with the cost of
      two truncating steps. */
  lemma RecipQ15FromSeed(x: q15, table: seq<q15>)
    requires 0 < x && |table| == 64 && 0 <= table[Index15(Normalised15(x))]
    ensures var n, G := Normalised15(x), 0x2000_0000;
            var D0, D := G - n * table[Index15(n)], G - n * Recip15(x, table);
            (D0 * D0) * (D0 * D0) <= (G * G) * (G * D)
            && (G * G) * (G * D) < (D0 * D0 + G * 0x2_0000) * (D0 * D0 + G * 0x2_0000) + (G * G) * (G * 0x2_0000)
  {
    hide Step15, SignBits15, Normalised15, Index15;
    var n := Normalised15(x);
    Normalise15(x);
    var seed := table[Index15(n)];
    Step15Contracts(n, seed);
    var o := Step15(n, seed);
    Step15Contracts(n, o);
    FourthPower(0x2000_0000 - n * seed, 0x2000_0000 - n * o, 0x2000_0000 - n * Step15(n, o), 0x2000_0000, 0x2_0000);
  }

  lemma SignBits15Exactly(x: q15, k: nat)
    requires -0x8000 < x
    ensures SignBits15(x) == k <==> if x == 0 then k == 15 else 0x4000 <= Abs(x) * Pow2(k) < 0x8000
  {
    hide LeadingZeros;
    Small15LeadingZeros(Abs(x));
    LeadingZerosExactly(Abs(x), k + 17);
    SplitShift(Abs(x), k);
  }

  function MidpointTable15(): seq<q15> {
    seq(64, (i: nat) requires i < 64 => MidpointSeed15(i))
  }

  function MidpointSeed15(i: nat): (s: q15)
    requires i < 64
    ensures 0x4000 <= s
  {
    0x40_0000 / (129 + 2 * i)
  }

  lemma MidpointTable15Accurate()
    ensures AccurateTable15(MidpointTable15())
  {
    forall n: q15 | 0x4000 <= n
      ensures Abs(0x2000_0000 - n * MidpointTable15()[Index15(n)]) <= 0x80_0000
    {
      Index15Value(n);
      MidpointSeedError15(n, n / 0x100 - 64);
    }
  }

  lemma MidpointSeedError15(n: int, i: nat)
    requires i < 64 && (64 + i) * 0x100 <= n < (65 + i) * 0x100
    ensures Abs(0x2000_0000 - n * MidpointSeed15(i)) <= 0x80_0000
  {
    var w := 129 + 2 * i;
    var seed, rho := 0x40_0000 / w, 0x40_0000 % w;
    var d := n - w * 0x80;
    assert seed * w == 0x40_0000 - rho;
    assert (w * 0x80 + d) * seed == 0x80 * (seed * w) + d * seed;
    ProductBound(d, seed, 0x80, 0x8000);
  }

  /** For negative inputs the q15 version wraps instead of saturating: from the
      midpoint table, the "reciprocal" of -1 is the positive value 28717. */
  lemma RecipQ15NegativeExample()
    ensures Recip15(-1, MidpointTable15()) == 28717
  {
    NormalisedMinusOne();
    hide Normalised15, Index15;
    assert MidpointTable15()[0] == 32513;
    NegativeExampleSteps();
  }

  lemma NormalisedMinusOne()
    ensures Normalised15(-1) == -0x4000
    ensures Index15(-0x4000) == 0
  {
    Pow2Values();
    assert LeadingZeros(1) == 31;
    assert Unsigned32(-0x40) == 0xFFFF_FFC0;
    AndIndexMask(0xFFFF_FFC0);
    hide And, Pow2, LeadingZeros;
    assert SignBits15(-1) == 14;
  }

  lemma NegativeExampleSteps()
    ensures Step15(-0x4000, 32513) == 31748 && Step15(-0x4000, 31748) == 28717
  {
    NegativeStep(32513, -16257, 49024, 97284);
    NegativeStep(31748, -15874, 48641, 94253);
  }

  lemma NegativeStep(out: q15, p: int, t: nat, v: nat)
    requires 0 <= out && p == (-0x4000 * out) / 0x8000 && t == 0x7FFF - p
    requires out * t < 0x1_0000_0000 && v == (out * t) / 0x4000
    requires 0x8000 <= v < 0x1_8000
    ensures Step15(-0x4000, out) == v - 0x1_0000
  {
    assert Unsigned32(p) == if p < 0 then 0x1_0000_0000 + p else p;
    assert Unsigned32(0x7FFF - Unsigned32(p)) == t;
    SmallProduct(out, t);
    hide Unsigned32;
    WrapAt(v, 0x8000, 1);
    assert Wrap16(v) == v - 0x1_0000;
  }

  lemma SmallProduct(x: nat, y: nat)
    requires x * y < 0x1_0000_0000
    ensures Unsigned32(x * y) == x * y
  {
    assert 0 <= x * y;
  }
}
