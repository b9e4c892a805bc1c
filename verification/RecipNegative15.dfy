/** arm_recip_q15 for inputs that are not positive. Its two steps are then Newton
    steps towards the negative reciprocal, but the results leave the q15 range and
    wrap, so the outcome depends on where in the range the input and the seed are. */
module RecipNegative15 {
  import opened Bits
  import opened FixedPoint
  import opened Reciprocal

  // ----- one step at n == -N -----

  /** The step before its cast to q15_t. */
  function Raw(N: int, o: int): int {
    (o * (0x7FFF - (-(N * o)) / 0x8000)) / 0x4000
  }

  lemma StepIsWrappedRaw(N: int, o: q15)
    requires -0x8000 < N < 0x8000
    ensures Step15(-N, o) == Wrap16(Raw(N, o))
  {
    hide Step15, Unsigned32, Wrap16;
    var q := (-(N * o)) / 0x8000;
    ProductBound(N, o, 0x7FFF, 0x8000);
    QuotientFits(N * o);
    StepUnfolded(N, o, q);
    UnsignedProduct(o * (0x7FFF - q));
  }

  lemma StepUnfolded(N: int, o: q15, q: int)
    requires -0x8000 < N < 0x8000 && q == (-(N * o)) / 0x8000 && -0x7FFF <= q <= 0x7FFF
    ensures Step15(-N, o) == Wrap16(Unsigned32(o * (0x7FFF - q)) / 0x4000)
  {
    hide Unsigned32, Wrap16;
    TempVal(q);
    NegatedProduct(N, o);
  }

  lemma NegatedProduct(N: int, o: int)
    ensures (-N) * o == -(N * o)
  {
  }

  lemma QuotientFits(p: int)
    requires -0x7FFF * 0x8000 <= p <= 0x7FFF * 0x8000
    ensures -0x7FFF <= (-p) / 0x8000 <= 0x7FFF
  {
  }

  lemma TempVal(q: int)
    requires -0x7FFF <= q <= 0x7FFF
    ensures Unsigned32(0x7FFF - Unsigned32(q)) == 0x7FFF - q
  {
  }

  /** The uint32_t product differs by a multiple of 2^32, which the shift and the
      narrowing lose. */
  lemma UnsignedProduct(p: int)
    ensures Wrap16(Unsigned32(p) / 0x4000) == Wrap16(p / 0x4000)
  {
    var k := p / 0x1_0000_0000;
    assert Unsigned32(p) / 0x4000 == p / 0x4000 - k * 4 * 0x1_0000;
    Wrap16Shift(p / 0x4000, k * 4);
  }

  lemma Wrap16Shift(v: int, i: int)
    ensures Wrap16(v - i * 0x1_0000) == Wrap16(v)
  {
    var k := (v + 0x8000) / 0x1_0000;
    WrapAt(v, 0x8000, k);
    WrapAt(v - i * 0x1_0000, 0x8000, k - i);
  }

  /** How far n * o is below 1 in 2.29 format. */
  function Deficit(N: int, o: int): int {
    0x2000_0000 + N * o
  }

  /** The step squares the deficit, up to its two truncations. */
  lemma RawSquaresDeficit(N: int, o: q15)
    requires -0x8000 < N < 0x8000
    ensures var D := Deficit(N, o);
            D * D - 0x4000_0000_0000 <= 0x2000_0000 * Deficit(N, Raw(N, o)) <= D * D + 0x4000_0000_0000
  {
    var n, P := -N, -(N * o);
    var q, r := P / 0x8000, P % 0x8000;
    var t := 0x7FFF - q;
    var next, s := (o * t) / 0x4000, (o * t) % 0x4000;
    NegatedProduct(N, o);
    NegatedProduct(N, next);
    NewtonAlgebra(n, o, 0x8000, 0x4000, P, q, r, t, next, s);
    ProductBound(N, o, 0x8000, 0x8000);
    ProductBound(P, 0x8000 - r, 0x4000_0000, 0x8000);
    ProductBound(n, s, 0x8000, 0x4000);
  }

  /** Larger inputs and seeds give a larger step. */
  lemma RawMonotone(N0: int, N: int, s0: int, s: int)
    requires 0 <= N0 <= N < 0x8000 && 0 <= s0 <= s
    ensures Raw(N0, s0) <= Raw(N, s)
  {
    MulMonotone(N0, N, s0);
    MulMonotone(s0, s, N);
    MulMonotone(0, N0, s0);
    var t0, t := 0x7FFF - (-(N0 * s0)) / 0x8000, 0x7FFF - (-(N * s)) / 0x8000;
    Antitone(N0 * s0, N * s);
    MulMonotone(s0, s, t0);
    MulMonotone(t0, t, s);
    Shifted(s0 * t0, s * t);
  }

  lemma Antitone(x: int, y: int)
    requires 0 <= x <= y
    ensures 0x7FFF <= 0x7FFF - (-x) / 0x8000 <= 0x7FFF - (-y) / 0x8000
  {
  }

  lemma Shifted(x: int, y: int)
    requires x <= y
    ensures x / 0x4000 <= y / 0x4000
  {
  }

  // ----- inputs and seeds that miss -----

  // The output is good when its deficit is in (0, 2^16 + 2^8). The deficit of the
  // unwrapped output is then in one of the bands (2^16 * N * k, 2^16 * N * k + 2^16 + 2^8).

  function Low(N0: int, N1: int, a: int): int {
    Deficit(if a >= 0 then N0 else N1, a)
  }

  function High(N0: int, N1: int, b: int): int {
    Deficit(if b >= 0 then N1 else N0, b)
  }

  /** Intermediate results in [a, b] of inputs in [N0, N1] have a deficit between lo
      and hi in magnitude. */
  predicate Within(N0: nat, N1: nat, a: int, b: int, lo: nat, hi: nat) {
    (Low(N0, N1, a) >= lo || High(N0, N1, b) + lo <= 0)
    && 0 <= Low(N0, N1, a) + hi && High(N0, N1, b) <= hi
  }

  /** Squared, such deficits are strictly between the bands k and k + 1. */
  predicate Between(N0: nat, N1: nat, k: nat, lo: nat, hi: nat) {
    0x2000_0000 * (N1 * k * 0x1_0000 + 0x1_0100) <= lo * lo - 0x4000_0000_0000
    && hi * hi + 0x4000_0000_0000 <= 0x2000_0000 * (N0 * (k + 1) * 0x1_0000)
  }

  /** The intermediate results in [z0, z1], unwrapped, that wrap by `turn` turns. */
  predicate TurnWithin(N0: nat, N1: nat, z0: int, z1: int, turn: int, lo: nat, hi: nat) {
    var a := if z0 - 0x1_0000 * turn <= -0x8000 then -0x8000 else z0 - 0x1_0000 * turn;
    var b := if z1 - 0x1_0000 * turn >= 0x7FFF then 0x7FFF else z1 - 0x1_0000 * turn;
    a <= b ==> Within(N0, N1, a, b, lo, hi)
  }

  const NEAR: nat := 0x100_0000
  const FAR: nat := 0x2800_0000

  /** No input -N with N in [N0, N1] and seed in [s0, s1] gives a good output. */
  predicate Misses(N0: nat, N1: nat, s0: nat, s1: nat, turn: nat, k: nat, lo: nat, hi: nat) {
    var z0, z1 := Raw(N0, s0), Raw(N1, s1);
    0x1_0000 * turn - 0x8000 <= z0 && z1 < 0x1_0000 * (turn + 1) + 0x8000
    && TurnWithin(N0, N1, z0, z1, turn, lo, hi) && Between(N0, N1, k, lo, hi)
    && TurnWithin(N0, N1, z0, z1, turn + 1, NEAR, FAR) && Between(N0, N1, 0, NEAR, FAR)
  }

  predicate Good(N: int, out: int) {
    0 < Deficit(N, out) < 0x1_0100
  }

  lemma DeficitRange(N0: nat, N: int, N1: nat, a: int, o: int, b: int)
    requires N0 <= N <= N1 && a <= o <= b
    ensures Low(N0, N1, a) <= Deficit(N, o) <= High(N0, N1, b)
  {
    MulMonotone(a, o, N);
    MulMonotone(o, b, N);
    if a >= 0 {
      MulMonotone(N0, N, a);
    } else {
      MulMonotone(N, N1, 0 - a);
    }
    if b >= 0 {
      MulMonotone(N, N1, b);
    } else {
      MulMonotone(N0, N, 0 - b);
    }
  }

  lemma SquareRange(d: int, lo: nat, hi: nat)
    requires lo <= d <= hi || lo <= -d <= hi
    ensures lo * lo <= d * d <= hi * hi
  {
    if d >= 0 {
      ProductAtLeast(d, d, lo, lo);
      ProductAtLeast(hi, hi, d, d);
    } else {
      ProductAtLeast(0 - d, 0 - d, lo, lo);
      ProductAtLeast(hi, hi, 0 - d, 0 - d);
    }
  }

  /** An unwrapped output strictly between two bands wraps to no good output. */
  lemma BetweenMisses(N0: nat, N1: nat, a: int, b: int, k: nat, lo: nat, hi: nat, N: int, o: q15)
    requires N0 <= N <= N1 && N < 0x8000 && a <= o <= b
    requires Within(N0, N1, a, b, lo, hi) && Between(N0, N1, k, lo, hi)
    ensures !Good(N, Wrap16(Raw(N, o)))
  {
    hide Wrap16, Raw, Low, High, Deficit;
    var D, z := Deficit(N, o), Raw(N, o);
    RawSquaresDeficit(N, o);
    DeficitRange(N0, N, N1, a, o, b);
    SquareRange(D, lo, hi);
    var turns := (z + 0x8000) / 0x1_0000;
    WrapQuotient16(z);
    WrappedDeficit(N, z, turns);
    BandsApart(N0, N, N1, k, turns);
  }

  lemma WrapQuotient16(z: int)
    ensures Wrap16(z) == z - 0x1_0000 * ((z + 0x8000) / 0x1_0000)
  {
    WrapAt(z, 0x8000, (z + 0x8000) / 0x1_0000);
  }

  lemma WrappedDeficit(N: int, z: int, turns: int)
    ensures Deficit(N, z - 0x1_0000 * turns) == Deficit(N, z) - N * turns * 0x1_0000
  {
    Distribute(z, 0x1_0000 * turns, N);
    SwapFactors(0x1_0000, turns, N);
    assert N * (0x1_0000 * turns) == N * turns * 0x1_0000;
  }

  lemma BandsApart(N0: nat, N: int, N1: nat, k: nat, turns: int)
    requires N0 <= N <= N1
    ensures turns <= k ==> N * turns <= N1 * k
    ensures turns >= k + 1 ==> N * turns >= N0 * (k + 1)
  {
    if turns <= k {
      MulMonotone(turns, k, N);
      MulMonotone(N, N1, k);
    } else {
      MulMonotone(k + 1, turns, N);
      MulMonotone(N0, N, k + 1);
    }
  }

  lemma MissesEverywhere(N0: nat, N1: nat, s0: nat, s1: nat, turn: nat, k: nat, lo: nat, hi: nat, N: int, s: q15)
    requires Misses(N0, N1, s0, s1, turn, k, lo, hi)
    requires N0 <= N <= N1 < 0x8000 && s0 <= s <= s1
    ensures !Good(N, Step15(-N, Step15(-N, s)))
  {
    hide Raw, Between, TurnWithin, Good, Step15, Wrap16;
    var z0, z, z1 := Raw(N0, s0), Raw(N, s), Raw(N1, s1);
    RawMonotone(N0, N, s0, s);
    RawMonotone(N, N1, s, s1);
    StepIsWrappedRaw(N, s);
    WrapQuotient16(z);
    var o := Wrap16(z);
    StepIsWrappedRaw(N, o);
    if o == z - 0x1_0000 * turn {
      TurnMisses(N0, N1, z0, z1, turn, k, lo, hi, N, z, o);
    } else {
      TurnMisses(N0, N1, z0, z1, turn + 1, 0, NEAR, FAR, N, z, o);
    }
  }

  lemma TurnMisses(N0: nat, N1: nat, z0: int, z1: int, turn: int, k: nat, lo: nat, hi: nat,
                   N: int, z: int, o: q15)
    requires TurnWithin(N0, N1, z0, z1, turn, lo, hi) && Between(N0, N1, k, lo, hi)
    requires N0 <= N <= N1 < 0x8000 && z0 <= z <= z1 && o == z - 0x1_0000 * turn
    ensures !Good(N, Wrap16(Raw(N, o)))
  {
    hide Between, Within, Good, Wrap16, Raw;
    var a := if z0 - 0x1_0000 * turn <= -0x8000 then -0x8000 else z0 - 0x1_0000 * turn;
    var b := if z1 - 0x1_0000 * turn >= 0x7FFF then 0x7FFF else z1 - 0x1_0000 * turn;
    BetweenMisses(N0, N1, a, b, k, lo, hi, N, o);
  }

  // ----- accurate tables -----

  /** For every input the code can take and any table whatever: two wrapped steps from
      the entry that six bits of the normalised value select. */
  lemma RecipQ15Everywhere(x: q15, table: seq<q15>, k: nat)
    requires -0x8000 < x && |table| == 64
    requires if x == 0 then k == 15 else 0x4000 <= Abs(x) * Pow2(k) < 0x8000
    ensures var n := x * Pow2(k);
            Recip15(x, table) == Wrap16(Raw(-n, Wrap16(Raw(-n, table[(n / 0x100) % 64]))))
  {
    hide Step15, SignBits15, Normalised15, Index15, Pow2, Raw, Wrap16;
    SignBits15Exactly(x, k);
    if x > 0 {
      Normalise15(x);
    } else if x < 0 {
      NormaliseNegative15(x);
    } else {
      NormaliseZero();
    }
    var n: int := Normalised15(x);
    Index15Everywhere(n);
    var seed := table[Index15(n)];
    StepIsWrappedRaw(-n, seed);
    StepIsWrappedRaw(-n, Step15(n, seed));
  }

  lemma NormaliseZero()
    ensures Normalised15(0) == 0 == 0 * Pow2(SignBits15(0))
  {
    hide Pow2, SignBits15;
  }

  lemma Index15Everywhere(n: q15)
    ensures Index15(n) == (n / 0x100) % 64
  {
    hide And, Unsigned32;
    SignedIndex(n / 0x100);
    AndIndexMask(Unsigned32(n / 0x100));
  }

  /** The bucket of an input -N. */
  lemma NegativeIndex(N: int)
    requires 0x4000 <= N < 0x8000
    ensures Index15(-N) == if N == 0x4000 then 0 else (0x8000 - N) / 0x100
  {
    hide Index15;
    Index15Everywhere(-N);
  }

  /** The seed an accurate table has in bucket i, by the two ends of the bucket. */
  predicate SeedFits(i: int, s: int) {
    (64 + i) * 0x100 * s >= 0x1F80_0000 && ((65 + i) * 0x100 - 1) * s <= 0x2080_0000
  }

  lemma AccurateSeed15(table: seq<q15>, i: nat)
    requires i < 64 && AccurateTable15(table)
    ensures |table| == 64 && 0 <= table[i] && SeedFits(i, table[i])
  {
    hide Index15;
    var n: q15, n': q15 := (64 + i) * 0x100, (65 + i) * 0x100 - 1;
    Index15Value(n);
    Index15Value(n');
  }

  /** Such a seed can replace the one in the table. */
  lemma ReplaceSeed(table: seq<q15>, i: nat, s: q15)
    requires i < 64 && AccurateTable15(table) && 0 <= s && SeedFits(i, s)
    ensures AccurateTable15(table[i := s])
  {
    hide Index15;
    forall n: q15 | 0x4000 <= n
      ensures Abs(0x2000_0000 - n * table[i := s][Index15(n)]) <= 0x80_0000
    {
      Index15Value(n);
      if Index15(n) == i {
        MulMonotone((64 + i) * 0x100, n, s);
        MulMonotone(n, (65 + i) * 0x100 - 1, s);
      }
    }
  }

  /** Seeds of the buckets i to j are in [s0, s1]. */
  predicate SeedsBetween(i: nat, j: nat, s0: nat, s1: nat) {
    (64 + j) * 0x100 * (s0 - 1) < 0x1F80_0000
    && (s1 == 0x7FFF || ((65 + i) * 0x100 - 1) * (s1 + 1) > 0x2080_0000)
  }

  /** Inputs of the buckets i to j, with any accurate table. */
  lemma GroupMisses(i: nat, j: nat, s0: nat, s1: nat, turn: nat, k: nat, lo: nat, hi: nat,
                    N0: nat, N1: nat, N: int, table: seq<q15>)
    requires i <= j < 64 && N0 == 0x7F01 - 0x100 * j && N1 == if i == 0 then 0x7FFF else 0x8000 - 0x100 * i
    requires Misses(N0, N1, s0, s1, turn, k, lo, hi)
    requires SeedsBetween(i, j, s0, s1)
    requires N0 <= N <= N1 && AccurateTable15(table)
    ensures |table| == 64 && !Good(N, Step15(-N, Step15(-N, table[Index15(-N)])))
  {
    hide Misses, Good, Step15, Index15, AccurateTable15, SeedsBetween, SeedFits;
    NegativeIndex(N);
    var b := Index15(-N);
    assert i <= b <= j;
    AccurateSeed15(table, b);
    SeedInGroup(i, j, b, table[b], s0, s1);
    MissesEverywhere(N0, N1, s0, s1, turn, k, lo, hi, N, table[b]);
  }

  lemma SeedInGroup(i: nat, j: nat, b: nat, s: q15, s0: nat, s1: nat)
    requires i <= b <= j && 0 <= s && SeedFits(b, s)
    requires SeedsBetween(i, j, s0, s1)
    ensures s0 <= s <= s1
  {
    MulMonotone((64 + b) * 0x100, (64 + j) * 0x100, s);
    MulMonotone((65 + i) * 0x100 - 1, (65 + b) * 0x100 - 1, s);
    if s < s0 {
      MulMonotone(s, s0 - 1, (64 + j) * 0x100);
    }
    if s > s1 {
      MulMonotone(s1 + 1, s, (65 + i) * 0x100 - 1);
    }
  }

  /** The buckets in which some accurate seed is good for some input. */
  predicate Exceptional(i: int) {
    i == 5 || i == 12 || i == 19 || i == 20
  }

  lemma HighestInputsMiss()
    ensures Misses(31745, 32767, 30812, 32767, 2, 0, NEAR, 0x3EC0_0000)
    ensures Misses(31489, 31744, 30359, 30870, 2, 0, NEAR, 0x3E80_0000)
  {
  }

  lemma HighInputsMiss()
    ensures Misses(29953, 31232, 27898, 30000, 2, 0, NEAR, 0x3D00_0000)
    ensures Misses(29697, 29952, 27526, 28026, 1, 2, 0x56C0_0000, 0x6980_0000)
  {
  }

  lemma MiddleInputsMiss()
    ensures Misses(28929, 29440, 26467, 27308, 1, 1, 0x3CC0_0000, 0x5500_0000)
    ensures Misses(27905, 28928, 25176, 26625, 1, 1, 0x3C40_0000, 0x5380_0000)
  {
  }

  lemma LowInputsMiss()
    ensures Misses(26113, 27392, 23196, 24767, 1, 0, NEAR, 0x3900_0000)
    ensures Misses(18689, 26112, 17495, 23406, 1, 0, NEAR, 0x3040_0000)
  {
  }

  lemma LowestInputsMiss()
    ensures Misses(16385, 18688, 16255, 17749, 1, 0, NEAR, 0x2D40_0000)
    ensures Misses(16384, 16384, 32256, 32767, 1, 1, 0x3C00_0000, 0x3FFF_0000)
  {
  }

  /** Outside four buckets no accurate table is good for a normalised input. */
  lemma NoSeedIsGood(N: int, table: seq<q15>)
    requires 0x4000 <= N < 0x8000 && AccurateTable15(table) && !Exceptional(Index15(-N))
    ensures |table| == 64 && !Good(N, Step15(-N, Step15(-N, table[Index15(-N)])))
  {
    hide Misses, Good, Step15, Index15, AccurateTable15;
    NegativeIndex(N);
    if N >= 31489 {
      HighestInputsMiss();
      if N >= 31745 {
        GroupMisses(0, 3, 30812, 32767, 2, 0, NEAR, 0x3EC0_0000, 31745, 32767, N, table);
      } else {
        GroupMisses(4, 4, 30359, 30870, 2, 0, NEAR, 0x3E80_0000, 31489, 31744, N, table);
      }
    } else if N >= 29697 {
      HighInputsMiss();
      if N >= 29953 {
        GroupMisses(6, 10, 27898, 30000, 2, 0, NEAR, 0x3D00_0000, 29953, 31232, N, table);
      } else {
        GroupMisses(11, 11, 27526, 28026, 1, 2, 0x56C0_0000, 0x6980_0000, 29697, 29952, N, table);
      }
    } else if N >= 27905 {
      MiddleInputsMiss();
      if N >= 28929 {
        GroupMisses(13, 14, 26467, 27308, 1, 1, 0x3CC0_0000, 0x5500_0000, 28929, 29440, N, table);
      } else {
        GroupMisses(15, 18, 25176, 26625, 1, 1, 0x3C40_0000, 0x5380_0000, 27905, 28928, N, table);
      }
    } else if N >= 18689 {
      LowInputsMiss();
      if N >= 26113 {
        GroupMisses(21, 25, 23196, 24767, 1, 0, NEAR, 0x3900_0000, 26113, 27392, N, table);
      } else {
        GroupMisses(26, 54, 17495, 23406, 1, 0, NEAR, 0x3040_0000, 18689, 26112, N, table);
      }
    } else {
      LowestInputsMiss();
      if N > 0x4000 {
        GroupMisses(55, 63, 16255, 17749, 1, 0, NEAR, 0x2D40_0000, 16385, 18688, N, table);
      } else {
        AccurateSeed15(table, 0);
        MissesEverywhere(16384, 16384, 32256, 32767, 1, 1, 0x3C00_0000, 0x3FFF_0000, N, table[0]);
      }
    }
  }

  // ----- the reciprocal of an input that is not positive -----

  /** The bound that every accurate table meets for positive inputs. */
  predicate Accurate(x: q15, table: seq<q15>)
    requires -0x8000 < x && |table| == 64
  {
    0x4000_0000 - 0x2_0200 < x * Recip15(x, table) * Pow2(SignBits15(x) + 1) < 0x4000_0000
  }

  lemma NormaliseNegative15(x: q15)
    requires -0x8000 < x < 0
    ensures Normalised15(x) == x * Pow2(SignBits15(x))
    ensures -0x8000 < Normalised15(x) <= -0x4000
  {
    Normalise15(-x);
    NegatedProduct(x, Pow2(SignBits15(x)));
  }

  lemma AccurateIsGood(x: q15, table: seq<q15>)
    requires -0x8000 < x < 0 && |table| == 64
    ensures Accurate(x, table) <==> Good(-(Normalised15(x) as int), Recip15(x, table))
  {
    hide Recip15, SignBits15, Pow2, Good, Normalised15;
    NormaliseNegative15(x);
    ScaledProduct(x, Recip15(x, table), Pow2(SignBits15(x)));
    Pow2Next(SignBits15(x));
    GoodBound(Normalised15(x), Recip15(x, table));
  }

  lemma GoodBound(n: int, out: int)
    ensures Good(-n, out) <==> 0x4000_0000 - 0x2_0200 < 2 * (n * out) < 0x4000_0000
  {
    NegatedProduct(n, out);
  }

  lemma Pow2Next(k: nat)
    ensures Pow2(k + 1) == 2 * Pow2(k)
  {
  }

  lemma ZeroNotAccurate(table: seq<q15>)
    requires |table| == 64
    ensures !Accurate(0, table)
  {
    hide Recip15, Pow2;
    assert 0 * Recip15(0, table) * Pow2(SignBits15(0) + 1) == 0;
  }

  /** Whatever the accurate table, the result for an input that is not positive misses
      the bound, unless the normalised input falls in one of four buckets. */
  lemma RecipQ15Misses(x: q15, table: seq<q15>)
    requires -0x8000 < x <= 0 && AccurateTable15(table)
    requires !Exceptional(Index15(Normalised15(x)))
    ensures |table| == 64 && !Accurate(x, table)
  {
    hide AccurateTable15, Index15, Normalised15, Accurate, Good, Step15;
    AccurateSeed15(table, 0);
    if x == 0 {
      ZeroNotAccurate(table);
    } else {
      NormaliseNegative15(x);
      AccurateIsGood(x, table);
      NoSeedIsGood(-Normalised15(x), table);
    }
  }

  // ----- in the four buckets -----

  /** Midpoint seeds, but for two. */
  function SkewedTable(): seq<q15> {
    MidpointTable15()[5 := 29919][12 := 27163]
  }

  lemma SkewedTableAccurate()
    ensures AccurateTable15(SkewedTable())
  {
    MidpointTable15Accurate();
    hide MidpointTable15, AccurateTable15;
    ReplaceSeed(MidpointTable15(), 5, 29919);
    ReplaceSeed(MidpointTable15()[5 := 29919], 12, 27163);
  }

  lemma SkewedSeeds()
    ensures |SkewedTable()| == 64
    ensures SkewedTable()[5] == 29919 && SkewedTable()[12] == 27163
    ensures SkewedTable()[19] == 25115 && SkewedTable()[20] == 24818
  {
  }

  lemma SkewedSeedsMiss()
    ensures Misses(31233, 31488, 29919, 29919, 2, 0, NEAR, 0x3E40_0000)
    ensures Misses(29441, 29696, 27163, 27163, 1, 1, 0x3D00_0000, 0x55C0_0000)
    ensures Misses(27649, 27904, 25115, 25115, 1, 1, 0x3B40_0000, 0x5300_0000)
    ensures Misses(27393, 27648, 24818, 24818, 1, 0, NEAR, 0x3A80_0000)
  {
  }

  /** One accurate table misses the bound for every input that is not positive. */
  lemma SkewedTableExactly(x: q15)
    requires -0x8000 < x
    ensures AccurateTable15(SkewedTable()) && |SkewedTable()| == 64
    ensures Accurate(x, SkewedTable()) <==> 0 < x
  {
    hide AccurateTable15, SkewedTable, Index15, Normalised15, Accurate, Good, Step15, Misses;
    SkewedTableAccurate();
    SkewedSeeds();
    if 0 < x {
      AccurateForPositive(x, SkewedTable());
    } else if x < 0 && Exceptional(Index15(Normalised15(x))) {
      NormaliseNegative15(x);
      AccurateIsGood(x, SkewedTable());
      ExceptionalSkewed(-Normalised15(x));
    } else {
      ZeroNotAccurate(SkewedTable());
      if x < 0 {
        RecipQ15Misses(x, SkewedTable());
      }
    }
  }

  lemma AccurateForPositive(x: q15, table: seq<q15>)
    requires 0 < x && AccurateTable15(table)
    ensures |table| == 64 && Accurate(x, table)
  {
    hide Recip15, SignBits15, Pow2;
    RecipQ15Accurate(x, table);
  }

  lemma ExceptionalSkewed(N: int)
    requires 0x4000 <= N < 0x8000 && Exceptional(Index15(-N))
    ensures |SkewedTable()| == 64 && !Good(N, Step15(-N, Step15(-N, SkewedTable()[Index15(-N)])))
  {
    hide SkewedTable, Index15, Good, Step15, Misses;
    NegativeIndex(N);
    SkewedSeeds();
    SkewedSeedsMiss();
    if N >= 31233 {
      MissesEverywhere(31233, 31488, 29919, 29919, 2, 0, NEAR, 0x3E40_0000, N, 29919);
    } else if N >= 29441 {
      MissesEverywhere(29441, 29696, 27163, 27163, 1, 1, 0x3D00_0000, 0x55C0_0000, N, 27163);
    } else if N >= 27649 {
      MissesEverywhere(27649, 27904, 25115, 25115, 1, 1, 0x3B40_0000, 0x5300_0000, N, 25115);
    } else {
      MissesEverywhere(27393, 27648, 24818, 24818, 1, 0, NEAR, 0x3A80_0000, N, 24818);
    }
  }

  /** Every accurate table meets the bound exactly for the positive inputs. */
  lemma RecipQ15Exactly(x: q15)
    requires -0x8000 < x
    ensures (forall table: seq<q15> :: AccurateTable15(table) ==> |table| == 64 && Accurate(x, table)) <==> 0 < x
  {
    hide AccurateTable15, SkewedTable, Accurate;
    SkewedTableExactly(x);
    if 0 < x {
      forall table: seq<q15> | AccurateTable15(table)
        ensures |table| == 64 && Accurate(x, table)
      {
        AccurateForPositive(x, table);
      }
    }
  }

  /** Some accurate table meets the bound for some negative input of bucket i. */
  ghost predicate BucketReaches(i: nat) {
    exists x: q15, table: seq<q15> ::
      -0x8000 < x <= 0 && AccurateTable15(table) && |table| == 64
      && Index15(Normalised15(x)) == i && Accurate(x, table)
  }

  /** That happens in four buckets only. */
  lemma BucketReachesExactly(i: nat)
    requires i < 64
    ensures BucketReaches(i) <==> Exceptional(i)
  {
    hide BucketReaches;
    if Exceptional(i) {
      ExceptionalReached(i);
    } else {
      OthersNotReached(i);
    }
  }

  lemma OthersNotReached(i: nat)
    requires i < 64 && !Exceptional(i)
    ensures !BucketReaches(i)
  {
    hide AccurateTable15, Accurate, Index15, Normalised15, Exceptional;
    forall x: q15, table: seq<q15>
      | -0x8000 < x <= 0 && AccurateTable15(table) && |table| == 64 && Index15(Normalised15(x)) == i
      ensures !Accurate(x, table)
    {
      RecipQ15Misses(x, table);
    }
  }

  lemma ExceptionalReached(i: nat)
    requires Exceptional(i)
    ensures BucketReaches(i)
  {
    hide BucketReaches, Raw;
    if i == 5 || i == 12 {
      HighWitnesses();
    } else {
      LowWitnesses();
    }
  }

  lemma HighWitnesses()
    ensures BucketReaches(5) && BucketReaches(12)
  {
    hide BucketReaches, Raw;
    RawAt(31233, 30243, -28827, 113695);
    RawAt(31233, -17377, 16562, -17188);
    ReachedBy(5, 31233, 30243, -17377, -17188);
    RawAt(29448, 27442, -24662, 96189);
    RawAt(29448, 30653, -27548, 112843);
    ReachedBy(12, 29448, 27442, 30653, -18229);
  }

  lemma LowWitnesses()
    ensures BucketReaches(19) && BucketReaches(20)
  {
    hide BucketReaches, Raw;
    RawAt(27652, 24913, -21024, 81792);
    RawAt(27652, 16256, -13718, 46121);
    ReachedBy(19, 27652, 24913, 16256, -19415);
    RawAt(27416, 24970, -20892, 81778);
    RawAt(27416, 16242, -13590, 45955);
    ReachedBy(20, 27416, 24970, 16242, -19581);
  }

  lemma RawAt(N: int, o: int, q: int, z: int)
    requires q == (-(N * o)) / 0x8000 && z == (o * (0x7FFF - q)) / 0x4000
    ensures Raw(N, o) == z
  {
  }

  /** Input -N with seed s, intermediate result o and output out. */
  lemma ReachedBy(i: nat, N: int, s: q15, o: q15, out: q15)
    requires i < 64 && 0x4000 < N < 0x8000 && (0x8000 - N) / 0x100 == i && 0 <= s && SeedFits(i, s)
    requires (Raw(N, s) - o) % 0x1_0000 == 0 && (Raw(N, o) - out) % 0x1_0000 == 0 && Good(N, out)
    ensures BucketReaches(i)
  {
    hide AccurateTable15, Accurate, Index15, Normalised15, Good, Step15, Raw, MidpointTable15;
    MidpointTable15Accurate();
    ReplaceSeed(MidpointTable15(), i, s);
    var table := MidpointTable15()[i := s];
    AccurateSeed15(table, i);
    NegativeIndex(N);
    AlreadyNormalised(N);
    StepIsWrappedRaw(N, s);
    StepIsWrappedRaw(N, o);
    SameResidue16(Raw(N, s), o);
    SameResidue16(Raw(N, o), out);
    AccurateIsGood(-N, table);
    assert Accurate(-N, table);
  }

  lemma SameResidue16(z: int, o: q15)
    requires (z - o) % 0x1_0000 == 0
    ensures Wrap16(z) == o
  {
    WrapAt(z, 0x8000, (z - o) / 0x1_0000);
  }

  lemma AlreadyNormalised(N: int)
    requires 0x4000 <= N < 0x8000
    ensures Normalised15(-N) == -N
  {
    hide Normalised15, SignBits15, Pow2;
    NormaliseNegative15(-N);
    NegatedProduct(N, Pow2(SignBits15(-N)));
    NoShift(N, Pow2(SignBits15(-N)));
  }

  lemma NoShift(N: int, p: int)
    requires 0x4000 <= N && 1 <= p && N * p < 0x8000
    ensures p == 1
  {
    MulMonotone(0x4000, N, p);
  }
}
