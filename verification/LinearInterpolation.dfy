/** Table look-up with linear interpolation in Q7, Q15 and Q31. The abscissa is in
    12.20 format: table index above, fraction below. */
module LinearInterpolation {
  import opened Bits
  import opened FixedPoint

  /** The weight of a full step: the two weights of a cell add up to 0xFFFFF. */
  const FULL: int := 0xF_FFFF

  // ----- index and fraction -----

  /** `((x & (q31_t) 0xFFF00000) >> 20)` */
  function Index(x: q31): int {
    Wrap32(And(Unsigned32(x), 0xFFF0_0000)) / 0x10_0000
  }

  /** `(x & 0x000FFFFF)` */
  function Fraction(x: q31): (f: nat)
    ensures f <= FULL
  {
    AndBound(Unsigned32(x), 0xF_FFFF);
    And(Unsigned32(x), 0xF_FFFF)
  }

  lemma {:induction false} AndShifted(x: nat, m: nat, k: nat)
    ensures m * Pow2(k) >= 0 && Shr(x, k) >= 0
    ensures And(x, m * Pow2(k)) == And(Shr(x, k), m) * Pow2(k)
  {
    DivBound(x, Pow2(k));
    if k != 0 {
      var n := m * Pow2(k - 1);
      AndEven(x, n);
      DivDiv(x, 2, Pow2(k - 1));
      AndShifted(x / 2, m, k - 1);
      hide And;
      Doubled(And(Shr(x, k), m), Pow2(k - 1));
      Doubled(m, Pow2(k - 1));
    }
  }

  lemma AndEven(x: nat, n: nat)
    ensures And(x, 2 * n) == 2 * And(x / 2, n)
  {
    assert (2 * n) / 2 == n && (2 * n) % 2 == 0;
  }

  lemma Doubled(m: int, p: int)
    ensures m * (2 * p) == 2 * (m * p)
  {
  }

  /** The two masks split x into quotient and remainder by 2^20. */
  lemma SplitAbscissa(x: q31)
    ensures Index(x) == x / 0x10_0000
    ensures Fraction(x) == x % 0x10_0000
  {
    Pow2At20();
    var u := Unsigned32(x);
    AndMask(u, 20);
    AndShifted(u, 0xFFF, 20);
    AndMask(u / 0x10_0000, 12);
    hide And, Pow2;
    HighPart(x, u);
  }

  lemma Pow2At20()
    ensures Pow2(20) == 0x10_0000 && Pow2(12) == 0x1000
  {
    assert Pow2(12) == 0x1000;
    assert Pow2(20) == 0x10_0000;
  }

  lemma HighPart(x: q31, u: uint32)
    requires u == x % 0x1_0000_0000
    ensures (u / 0x10_0000) % 0x1000 == u / 0x10_0000
    ensures Wrap32(u / 0x10_0000 * 0x10_0000) / 0x10_0000 == x / 0x10_0000
    ensures u % 0x10_0000 == x % 0x10_0000
  {
    var q, r := x / 0x10_0000, x % 0x10_0000;
    if x >= 0 {
      assert u == x;
    } else {
      assert u == x + 0x1_0000_0000;
      DivModUnique(u, 0x10_0000, q + 0x1000, r);
      WrapAt((q + 0x1000) * 0x10_0000, 0x8000_0000, 1);
    }
  }

  // ----- one cell -----

  /** The weighted sum the q7 and q15 kernels truncate. */
  function Cell(y0: int, y1: int, f: int): int {
    y0 * (FULL - f) + y1 * f
  }

  lemma CellSlope(y0: int, y1: int, f: int)
    ensures Cell(y0, y1, f) == y0 * FULL + (y1 - y0) * f
  {
  }

  lemma CellMonotone(y0: int, y1: int, f: int, f': int)
    requires y0 <= y1 && 0 <= f <= f' <= FULL
    ensures y0 * FULL <= Cell(y0, y1, f) <= Cell(y0, y1, f') <= y1 * FULL
  {
    CellSlope(y0, y1, f);
    CellSlope(y0, y1, f');
    CellSlope(y0, y1, FULL);
    ScaleUp(y1 - y0, 0, f);
    ScaleUp(y1 - y0, f, f');
    ScaleUp(y1 - y0, f', FULL);
  }

  lemma ScaleUp(d: int, f: int, f': int)
    requires 0 <= d && f <= f'
    ensures d * f <= d * f'
  {
    MulMonotone(f, f', d);
  }

  function Min(x: int, y: int): int { if x <= y then x else y }

  function Max(x: int, y: int): int { if x <= y then y else x }

  lemma CellRange(y0: int, y1: int, f: int)
    requires 0 <= f <= FULL
    ensures Min(y0, y1) * FULL <= Cell(y0, y1, f) <= Max(y0, y1) * FULL
  {
    if y0 <= y1 {
      CellMonotone(y0, y1, f, f);
    } else {
      assert Cell(y0, y1, f) == Cell(y1, y0, FULL - f);
      CellMonotone(y1, y0, FULL - f, FULL - f);
    }
  }

  /** Truncating a full-weight value loses one unit exactly when it is positive. */
  lemma FullWeight(v: int)
    requires -0x10_0000 < v <= 0x10_0000
    ensures (v * FULL) / 0x10_0000 == if v > 0 then v - 1 else v
  {
  }

  lemma TruncateMonotone(x: int, y: int)
    requires x <= y
    ensures x / 0x10_0000 <= y / 0x10_0000
  {
  }

  lemma CellTruncatedRange(y0: q15, y1: q15, f: int)
    requires 0 <= f <= FULL
    ensures Min(y0, y1) - 1 <= Cell(y0, y1, f) / 0x10_0000 <= Max(y0, y1)
  {
    hide Cell;
    var lo, hi := Min(y0, y1), Max(y0, y1);
    CellRange(y0, y1, f);
    TruncateMonotone(lo * FULL, Cell(y0, y1, f));
    TruncateMonotone(Cell(y0, y1, f), hi * FULL);
    FullWeight(lo);
    FullWeight(hi);
  }

  // ----- Q15 and Q7 -----

  /** arm_linear_interp_q15 */
  function InterpQ15(pYData: seq<q15>, x: q31): q15
    requires 1 <= |pYData| <= 0x8000_0000
  {
    var index := Index(x);
    if index >= Wrap32(|pYData| - 1) then pYData[|pYData| - 1]
    else if index < 0 then pYData[0]
    else
      var fract := Fraction(x);
      var y := pYData[index] * (0xF_FFFF - fract);
      Wrap16((y + pYData[index + 1] * fract) / 0x10_0000)
  }

  /** arm_linear_interp_q7 */
  function InterpQ7(pYData: seq<q7>, x: q31): q7
    requires 1 <= |pYData| <= 0x8000_0000
  {
    if x < 0 then pYData[0]
    else
      AndBound(x / 0x10_0000, 0xFFF);
      var index := And(x / 0x10_0000, 0xFFF);
      if index >= |pYData| - 1 then pYData[|pYData| - 1]
      else
        var fract := Fraction(x);
        var y := Wrap32(pYData[index] * (0xF_FFFF - fract));
        Wrap8(Wrap32(y + Wrap32(pYData[index + 1] * fract)) / 0x10_0000)
  }

  predicate NonDecreasing(t: seq<int>) {
    forall i, j :: 0 <= i <= j < |t| ==> t[i] <= t[j]
  }

  /** The scaled ordinate before truncation, for x at or above the first entry. */
  function Scaled(t: seq<int>, x: nat): int
    requires |t| >= 1
  {
    var i := x / 0x10_0000;
    if i >= |t| - 1 then t[|t| - 1] * FULL
    else Cell(t[i], t[i + 1], x % 0x10_0000)
  }

  /** The q15 result, branch by branch, without masks and casts. */
  lemma InterpQ15Value(t: seq<q15>, x: q31)
    requires 1 <= |t| <= 0x8000_0000
    ensures InterpQ15(t, x) ==
      if x / 0x10_0000 >= |t| - 1 then t[|t| - 1]
      else if x < 0 then t[0]
      else Scaled(t, x) / 0x10_0000
  {
    hide Index, Fraction, Cell, Wrap16, Wrap32;
    SplitAbscissa(x);
    var i := x / 0x10_0000;
    if 0 <= i < |t| - 1 {
      CellTruncatedRange(t[i], t[i + 1], x % 0x10_0000);
      CellDefinition(t[i], t[i + 1], x % 0x10_0000);
      assert -0x8000 <= Scaled(t, x) / 0x10_0000 < 0x8000 by { Q15Lower(t[i], t[i + 1], x % 0x10_0000); }
    }
  }

  lemma CellDefinition(y0: int, y1: int, f: int)
    ensures Cell(y0, y1, f) == y0 * (0xF_FFFF - f) + y1 * f
  {
  }

  /** The lowest value is not positive, so truncation cannot push it further. */
  lemma Q15Lower(y0: q15, y1: q15, f: int)
    requires 0 <= f <= FULL
    ensures -0x8000 <= Cell(y0, y1, f) / 0x10_0000 < 0x8000
  {
    hide Cell;
    var lo := Min(y0, y1);
    CellRange(y0, y1, f);
    CellTruncatedRange(y0, y1, f);
    TruncateMonotone(-0x8000 * FULL, Cell(y0, y1, f));
    FullWeight(-0x8000);
  }

  lemma ScaledMonotone(t: seq<int>, x: nat, x': nat)
    requires |t| >= 1 && NonDecreasing(t) && x <= x'
    ensures Scaled(t, x) <= Scaled(t, x')
  {
    hide Cell;
    var i, i' := x / 0x10_0000, x' / 0x10_0000;
    var n := |t| - 1;
    if i < n {
      CellMonotone(t[i], t[i + 1], x % 0x10_0000, x % 0x10_0000);
      if i' < n {
        CellMonotone(t[i'], t[i' + 1], x' % 0x10_0000, x' % 0x10_0000);
        if i == i' {
          CellMonotone(t[i], t[i + 1], x % 0x10_0000, x' % 0x10_0000);
        } else {
          assert t[i + 1] <= t[i'];
          MulMonotone(t[i + 1], t[i'], FULL);
        }
      } else {
        assert t[i + 1] <= t[n];
        MulMonotone(t[i + 1], t[n], FULL);
      }
    }
  }

  /** On a non-decreasing table the q15 interpolation is non-decreasing over all
      x >= 0, including across segments: the last weight of one segment is the
      first of the next. */
  lemma InterpQ15Monotone(t: seq<q15>, x: q31, x': q31)
    requires 1 <= |t| <= 0x8000_0000 && NonDecreasing(t)
    requires 0 <= x <= x'
    ensures InterpQ15(t, x) <= InterpQ15(t, x')
  {
    hide InterpQ15;
    InterpQ15Value(t, x);
    InterpQ15Value(t, x');
    ScaledMonotone(t, x, x');
    TruncateMonotone(Scaled(t, x), Scaled(t, x'));
    LastEntry(t, x');
  }

  lemma LastEntry(t: seq<q15>, x: q31)
    requires 1 <= |t| && 0 <= x
    ensures x / 0x10_0000 >= |t| - 1 ==> Scaled(t, x) / 0x10_0000 <= t[|t| - 1]
  {
    FullWeight(t[|t| - 1]);
  }

  /** Below the table the first entry is returned unweighted, so over all x the
      function is non-decreasing exactly when that entry is not positive (or the
      table has no segment). */
  lemma InterpQ15MonotoneExactly(t: seq<q15>)
    requires 1 <= |t| <= 0x8000_0000 && NonDecreasing(t)
    ensures (forall x: q31, x': q31 :: x <= x' ==> InterpQ15(t, x) <= InterpQ15(t, x'))
       <==> |t| == 1 || t[0] <= 0
  {
    hide InterpQ15;
    InterpQ15Value(t, -1);
    InterpQ15Value(t, 0);
    FullWeight(t[0]);
    assert |t| > 1 ==> Scaled(t, 0) == t[0] * FULL;
    if |t| > 1 && t[0] > 0 {
      assert InterpQ15(t, -1) == t[0] && InterpQ15(t, 0) == t[0] - 1;
    } else {
      forall x: q31, x': q31 | x <= x'
        ensures InterpQ15(t, x) <= InterpQ15(t, x')
      {
        InterpQ15Value(t, x);
        InterpQ15Value(t, x');
        if x >= 0 {
          InterpQ15Monotone(t, x, x');
        } else if x' >= 0 {
          InterpQ15Monotone(t, 0, x');
        }
      }
    }
  }

  /** The result lies between the two neighbours, at most one unit below. */
  lemma InterpQ15Range(t: seq<q15>, x: q31)
    requires 1 <= |t| <= 0x8000_0000
    requires 0 <= x && x / 0x10_0000 < |t| - 1
    ensures var i := x / 0x10_0000;
            Min(t[i], t[i + 1]) - 1 <= InterpQ15(t, x) <= Max(t[i], t[i + 1])
  {
    InterpQ15Value(t, x);
    CellTruncatedRange(t[x / 0x10_0000], t[x / 0x10_0000 + 1], x % 0x10_0000);
  }

  /** Against the exact interpolant E = y0 + (y1 - y0) * f / 2^20, the result is
      the floor of E - y0 / 2^20. */
  lemma InterpQ15Error(t: seq<q15>, x: q31)
    requires 1 <= |t| <= 0x8000_0000
    requires 0 <= x && x / 0x10_0000 < |t| - 1
    ensures var i, f := x / 0x10_0000, x % 0x10_0000;
            var exact := t[i] * (0x10_0000 - f) + t[i + 1] * f;
            0 <= exact - t[i] - 0x10_0000 * InterpQ15(t, x) < 0x10_0000
  {
    InterpQ15Value(t, x);
    var i, f := x / 0x10_0000, x % 0x10_0000;
    assert t[i] * (0x10_0000 - f) == t[i] * (FULL - f) + t[i];
  }

  /** The q7 kernel works in 32 bits and finds its index differently; on the same
      table it computes the same values. */
  lemma InterpQ7IsInterpQ15(t: seq<q7>, t15: seq<q15>, x: q31)
    requires 1 <= |t| <= 0x8000_0000
    requires |t15| == |t| && forall i :: 0 <= i < |t| ==> t15[i] == t[i]
    ensures InterpQ7(t, x) == InterpQ15(t15, x)
  {
    hide InterpQ15, Fraction, And, Wrap8, Wrap32;
    InterpQ15Value(t15, x);
    SplitAbscissa(x);
    if x >= 0 {
      var i := x / 0x10_0000;
      assert And(i, 0xFFF) == i by {
        Pow2At20();
        AndMask(i, 12);
      }
      if i < |t| - 1 {
        var f := x % 0x10_0000;
        var y0, y1 := t[i], t[i + 1];
        Q7Products(y0, y1, f);
        assert Scaled(t15, x) == y0 * (FULL - f) + y1 * f;
      }
    } else {
      assert x / 0x10_0000 < 0;
    }
  }

  lemma Q7Products(y0: q7, y1: q7, f: nat)
    requires f <= FULL
    ensures Wrap32(y0 * (0xF_FFFF - f)) == y0 * (0xF_FFFF - f)
    ensures Wrap32(y1 * f) == y1 * f
    ensures Wrap32(y0 * (0xF_FFFF - f) + y1 * f) == y0 * (0xF_FFFF - f) + y1 * f
    ensures Wrap8((y0 * (0xF_FFFF - f) + y1 * f) / 0x10_0000) == (y0 * (0xF_FFFF - f) + y1 * f) / 0x10_0000
  {
    hide Wrap8, Wrap32;
    var a, b := y0 * (0xF_FFFF - f), y1 * f;
    ProductBound(y0, 0xF_FFFF - f, 0x80, 0xF_FFFF);
    ProductBound(y1, f, 0x80, 0xF_FFFF);
    CellRange(y0, y1, f);
    assert a + b == Cell(y0, y1, f);
    assert -0x80 * FULL <= a + b <= 0x7F * FULL;
  }

  // ----- Q31 -----

  /** arm_linear_interp_q31: the two products are truncated separately. */
  function InterpQ31(pYData: seq<q31>, x: q31): q31
    requires 1 <= |pYData| <= 0x8000_0000
  {
    var index := Index(x);
    if index >= Wrap32(|pYData| - 1) then pYData[|pYData| - 1]
    else if index < 0 then pYData[0]
    else
      var fract := Wrap32(Fraction(x) * 0x800);
      var y := Wrap32(Product63(pYData[index], 0x7FFF_FFFF - fract) / 0x1_0000_0000);
      Wrap32(Wrap32(y + Wrap32(Product63(pYData[index + 1], fract) / 0x1_0000_0000)) * 2)
  }

  /** The 2.30 sum before the final shift, for a 20-bit fraction f. */
  function HalfSum(y0: int, y1: int, f: int): int {
    (y0 * (0x7FFF_FFFF - 0x800 * f)) / 0x1_0000_0000 + (y1 * (0x800 * f)) / 0x1_0000_0000
  }

  /** The exact interpolant times 2^20. */
  function Exact(y0: int, y1: int, f: int): int {
    y0 * (0x10_0000 - f) + y1 * f
  }

  /** The sum is monotone in both ordinates, so its extremes are at constant cells. */
  lemma HalfSumRange(y0: q31, y1: q31, f: int)
    requires 0 <= f <= FULL
    ensures -0x4000_0000 <= HalfSum(y0, y1, f) < 0x4000_0000
    ensures -0x8000_0000 <= (y0 * (0x7FFF_FFFF - 0x800 * f)) / 0x1_0000_0000 < 0x8000_0000
    ensures -0x8000_0000 <= (y1 * (0x800 * f)) / 0x1_0000_0000 < 0x8000_0000
  {
    var w0, w1 := 0x7FFF_FFFF - 0x800 * f, 0x800 * f;
    MulMonotone(-0x8000_0000, y0, w0);
    MulMonotone(y0, 0x7FFF_FFFF, w0);
    MulMonotone(-0x8000_0000, y1, w1);
    MulMonotone(y1, 0x7FFF_FFFF, w1);
    HalfSumExtremes(y0 * w0, y1 * w1, f);
  }

  /** Because the fraction is a multiple of 2^11, the odd half-unit falls in the
      first product only, and the lowest sum is exactly -2^30. */
  lemma HalfSumExtremes(p0: int, p1: int, f: int)
    requires 0 <= f <= FULL
    requires -0x8000_0000 * (0x7FFF_FFFF - 0x800 * f) <= p0 <= 0x7FFF_FFFF * (0x7FFF_FFFF - 0x800 * f)
    requires -0x8000_0000 * (0x800 * f) <= p1 <= 0x7FFF_FFFF * (0x800 * f)
    ensures -0x4000_0000 <= p0 / 0x1_0000_0000 + p1 / 0x1_0000_0000 < 0x4000_0000
    ensures -0x8000_0000 <= p0 / 0x1_0000_0000 < 0x8000_0000
    ensures -0x8000_0000 <= p1 / 0x1_0000_0000 < 0x8000_0000
  {
    assert p0 / 0x1_0000_0000 >= -0x4000_0000 + 0x400 * f;
    assert p1 / 0x1_0000_0000 >= -0x400 * f;
  }

  /** No cast and no shift of the q31 kernel loses anything, for any table. */
  lemma InterpQ31Value(t: seq<q31>, x: q31)
    requires 1 <= |t| <= 0x8000_0000
    ensures InterpQ31(t, x) ==
      if x / 0x10_0000 >= |t| - 1 then t[|t| - 1]
      else if x < 0 then t[0]
      else 2 * HalfSum(t[x / 0x10_0000], t[x / 0x10_0000 + 1], x % 0x10_0000)
  {
    hide Index, Fraction, Wrap32;
    SplitAbscissa(x);
    var i, f := x / 0x10_0000, x % 0x10_0000;
    if 0 <= i < |t| - 1 {
      HalfSumRange(t[i], t[i + 1], f);
      assert Wrap32(f * 0x800) == 0x800 * f;
    }
  }

  /** The result lies in (E - 5, E + 1] for the exact interpolant E. */
  lemma HalfSumError(y0: q31, y1: q31, f: int)
    requires 0 <= f <= FULL
    ensures Exact(y0, y1, f) - 5 * 0x10_0000 < 0x10_0000 * (2 * HalfSum(y0, y1, f))
    ensures 0x10_0000 * (2 * HalfSum(y0, y1, f)) <= Exact(y0, y1, f) + 0x10_0000
  {
    var p0, p1 := y0 * (0x7FFF_FFFF - 0x800 * f), y1 * (0x800 * f);
    assert p0 + p1 == 0x800 * Exact(y0, y1, f) - y0 by {
      assert y0 * (0x7FFF_FFFF - 0x800 * f) == 0x800 * (y0 * (0x10_0000 - f)) - y0;
      assert y1 * (0x800 * f) == 0x800 * (y1 * f);
    }
    HalfSumErrorLinear(p0, p1, Exact(y0, y1, f), y0);
  }

  lemma HalfSumErrorLinear(p0: int, p1: int, e: int, y0: q31)
    requires p0 + p1 == 0x800 * e - y0
    ensures var h := p0 / 0x1_0000_0000 + p1 / 0x1_0000_0000;
            e - 5 * 0x10_0000 < 0x10_0000 * (2 * h) <= e + 0x10_0000
  {
  }

  lemma InterpQ31Error(t: seq<q31>, x: q31)
    requires 1 <= |t| <= 0x8000_0000
    requires 0 <= x && x / 0x10_0000 < |t| - 1
    ensures var i := x / 0x10_0000;
            var e := Exact(t[i], t[i + 1], x % 0x10_0000);
            e - 5 * 0x10_0000 < 0x10_0000 * InterpQ31(t, x) <= e + 0x10_0000
  {
    InterpQ31Value(t, x);
    HalfSumError(t[x / 0x10_0000], t[x / 0x10_0000 + 1], x % 0x10_0000);
  }
}
