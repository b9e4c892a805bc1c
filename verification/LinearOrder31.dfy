/** The order of the q31 linear interpolation: its two products are truncated
    separately, which costs monotonicity on some tables and not on others. */
module LinearOrder31 {
  import opened Bits
  import opened FixedPoint
  import opened LinearInterpolation

  // ----- how far it is from monotone -----

  /** The sum of the two products before they are truncated. */
  function Untruncated(y0: int, y1: int, f: int): int {
    y0 * 0x7FFF_FFFF + 0x800 * ((y1 - y0) * f)
  }

  /** 1 when the separate truncations lose a unit that truncating the sum keeps. */
  function Borrow(y0: int, y1: int, f: int): int {
    if (y1 * (0x800 * f)) % 0x1_0000_0000 > Untruncated(y0, y1, f) % 0x1_0000_0000 then 1 else 0
  }

  lemma HalfSumBorrow(y0: int, y1: int, f: int)
    ensures HalfSum(y0, y1, f) == Untruncated(y0, y1, f) / 0x1_0000_0000 - Borrow(y0, y1, f)
    ensures Borrow(y0, y1, 0) == 0
  {
    UntruncatedParts(y0, y1, f);
    SplitTruncation(y0 * (0x7FFF_FFFF - 0x800 * f), y1 * (0x800 * f));
  }

  lemma UntruncatedParts(y0: int, y1: int, f: int)
    ensures y0 * (0x7FFF_FFFF - 0x800 * f) + y1 * (0x800 * f) == Untruncated(y0, y1, f)
  {
    Distribute(0x7FFF_FFFF, 0x800 * f, y0);
    SwapFactors(0x800, f, y0);
    SwapFactors(0x800, f, y1);
    Distribute(y1, y0, f);
  }

  lemma SplitTruncation(p0: int, p1: int)
    ensures p0 / 0x1_0000_0000 + p1 / 0x1_0000_0000
         == (p0 + p1) / 0x1_0000_0000
            - (if p1 % 0x1_0000_0000 > (p0 + p1) % 0x1_0000_0000 then 1 else 0)
  {
  }

  /** The same over the whole table. */
  function UntruncatedAt(t: seq<int>, x: nat): int
    requires |t| >= 1
  {
    var i := x / 0x10_0000;
    if i >= |t| - 1 then t[|t| - 1] * 0x7FFF_FFFF
    else Untruncated(t[i], t[i + 1], x % 0x10_0000)
  }

  lemma UntruncatedMonotone(y0: int, y1: int, f: int, f': int)
    requires y0 <= y1 && 0 <= f <= f' <= FULL
    ensures y0 * 0x7FFF_FFFF <= Untruncated(y0, y1, f) <= Untruncated(y0, y1, f') <= y1 * 0x7FFF_FFFF
  {
    ScaleUp(y1 - y0, 0, f);
    ScaleUp(y1 - y0, f, f');
    ScaleUp(y1 - y0, f', FULL);
  }

  lemma UntruncatedAtMonotone(t: seq<int>, x: nat, x': nat)
    requires |t| >= 1 && NonDecreasing(t) && x <= x'
    ensures UntruncatedAt(t, x) <= UntruncatedAt(t, x')
  {
    hide Untruncated;
    var i, i' := x / 0x10_0000, x' / 0x10_0000;
    var n := |t| - 1;
    if i < n {
      UntruncatedMonotone(t[i], t[i + 1], x % 0x10_0000, x % 0x10_0000);
      if i' < n {
        UntruncatedMonotone(t[i'], t[i' + 1], x' % 0x10_0000, x' % 0x10_0000);
        if i == i' {
          UntruncatedMonotone(t[i], t[i + 1], x % 0x10_0000, x' % 0x10_0000);
        } else {
          assert t[i + 1] <= t[i'];
        }
      } else {
        assert t[i + 1] <= t[n];
      }
    }
  }

  /** The q31 result is twice the floor of the untruncated sum or two units less, and
      never less at the left end of a segment or in the constant tail. */
  lemma InterpQ31Floor(t: seq<q31>, x: q31)
    requires 1 <= |t| <= 0x8000_0000 && 0 <= x
    ensures var floor := UntruncatedAt(t, x) / 0x1_0000_0000;
            2 * floor - 2 <= InterpQ31(t, x)
            && (x % 0x10_0000 == 0 || x / 0x10_0000 >= |t| - 1 ==> 2 * floor <= InterpQ31(t, x))
            && (x / 0x10_0000 < |t| - 1 ==> InterpQ31(t, x) <= 2 * floor)
  {
    hide InterpQ31, HalfSum, Untruncated;
    InterpQ31Value(t, x);
    var i := x / 0x10_0000;
    if i < |t| - 1 {
      HalfSumBorrow(t[i], t[i + 1], x % 0x10_0000);
    } else {
      FullWeight31(t[|t| - 1]);
    }
  }

  lemma FullWeight31(v: q31)
    ensures v - 2 <= 2 * ((v * 0x7FFF_FFFF) / 0x1_0000_0000) <= v
    ensures 2 * ((v * 0x7FFF_FFFF) / 0x1_0000_0000) == v <==> v <= 0 && v % 2 == 0
  {
  }

  /** Two separate truncations cost monotonicity, but never more than 2 units, and
      nothing towards the left end of a segment or the tail. */
  lemma InterpQ31AlmostMonotone(t: seq<q31>, x: q31, x': q31)
    requires 1 <= |t| <= 0x8000_0000 && NonDecreasing(t)
    requires 0 <= x <= x'
    ensures InterpQ31(t, x) <= InterpQ31(t, x') + 2
    ensures x' % 0x10_0000 == 0 || x' / 0x10_0000 >= |t| - 1 ==> InterpQ31(t, x) <= InterpQ31(t, x')
  {
    hide InterpQ31, UntruncatedAt;
    if x / 0x10_0000 >= |t| - 1 {
      InterpQ31Value(t, x);
      InterpQ31Value(t, x');
    } else {
      InterpQ31Floor(t, x);
      InterpQ31Floor(t, x');
      UntruncatedAtMonotone(t, x, x');
      HighPartMonotone(UntruncatedAt(t, x), UntruncatedAt(t, x'));
    }
  }

  lemma HighPartMonotone(x: int, y: int)
    requires x <= y
    ensures x / 0x1_0000_0000 <= y / 0x1_0000_0000
    ensures x + 0x1_0000_0000 <= y ==> x / 0x1_0000_0000 < y / 0x1_0000_0000
  {
  }

  lemma ScaledRemainder(p: int)
    ensures (0x800 * p) % 0x1_0000_0000 == 0x800 * (p % 0x20_0000)
  {
  }

  // ----- when it is monotone -----

  /** The q31 result does not drop within the cell. */
  ghost predicate CellMonotone31(y0: int, y1: int) {
    forall f, f' :: 0 <= f <= f' <= FULL ==> HalfSum(y0, y1, f) <= HalfSum(y0, y1, f')
  }

  /** All cells that an abscissa of 12.20 format can select. */
  ghost predicate CellsMonotone31(t: seq<int>) {
    forall i :: 0 <= i < |t| - 1 && i < 0x800 ==> CellMonotone31(t[i], t[i + 1])
  }

  ghost predicate MonotoneFrom(t: seq<q31>, first: q31)
    requires 1 <= |t| <= 0x8000_0000
  {
    forall x: q31, x': q31 :: first <= x <= x' ==> InterpQ31(t, x) <= InterpQ31(t, x')
  }

  /** Nothing is lost across segments or into the tail: on a non-decreasing table the
      q31 interpolation is non-decreasing over all x >= 0 exactly when it is in
      every cell. */
  lemma InterpQ31MonotoneExactly(t: seq<q31>)
    requires 1 <= |t| <= 0x8000_0000 && NonDecreasing(t)
    ensures MonotoneFrom(t, 0) <==> CellsMonotone31(t)
  {
    hide InterpQ31, HalfSum;
    if CellsMonotone31(t) {
      forall x: q31, x': q31 | 0 <= x <= x'
        ensures InterpQ31(t, x) <= InterpQ31(t, x')
      {
        WithinCells(t, x, x');
      }
    } else {
      var i :| 0 <= i < |t| - 1 && i < 0x800 && !CellMonotone31(t[i], t[i + 1]);
      var f, f' :| 0 <= f <= f' <= FULL && HalfSum(t[i], t[i + 1], f) > HalfSum(t[i], t[i + 1], f');
      var x: q31, x': q31 := i * 0x10_0000 + f, i * 0x10_0000 + f';
      InterpQ31Value(t, x);
      InterpQ31Value(t, x');
      assert InterpQ31(t, x) > InterpQ31(t, x');
    }
  }

  lemma WithinCells(t: seq<q31>, x: q31, x': q31)
    requires 1 <= |t| <= 0x8000_0000 && NonDecreasing(t) && CellsMonotone31(t)
    requires 0 <= x <= x'
    ensures InterpQ31(t, x) <= InterpQ31(t, x')
  {
    hide InterpQ31, HalfSum;
    var i' := x' / 0x10_0000;
    var left: q31 := i' * 0x10_0000;
    InterpQ31Value(t, x');
    if i' < |t| - 1 {
      assert CellMonotone31(t[i'], t[i' + 1]);
    }
    if x <= left {
      InterpQ31AlmostMonotone(t, x, left);
      InterpQ31Value(t, left);
    } else {
      InterpQ31Value(t, x);
    }
  }

  /** Below the table the first entry is returned as it is: over all x the function
      is non-decreasing exactly when that entry is also even and not positive. */
  lemma InterpQ31MonotoneEverywhereExactly(t: seq<q31>)
    requires 1 <= |t| <= 0x8000_0000 && NonDecreasing(t)
    ensures MonotoneFrom(t, -0x8000_0000)
       <==> |t| == 1 || (t[0] <= 0 && t[0] % 2 == 0 && CellsMonotone31(t))
  {
    hide InterpQ31, HalfSum, CellsMonotone31, Borrow;
    InterpQ31MonotoneExactly(t);
    InterpQ31Value(t, -1);
    InterpQ31Value(t, 0);
    if |t| > 1 {
      HalfSumBorrow(t[0], t[1], 0);
      FullWeight31(t[0]);
    }
    if |t| == 1 || (t[0] <= 0 && t[0] % 2 == 0 && CellsMonotone31(t)) {
      forall x: q31, x': q31 | x <= x'
        ensures InterpQ31(t, x) <= InterpQ31(t, x')
      {
        InterpQ31Value(t, x);
        InterpQ31Value(t, x');
        if x < 0 <= x' {
          assert |t| > 1 ==> InterpQ31(t, 0) <= InterpQ31(t, x');
        }
      }
    } else {
      assert InterpQ31(t, -1) <= InterpQ31(t, 0) ==> !CellsMonotone31(t);
    }
  }

  /** A cell that rises by 2^21 or more is monotone: the floor of the sum gains a unit
      with every step of the fraction. */
  lemma SteepCell(y0: int, y1: int)
    requires y1 - y0 >= 0x20_0000
    ensures CellMonotone31(y0, y1)
  {
    hide HalfSum, Borrow;
    forall f, f' | 0 <= f <= f' <= FULL
      ensures HalfSum(y0, y1, f) <= HalfSum(y0, y1, f')
    {
      HalfSumBorrow(y0, y1, f);
      HalfSumBorrow(y0, y1, f');
      if f < f' {
        SteepStep(y0, y1, f, f');
        assert 0 <= Borrow(y0, y1, f) && Borrow(y0, y1, f') <= 1 by { BorrowRange(y0, y1, f); BorrowRange(y0, y1, f'); }
      }
    }
  }

  lemma BorrowRange(y0: int, y1: int, f: int)
    ensures 0 <= Borrow(y0, y1, f) <= 1
  {
  }

  lemma SteepStep(y0: int, y1: int, f: int, f': int)
    requires y1 - y0 >= 0x20_0000 && f < f'
    ensures Untruncated(y0, y1, f) / 0x1_0000_0000 < Untruncated(y0, y1, f') / 0x1_0000_0000
  {
    ScaleUp(y1 - y0, f + 1, f');
    Distribute(f, 1, y1 - y0);
    HighPartMonotone(Untruncated(y0, y1, f), Untruncated(y0, y1, f'));
  }

  lemma {:induction false} Rising(t: seq<int>, i: nat, j: nat)
    requires i <= j < |t| && forall k :: 0 <= k < |t| - 1 ==> t[k] <= t[k + 1]
    ensures t[i] <= t[j]
    decreases j - i
  {
    if i < j {
      Rising(t, i, j - 1);
    }
  }

  /** Every other cell is monotone exactly when no step of the fraction leaves the
      floor of the sum where it is and brings in a borrow. */
  lemma CellMonotone31Exactly(y0: int, y1: int)
    requires y0 <= y1
    ensures CellMonotone31(y0, y1)
       <==> forall f :: 0 <= f < FULL ==> !StepDrops(y0, y1, f)
  {
    hide HalfSum, Borrow, Untruncated;
    if forall f :: 0 <= f < FULL ==> !StepDrops(y0, y1, f) {
      forall f, f' | 0 <= f <= f' <= FULL
        ensures HalfSum(y0, y1, f) <= HalfSum(y0, y1, f')
      {
        StepsRise(y0, y1, f, f');
      }
    } else {
      var f :| 0 <= f < FULL && StepDrops(y0, y1, f);
      HalfSumBorrow(y0, y1, f);
      HalfSumBorrow(y0, y1, f + 1);
      assert HalfSum(y0, y1, f) > HalfSum(y0, y1, f + 1);
    }
  }

  predicate StepDrops(y0: int, y1: int, f: int) {
    Untruncated(y0, y1, f) / 0x1_0000_0000 == Untruncated(y0, y1, f + 1) / 0x1_0000_0000
    && Borrow(y0, y1, f) < Borrow(y0, y1, f + 1)
  }

  lemma {:induction false} StepsRise(y0: int, y1: int, f: int, f': int)
    requires y0 <= y1 && 0 <= f <= f' <= FULL
    requires forall g :: 0 <= g < FULL ==> !StepDrops(y0, y1, g)
    ensures HalfSum(y0, y1, f) <= HalfSum(y0, y1, f')
    decreases f' - f
  {
    if f < f' {
      hide HalfSum, Borrow, Untruncated;
      StepsRise(y0, y1, f, f' - 1);
      assert !StepDrops(y0, y1, f' - 1);
      HalfSumBorrow(y0, y1, f' - 1);
      HalfSumBorrow(y0, y1, f');
      BorrowRange(y0, y1, f' - 1);
      BorrowRange(y0, y1, f');
      UntruncatedMonotone(y0, y1, f' - 1, f');
      HighPartMonotone(Untruncated(y0, y1, f' - 1), Untruncated(y0, y1, f'));
    }
  }

  // ----- how steep is steep enough -----

  // A cell that rises by 2^21 - j drops at fraction f only if its upper ordinate is
  // -g modulo 2^21 for some 0 < g < j, and f solves two congruences.

  /** What a drop says about the remainders u of the product before the step and
      2^21 - h after it. */
  lemma DropResidues(y0: int, y1: int, f: int, j: int) returns (u: int, h: int, W: int)
    requires y1 - y0 == 0x20_0000 - j && 1 <= j <= 5 && StepDrops(y0, y1, f)
    ensures 0 <= u < W <= j - h && 1 <= h && u + h < j
    ensures ((u + h) * f + u) % 0x20_0000 == 0
    ensures (W + j * f) % 0x400 == 0
  {
    hide StepDrops, Untruncated;
    var P := y1 * f;
    u := P % 0x20_0000;
    h := 0x20_0000 - (P + y1) % 0x20_0000;
    var e := Untruncated(y0, y1, f) % 0x1_0000_0000;
    DropBounds(y0, y1, f, j, P);
    NearlySteepValues(y0, y1, f, j);
    var a := (y1 + u + h) / 0x20_0000;
    DropUpper(P, y1, u, h, a);
    W := (e + j - (u + h)) / 0x800;
    DropRemainder(y0, y1, f, j, j * f, u + h, a, e, W);
    DropProduct(y1, f, P, u, u + h, a);
  }

  lemma NearlySteepValues(y0: int, y1: int, f: int, j: int)
    requires y1 - y0 == 0x20_0000 - j
    ensures Untruncated(y0, y1, f) == y0 * 0x7FFF_FFFF + 0x1_0000_0000 * f - 0x800 * (j * f)
    ensures Untruncated(y0, y1, f + 1) == Untruncated(y0, y1, f) + 0x1_0000_0000 - 0x800 * j
  {
    Distribute(0x20_0000, j, f);
    Distribute(f, 1, y1 - y0);
  }

  lemma ProductRemainder(y1: int, f: int)
    ensures (y1 * (0x800 * f)) % 0x1_0000_0000 == 0x800 * ((y1 * f) % 0x20_0000)
  {
    ScaledProduct(y1, f);
    ScaledRemainder(y1 * f);
  }

  lemma ScaledProduct(y: int, f: int)
    ensures y * (0x800 * f) == 0x800 * (y * f)
  {
  }

  lemma DropBounds(y0: int, y1: int, f: int, j: int, P: int)
    requires y1 - y0 == 0x20_0000 - j && 1 <= j <= 5 && StepDrops(y0, y1, f) && P == y1 * f
    ensures var u, h := P % 0x20_0000, 0x20_0000 - (P + y1) % 0x20_0000;
            1 <= h && 0x800 * u <= Untruncated(y0, y1, f) % 0x1_0000_0000 < 0x800 * (j - h)
  {
    hide Untruncated;
    NearlySteepValues(y0, y1, f, j);
    ProductRemainder(y1, f);
    ProductRemainder(y1, f + 1);
    Distribute(f, 1, y1);
    SameFloor(Untruncated(y0, y1, f), 0x1_0000_0000 - 0x800 * j);
  }

  lemma SameFloor(v: int, d: int)
    requires v / 0x1_0000_0000 == (v + d) / 0x1_0000_0000
    ensures (v + d) % 0x1_0000_0000 == v % 0x1_0000_0000 + d
  {
  }

  lemma DropUpper(P: int, y1: int, u: int, h: int, a: int)
    requires u == P % 0x20_0000 && h == 0x20_0000 - (P + y1) % 0x20_0000 && a == (y1 + u + h) / 0x20_0000
    ensures y1 == 0x20_0000 * a - (u + h)
  {
  }

  lemma DropRemainder(y0: int, y1: int, f: int, j: int, jf: int, g: int, a: int, e: int, W: int)
    requires y1 == 0x20_0000 * a - g && y1 - y0 == 0x20_0000 - j
    requires e == (y0 * 0x7FFF_FFFF + 0x1_0000_0000 * f - 0x800 * jf) % 0x1_0000_0000
    requires W == (e + j - g) / 0x800
    ensures 0x800 * W == e + j - g && (W + jf) % 0x400 == 0
  {
    var m := (y0 * 0x7FFF_FFFF + 0x1_0000_0000 * f - 0x800 * jf) / 0x1_0000_0000;
    assert e + j - g == 0x800 * (0x400 * (1 - a) + 0x10_0000 * y0 + 0x20_0000 * (f - m) - jf);
    DivModUnique(W + jf, 0x400, 1 - a + 0x400 * y0 + 0x800 * (f - m), 0);
  }

  lemma DropProduct(y1: int, f: int, P: int, u: int, g: int, a: int)
    requires P == y1 * f && u == P % 0x20_0000 && y1 == 0x20_0000 * a - g
    ensures (g * f + u) % 0x20_0000 == 0
  {
    Distribute(0x20_0000 * a, g, f);
    MulAssoc(0x20_0000, a, f);
    EuclidDivision(P, 0x20_0000);
    DivModUnique(g * f + u, 0x20_0000, a * f - P / 0x20_0000, 0);
  }

  /** Where the first congruence can hold. */
  lemma DropFraction(g: int, u: int, f: int)
    requires 1 <= g <= 4 && 0 <= u < g && 0 <= f < FULL && (g * f + u) % 0x20_0000 == 0
    ensures f == 0 || f == 0x8_0000 || (f == 699050 && g == 3 && u == 2)
  {
    if g == 1 {
    } else if g == 2 {
    } else if g == 3 {
    } else {
    }
  }

  /** The second one never holds there, for j up to 5. */
  lemma NoSuchRemainder(j: int, f: int, u: int, h: int, W: int)
    requires 1 <= j <= 5 && 0 <= f < FULL && 0 <= u < W <= j - h && 1 <= h && u + h < j
    requires ((u + h) * f + u) % 0x20_0000 == 0
    ensures (W + j * f) % 0x400 != 0
  {
    DropFraction(u + h, u, f);
    if f == 0x8_0000 {
      DivModUnique(W + j * 0x8_0000, 0x400, j * 0x200, W);
    } else if f == 699050 {
      assert j == 4 || j == 5;
    }
  }

  lemma NearlySteepCell(y0: int, y1: int)
    requires y1 - y0 >= 0x20_0000 - 5
    ensures CellMonotone31(y0, y1)
  {
    if y1 - y0 >= 0x20_0000 {
      SteepCell(y0, y1);
    } else {
      var j := 0x20_0000 - (y1 - y0);
      CellMonotone31Exactly(y0, y1);
      hide CellMonotone31, StepDrops;
      forall f | 0 <= f < FULL
        ensures !StepDrops(y0, y1, f)
      {
        if StepDrops(y0, y1, f) {
          var u, h, W := DropResidues(y0, y1, f, j);
          NoSuchRemainder(j, f, u, h, W);
        }
      }
    }
  }

  /** At 2^21 - 6 a cell of two q31 ordinates drops. */
  lemma NotSteepEnough()
    ensures HalfSum(-2147483645, -2145386499, 699050) > HalfSum(-2147483645, -2145386499, 699051)
  {
  }

  /** Every cell that rises by at least D is monotone exactly when D is 2^21 - 5 or
      more. */
  lemma SteepCellsExactly(D: int)
    ensures (forall y0: q31, y1: q31 :: y0 as int + D <= y1 ==> CellMonotone31(y0, y1))
       <==> D >= 0x20_0000 - 5
  {
    hide HalfSum;
    if D >= 0x20_0000 - 5 {
      forall y0: q31, y1: q31 | y0 as int + D <= y1
        ensures CellMonotone31(y0, y1)
      {
        hide CellMonotone31;
        NearlySteepCell(y0, y1);
      }
    } else {
      NotSteepEnough();
      var y0: q31, y1: q31 := -2147483645, -2145386499;
      assert y0 as int + D <= y1 && !CellMonotone31(y0, y1);
    }
  }

  ghost predicate RisesBy(t: seq<int>, D: int) {
    forall i :: 0 <= i < |t| - 1 ==> t[i] + D <= t[i + 1]
  }

  /** So all tables with steps of at least D, and no smaller bound, are interpolated
      monotonically. */
  lemma SteepTablesExactly(D: nat)
    ensures (forall t: seq<q31> :: 1 <= |t| <= 0x8000_0000 && RisesBy(t, D) ==> MonotoneFrom(t, 0))
       <==> D >= 0x20_0000 - 5
  {
    hide MonotoneFrom, CellMonotone31, RisesBy;
    if D >= 0x20_0000 - 5 {
      forall t: seq<q31> | 1 <= |t| <= 0x8000_0000 && RisesBy(t, D)
        ensures MonotoneFrom(t, 0)
      {
        SteepTable(t, D);
      }
    } else {
      var t: seq<q31> := [-2147483645, -2145386499];
      DroppingTable(t, D);
    }
  }

  lemma SteepTable(t: seq<q31>, D: nat)
    requires 1 <= |t| <= 0x8000_0000 && RisesBy(t, D) && D >= 0x20_0000 - 5
    ensures NonDecreasing(t) && MonotoneFrom(t, 0)
  {
    hide MonotoneFrom, CellMonotone31;
    forall i, j | 0 <= i <= j < |t|
      ensures t[i] <= t[j]
    {
      Rising(t, i, j);
    }
    forall i | 0 <= i < |t| - 1 && i < 0x800
      ensures CellMonotone31(t[i], t[i + 1])
    {
      NearlySteepCell(t[i], t[i + 1]);
    }
    InterpQ31MonotoneExactly(t);
  }

  lemma DroppingTable(t: seq<q31>, D: nat)
    requires t == [-2147483645, -2145386499] && D < 0x20_0000 - 5
    ensures RisesBy(t, D) && !MonotoneFrom(t, 0)
  {
    hide MonotoneFrom, HalfSum;
    NotSteepEnough();
    InterpQ31MonotoneExactly(t);
    assert !CellMonotone31(t[0], t[1]);
  }

  // ----- constant tables -----

  /** What the second product of a constant cell leaves below 2^32. */
  function Leftover(v: int, f: int): int {
    0x800 * ((v * f) % 0x20_0000)
  }

  /** What the sum of both leaves. */
  function Room(v: int): int {
    (v * 0x7FFF_FFFF) % 0x1_0000_0000
  }

  ghost predicate NeverBorrows(v: int) {
    forall f :: 0 <= f <= FULL ==> Leftover(v, f) <= Room(v)
  }

  /** On a constant cell the sum does not move, so any borrow is a drop. */
  lemma ConstantCellBorrows(v: int)
    ensures CellMonotone31(v, v) <==> NeverBorrows(v)
  {
    hide HalfSum, Borrow, Leftover, Room;
    forall f
      ensures HalfSum(v, v, f) == HalfSum(v, v, 0) - (if Leftover(v, f) > Room(v) then 1 else 0)
    {
      ConstantHalfSum(v, f);
    }
    if !NeverBorrows(v) {
      var f :| 0 <= f <= FULL && Leftover(v, f) > Room(v);
      assert HalfSum(v, v, 0) > HalfSum(v, v, f);
    }
    if NeverBorrows(v) {
      forall f, f' | 0 <= f <= f' <= FULL
        ensures HalfSum(v, v, f) <= HalfSum(v, v, f')
      {
        assert Leftover(v, f') <= Room(v);
      }
    }
  }

  lemma ConstantHalfSum(v: int, f: int)
    ensures HalfSum(v, v, f) == HalfSum(v, v, 0) - (if Leftover(v, f) > Room(v) then 1 else 0)
  {
    hide HalfSum;
    HalfSumBorrow(v, v, 0);
    HalfSumBorrow(v, v, f);
    assert (v - v) * f == 0;
    ScaledRemainder(v * f);
    ScaledProduct(v, f);
  }

  lemma LeftoverAt(v: int, f: int, k: int, r: int)
    requires v * f == k * 0x20_0000 + r && 0 <= r < 0x20_0000
    ensures Leftover(v, f) == 0x800 * r
  {
    DivModUnique(v * f, 0x20_0000, k, r);
  }

  lemma RoomValue(v: q31)
    ensures Room(v) == if v % 2 == 1 then 0x8000_0000 - v else if v > 0 then 0x1_0000_0000 - v else 0 - v
  {
  }

  // The multiples of v = 2^s * m, m odd, modulo 2^21.

  function OddPart(v: int): int
    requires v != 0
    decreases if v < 0 then -v else v
  {
    if v % 2 == 0 then OddPart(v / 2) else v
  }

  /** How often 2 divides v. */
  function Twos(v: int): nat
    requires v != 0
    decreases if v < 0 then -v else v
  {
    if v % 2 == 0 then 1 + Twos(v / 2) else 0
  }

  lemma {:induction false} OddFactor(v: int)
    requires v != 0
    ensures v == Pow2(Twos(v)) * OddPart(v) && OddPart(v) % 2 == 1
    decreases if v < 0 then -v else v
  {
    if v % 2 == 0 {
      OddFactor(v / 2);
      MulAssoc(2, Pow2(Twos(v / 2)), OddPart(v / 2));
    }
  }

  /** The inverse of an odd number modulo 2^21, by Newton's iteration. */
  function Inverse(v: int): (w: int)
    requires v % 2 == 1
    ensures 1 <= w < 0x20_0000 && (v * w) % 0x20_0000 == 1
  {
    var w1 := v * (2 - v * v);
    var w2 := w1 * (2 - v * w1);
    var w3 := w2 * (2 - v * w2);
    InverseWorks(v, w1, w2, w3);
    w3 % 0x20_0000
  }

  lemma InverseWorks(v: int, w1: int, w2: int, w3: int)
    requires v % 2 == 1
    requires w1 == v * (2 - v * v) && w2 == w1 * (2 - v * w1) && w3 == w2 * (2 - v * w2)
    ensures 1 <= w3 % 0x20_0000 && (v * (w3 % 0x20_0000)) % 0x20_0000 == 1
  {
    var b := OddSquare(v);
    InverseStep(v, v, 8 * b);
    InverseStep(v, w1, -(64 * (b * b)));
    InverseStep(v, w2, -(0x1000 * ((b * b) * (b * b))));
    var e := (b * b) * (b * b);
    var k := -(8 * (e * e));
    assert v * w3 == 1 + k * 0x20_0000;
    ReducedFactor(v, w3, k);
  }

  lemma OddSquare(v: int) returns (b: int)
    requires v % 2 == 1
    ensures v * v == 1 + 8 * b
  {
    var a := v / 2;
    var h := a / 2;
    b := if a % 2 == 0 then h * (a + 1) else a * (h + 1);
    assert v * v == 4 * (a * (a + 1)) + 1;
    if a % 2 == 0 {
      MulAssoc(2, h, a + 1);
    } else {
      assert a + 1 == 2 * (h + 1);
      assert a * (2 * (h + 1)) == 2 * (a * (h + 1));
    }
  }

  /** Each iteration squares the error. */
  lemma InverseStep(v: int, w: int, x: int)
    requires v * w == 1 + x
    ensures v * (w * (2 - v * w)) == 1 - x * x
  {
    MulAssoc(v, w, 2 - v * w);
    assert (1 + x) * (1 - x) == 1 - x * x;
  }

  lemma ReducedFactor(v: int, w: int, k: int)
    requires v * w == 1 + k * 0x20_0000
    ensures 1 <= w % 0x20_0000 && (v * (w % 0x20_0000)) % 0x20_0000 == 1
  {
    var q, r := w / 0x20_0000, w % 0x20_0000;
    assert v * r == v * w - (v * q) * 0x20_0000 by {
      assert w == q * 0x20_0000 + r;
      Distribute(q * 0x20_0000, r, v);
      SwapFactors(v, q, 0x20_0000);
      MulAssoc(v, q, 0x20_0000);
    }
    assert r == 0 ==> v * r == 0;
    DivModUnique(v * r, 0x20_0000, k - v * q, 1);
  }

  /** Which constants are interpolated without a drop. */
  predicate MonotoneConstant(v: q31) {
    if v % 2 == 1 then
      v == 1 || (v < 0 && v + 0x8000_0000 <= 0x800 * (0x10_0000 / Inverse(v) + 1))
    else if v > 0 then OddPart(v) < 0x800
    else v % 0x20_0000 == 0
  }

  lemma NeverBorrowsExactly(v: q31)
    ensures NeverBorrows(v) <==> MonotoneConstant(v)
  {
    hide NeverBorrows;
    if v % 2 == 0 {
      EvenConstant(v);
    } else if v > 0 {
      OddPositive(v);
    } else {
      OddNegative(v);
    }
  }

  // Even constants: all multiples of 2^s occur.

  lemma EvenConstant(v: q31)
    requires v % 2 == 0
    ensures NeverBorrows(v) <==> if v > 0 then OddPart(v) < 0x800 else v % 0x20_0000 == 0
  {
    RoomValue(v);
    if v == 0 {
    } else {
      OddFactor(v);
      var s, m := Twos(v), OddPart(v);
      assert s >= 1;
      if s >= 21 {
        ManyTwos(v, s, m);
      } else {
        FewTwos(v, s, m);
      }
    }
  }

  lemma ManyTwos(v: q31, s: nat, m: int)
    requires v != 0 && v % 2 == 0 && s >= 21 && v == Pow2(s) * m
    ensures NeverBorrows(v) && v % 0x20_0000 == 0
    ensures v > 0 ==> m < 0x800
  {
    hide Pow2, Leftover, Room;
    RoomValue(v);
    Pow2At21();
    Pow2Add(21, s - 21);
    var k := Pow2(s - 21) * m;
    MulAssoc(0x20_0000, Pow2(s - 21), m);
    assert v == 0x20_0000 * k;
    forall f | 0 <= f <= FULL
      ensures Leftover(v, f) <= Room(v)
    {
      MulAssoc(0x20_0000, k, f);
      LeftoverAt(v, f, k * f, 0);
    }
    if m > 0 {
      Pow2Monotone(21, s);
      MulMonotone(0x20_0000, Pow2(s), m);
    }
  }

  lemma FewTwos(v: q31, s: nat, m: int)
    requires v != 0 && 1 <= s <= 20 && v == Pow2(s) * m && m % 2 == 1
    ensures NeverBorrows(v) <==> v > 0 && m < 0x800
    ensures v % 0x20_0000 != 0
  {
    hide Pow2, Leftover, Room;
    var P, Q := Pow2(s), Pow2(21 - s);
    ComplementaryPowers(s);
    EvenFactor(v, P, s, m);
    RoomForMultiples(v, m, P);
    NotMultiple(v, m, P, Q);
    if v > 0 && m < 0x800 {
      forall g | 0 <= g <= FULL
        ensures Leftover(v, g) <= Room(v)
      {
        MultipleResidue(v, m, P, Q, g);
      }
    } else {
      var f := HighestMultiple(v, m, P, Q);
      assert Leftover(v, f) > Room(v);
    }
  }

  lemma Pow2Doubles(n: nat)
    ensures Pow2(n + 1) == 2 * Pow2(n) && Pow2(0) == 1
  {
  }

  lemma Pow2At21()
    ensures Pow2(21) == 0x20_0000
  {
    Pow2At20();
    hide Pow2;
    Pow2Doubles(20);
  }

  lemma ComplementaryPowers(s: nat)
    requires 1 <= s <= 20
    ensures Pow2(s) * Pow2(21 - s) == 0x20_0000
    ensures 2 <= Pow2(s) <= 0x10_0000 && 2 <= Pow2(21 - s) <= 0x10_0000 && Pow2(21 - s) % 2 == 0
  {
    hide Pow2;
    Pow2Doubles(20 - s);
    Pow2Doubles(0);
    Pow2At20();
    Pow2At21();
    Pow2Add(s, 21 - s);
    Pow2Monotone(1, s);
    Pow2Monotone(s, 20);
    Pow2Monotone(21 - s, 20);
    Pow2Monotone(1, 21 - s);
  }

  lemma EvenFactor(v: int, P: int, s: nat, m: int)
    requires P == Pow2(s) && s >= 1 && v == P * m
    ensures v % 2 == 0
  {
    MulAssoc(2, Pow2(s - 1), m);
  }

  lemma NotMultiple(v: int, m: int, P: int, Q: int)
    requires P > 0 && Q > 1 && Q % 2 == 0 && P * Q == 0x20_0000 && v == P * m && m % 2 == 1
    ensures v % 0x20_0000 != 0
  {
    var k, r, h := m / Q, m % Q, Q / 2;
    assert m == k * (2 * h) + r;
    assert k * (2 * h) == 2 * (k * h);
    assert r != 0;
    MulMonotone(1, r, P);
    MulMonotone(r, Q - 1, P);
    Distribute(Q, 1, P);
    assert v == k * 0x20_0000 + P * r by {
      Distribute(k * Q, r, P);
      assert P * (k * Q) == k * (P * Q);
    }
    DivModUnique(v, 0x20_0000, k, P * r);
  }

  lemma MultipleResidue(v: int, m: int, P: int, Q: int, f: int)
    requires P > 0 && Q > 0 && P * Q == 0x20_0000 && v == P * m
    ensures Leftover(v, f) <= 0x800 * (0x20_0000 - P)
  {
    hide Leftover;
    var k, r := (m * f) / Q, (m * f) % Q;
    EuclidDivision(m * f, Q);
    assert v * f == k * 0x20_0000 + P * r by {
      MulAssoc(P, m, f);
      Distribute(k * Q, r, P);
      assert P * (k * Q) == k * (P * Q);
    }
    MulMonotone(r, Q - 1, P);
    MulMonotone(0, r, P);
    Distribute(Q, 1, P);
    LeftoverAt(v, f, k, P * r);
  }

  /** Some fraction reaches the highest of them. */
  lemma HighestMultiple(v: int, m: int, P: int, Q: int) returns (f: int)
    requires P > 0 && 1 < Q <= 0x10_0000 && P * Q == 0x20_0000 && v == P * m && m % 2 == 1
    ensures 0 <= f <= FULL && Leftover(v, f) == 0x800 * (0x20_0000 - P)
  {
    hide Inverse, Leftover;
    var w := Inverse(m);
    var k := (m * w) / 0x20_0000;
    var q := (0 - w) / Q;
    f := (0 - w) % Q;
    EuclidDivision(0 - w, Q);
    EuclidDivision(m * w, 0x20_0000);
    InverseMultiple(v, m, P, Q, w, k, q, f);
    MulMonotone(2, Q, P);
    LeftoverAt(v, f, -P * k - m * q - 1, 0x20_0000 - P);
  }

  lemma InverseMultiple(v: int, m: int, P: int, Q: int, w: int, k: int, q: int, f: int)
    requires P * Q == 0x20_0000 && v == P * m && m * w == 0x20_0000 * k + 1 && -w == Q * q + f
    ensures v * f == -P + (-P * k - m * q) * 0x20_0000
  {
    assert f == -w - q * Q;
    assert (P * m) * f == -(P * (m * w)) - (m * q) * (P * Q);
    assert P * (k * 0x20_0000 + 1) == (P * k) * 0x20_0000 + P;
  }

  /** The room of v = P * m holds them exactly when v is positive and m below 2^11. */
  lemma RoomForMultiples(v: q31, m: int, P: int)
    requires v != 0 && 2 <= P <= 0x10_0000 && v == P * m && m % 2 == 1 && v % 2 == 0
    ensures 0x800 * (0x20_0000 - P) <= Room(v) <==> v > 0 && m < 0x800
  {
    RoomValue(v);
    if m < 0x800 {
      MulMonotone(m, 0x7FF, P);
    } else {
      MulMonotone(0x801, m, P);
    }
    if v < 0 && P == 0x10_0000 {
      assert v == 0x10_0000 * m;
    }
  }

  // Odd constants.

  lemma OddPositive(v: q31)
    requires v % 2 == 1 && v > 0
    ensures NeverBorrows(v) <==> v == 1
  {
    RoomValue(v);
    if v == 1 {
    } else {
      var f := OddPositiveBorrow(v);
      assert Leftover(v, f) > Room(v);
    }
  }

  /** The multiples of an odd v > 1 reach the upper half too early. */
  lemma OddPositiveBorrow(v: q31) returns (f: int)
    requires v % 2 == 1 && v > 1
    ensures 0 <= f <= FULL && Leftover(v, f) > 0x8000_0000 - v
  {
    hide Leftover;
    var k, m := v / 0x20_0000, v % 0x20_0000;
    if m == 1 {
      f := FULL;
    } else if m > 0x10_0000 {
      f := 1;
    } else {
      f := 0x10_0000 / m + 1;
      FirstBeyond(m, f);
    }
    LeftoverResidue(v, f, k, m);
  }

  lemma LeftoverResidue(v: int, f: int, k: int, m: int)
    requires v == k * 0x20_0000 + m && 0 <= m * f < 0x20_0000
    ensures Leftover(v, f) == 0x800 * (m * f)
  {
    hide Leftover;
    Distribute(k * 0x20_0000, m, f);
    SwapFactors(k, 0x20_0000, f);
    LeftoverAt(v, f, k * f, m * f);
  }

  /** The first multiple of w beyond 2^20 is still below 2^21. */
  lemma FirstBeyond(w: int, r: int)
    requires 1 <= w <= 0x10_0000 && w % 2 == 1 && r == 0x10_0000 / w + 1
    ensures 0x10_0000 < w * r < 0x20_0000
    ensures w >= 3 ==> r <= FULL
  {
    var q := 0x10_0000 / w;
    assert 0x10_0000 == q * w + 0x10_0000 % w;
    Distribute(q, 1, w);
    if w >= 3 {
      if q > 0x6_0000 {
        MulMonotone(0x6_0001, q, 3);
        MulMonotone(3, w, q);
      }
    }
  }

  lemma OddNegative(v: q31)
    requires v % 2 == 1 && v < 0
    ensures NeverBorrows(v) <==> v + 0x8000_0000 <= 0x800 * (0x10_0000 / Inverse(v) + 1)
  {
    RoomValue(v);
    var w := Inverse(v);
    var r0 := 0x10_0000 / w + 1;
    if v + 0x8000_0000 <= 0x800 * r0 {
      forall f | 0 <= f <= FULL
        ensures Leftover(v, f) <= Room(v)
      {
        ShortfallAtLeast(v, w, f);
      }
    } else {
      var f := ShortfallReached(v, w);
      assert Leftover(v, f) > Room(v);
    }
  }

  /** With w the inverse of v, a multiple of v falls short of 2^21 by r only for the
      fraction f with w * r + f == 0 modulo 2^21; the first r whose fraction has 20
      bits is the first for which w * r is beyond 2^20. */
  lemma ShortfallAtLeast(v: int, w: int, f: int)
    requires v % 2 == 1 && 1 <= w < 0x20_0000 && (v * w) % 0x20_0000 == 1 && 0 <= f <= FULL
    ensures Leftover(v, f) <= 0x800 * (0x20_0000 - (0x10_0000 / w + 1))
  {
    var r := 0x20_0000 - (v * f) % 0x20_0000;
    var q0 := 0x10_0000 / w;
    QuotientOfPow(w);
    MulMonotone(1, r, w);
    var k := ShortfallFraction(v, w, f, r);
    assert k >= 1;
    if r <= q0 {
      MulMonotone(r, q0, w);
    }
  }

  lemma QuotientOfPow(w: int)
    requires 1 <= w
    ensures 0 <= 0x10_0000 / w <= 0x10_0000 && (0x10_0000 / w) * w <= 0x10_0000
  {
    DivBound(0x10_0000, w);
  }

  lemma ShortfallFraction(v: int, w: int, f: int, r: int) returns (k: int)
    requires (v * w) % 0x20_0000 == 1 && r == 0x20_0000 - (v * f) % 0x20_0000
    ensures w * r + f == k * 0x20_0000
  {
    var a, b := (v * w) / 0x20_0000, (v * f) / 0x20_0000;
    assert v * w == a * 0x20_0000 + 1;
    assert r == (b + 1) * 0x20_0000 - v * f;
    k := w * (b + 1) - a * f;
    Distribute((b + 1) * 0x20_0000, v * f, w);
    assert w * (v * f) == (v * w) * f;
    assert (a * 0x20_0000 + 1) * f == (a * f) * 0x20_0000 + f;
    assert w * ((b + 1) * 0x20_0000) == (w * (b + 1)) * 0x20_0000;
    Distribute(w * (b + 1), a * f, 0x20_0000);
  }

  lemma ShortfallReached(v: int, w: int) returns (f: int)
    requires v % 2 == 1 && 1 <= w < 0x20_0000 && (v * w) % 0x20_0000 == 1
    ensures 0 <= f <= FULL
    ensures Leftover(v, f) == 0x800 * (0x20_0000 - (0x10_0000 / w + 1))
  {
    var r := 0x10_0000 / w + 1;
    OddInverse(v, w);
    BeyondHalf(w, r);
    f := 0x20_0000 - w * r;
    var a := (v * w) / 0x20_0000;
    assert v * w == a * 0x20_0000 + 1;
    Distribute(0x20_0000, w * r, v);
    assert v * (w * r) == (v * w) * r;
    assert (a * 0x20_0000 + 1) * r == (a * r) * 0x20_0000 + r;
    Distribute(v, a * r, 0x20_0000);
    QuotientOfPow(w);
    LeftoverAt(v, f, v - a * r - 1, 0x20_0000 - r);
  }

  lemma BeyondHalf(w: int, r: int)
    requires 1 <= w < 0x20_0000 && w % 2 == 1 && r == 0x10_0000 / w + 1
    ensures 0x10_0000 < w * r < 0x20_0000
  {
    if w <= 0x10_0000 {
      FirstBeyond(w, r);
    } else {
      DivModUnique(0x10_0000, w, 0, 0x10_0000);
    }
  }

  lemma OddInverse(v: int, w: int)
    requires (v * w) % 0x20_0000 == 1
    ensures w % 2 == 1
  {
    var h, odd := w / 2, w % 2;
    Distribute(2 * h, odd, v);
    assert v * (2 * h) == 2 * (v * h);
    assert odd == 0 ==> v * odd == 0;
  }

  /** A table of one value v is interpolated monotonically over all x >= 0 exactly
      for the constants above: 0, 1, the even positive ones with odd part below
      2^11, the other multiples of 2^21, and the odd negative ones close enough to
      the lowest value for the shortfall that their inverse modulo 2^21 dictates. */
  lemma ConstantTableExactly(t: seq<q31>, v: q31)
    requires 2 <= |t| <= 0x8000_0000 && forall i :: 0 <= i < |t| ==> t[i] == v
    ensures MonotoneFrom(t, 0) <==> MonotoneConstant(v)
  {
    hide InterpQ31, CellMonotone31, MonotoneConstant;
    InterpQ31MonotoneExactly(t);
    ConstantCellBorrows(v);
    NeverBorrowsExactly(v);
    if CellsMonotone31(t) {
      assert CellMonotone31(t[0], t[1]);
    }
  }

  /** The drop of two units is reached, on the constant table of the largest q31. */
  lemma InterpQ31NotMonotone()
    ensures var t: seq<q31> := [0x7FFF_FFFF, 0x7FFF_FFFF];
            NonDecreasing(t) && InterpQ31(t, 0) == 0x7FFF_FFFE && InterpQ31(t, 1) == 0x7FFF_FFFC
  {
    hide InterpQ31, HalfSum;
    var t: seq<q31> := [0x7FFF_FFFF, 0x7FFF_FFFF];
    InterpQ31Value(t, 0);
    InterpQ31Value(t, 1);
    ConstantCell();
  }

  lemma ConstantCell()
    ensures HalfSum(0x7FFF_FFFF, 0x7FFF_FFFF, 0) == 0x3FFF_FFFF
    ensures HalfSum(0x7FFF_FFFF, 0x7FFF_FFFF, 1) == 0x3FFF_FFFE
  {
  }
}
