/** The order of the Q15 bilinear interpolation: its early shifts can cost one unit
    of the result, at some points and not at their neighbours. Where they do decides
    whether cells agree where they meet, whether the result is monotone, and whether
    a constant table is interpolated to a constant. */
module BilinearOrder15 {
  import opened Bits
  import opened FixedPoint
  import opened LinearInterpolation
  import opened BilinearInterpolation

  /** The q15 result there, where all reads are inside. */
  function ValueAt(pData: seq<q15>, numRows: nat, numCols: nat, X: q31, Y: q31): q15
    requires |pData| == numRows * numCols && Inner(numRows, numCols, X, Y)
  {
    GridCellReadsFit(numRows, numCols, X / 0x10_0000, Y / 0x10_0000);
    BilinearQ15(pData, numRows, numCols, X, Y)
  }

  lemma ValueAtFloor(pData: seq<q15>, numRows: nat, numCols: nat, X: q31, Y: q31)
    requires |pData| == numRows * numCols && Inner(numRows, numCols, X, Y)
    ensures ValueAt(pData, numRows, numCols, X, Y)
         == ScaledAt(pData, numRows, numCols, X, Y) / 0x100_0000_0000 - LostAt15(pData, numRows, numCols, X, Y)
  {
    hide BilinearQ15, ScaledAt, LostAt15, CornersBetween;
    CornersInFormat(pData, numRows, numCols, X / 0x10_0000, Y / 0x10_0000);
    BilinearQ15Value(pData, numRows, numCols, X, Y, -0x8000, 0x7FFF);
  }

  lemma CornersInFormat(pData: seq<q15>, numRows: nat, numCols: nat, r: nat, c: nat)
    requires |pData| == numRows * numCols && GridCell(numRows, numCols, r, c)
    ensures CornersBetween(pData, numRows, numCols, r, c, -0x8000, 0x7FFF)
  {
    FourEntries(pData, numRows, numCols, r, c);
    hide Entry;
  }

  // ----- two points -----

  /** Between points with ordered weighted sums the q15 results are out of order by
      one unit at most, and exactly when both sums have the same floor and only the
      second point loses a unit. */
  lemma FollowsExactly(pData: seq<q15>, numRows: nat, numCols: nat, X: q31, Y: q31, X': q31, Y': q31)
    requires |pData| == numRows * numCols
    requires Inner(numRows, numCols, X, Y) && Inner(numRows, numCols, X', Y')
    requires ScaledAt(pData, numRows, numCols, X, Y) <= ScaledAt(pData, numRows, numCols, X', Y')
    ensures ValueAt(pData, numRows, numCols, X, Y) <= ValueAt(pData, numRows, numCols, X', Y') + 1
    ensures ValueAt(pData, numRows, numCols, X, Y) <= ValueAt(pData, numRows, numCols, X', Y')
       <==> !(ScaledAt(pData, numRows, numCols, X, Y) / 0x100_0000_0000
                == ScaledAt(pData, numRows, numCols, X', Y') / 0x100_0000_0000
              && LostAt15(pData, numRows, numCols, X, Y) < LostAt15(pData, numRows, numCols, X', Y'))
  {
    hide ValueAt, ScaledAt, LostAt15;
    ValueAtFloor(pData, numRows, numCols, X, Y);
    ValueAtFloor(pData, numRows, numCols, X', Y');
    FloorMonotone(ScaledAt(pData, numRows, numCols, X, Y), ScaledAt(pData, numRows, numCols, X', Y'));
  }

  // ----- seams -----

  /** The loss on either side of a seam between the entries a and b that the two cells
      share, at the fraction f between them: the last fraction of the first axis. */
  function SeamLossR(a: int, b: int, f: int, before: bool): int {
    (if before then ((a * (FULL - f)) % 16) * FULL else ((a * FULL) % 16) * (FULL - f))
    + ((b * FULL) % 16) * f
  }

  /** The last fraction of the second axis. */
  function SeamLossC(a: int, b: int, f: int, before: bool): int {
    ((a * (FULL - f)) % 16) * FULL
    + (if before then ((b * f) % 16) * FULL else ((b * FULL) % 16) * f)
  }

  /** Neighbouring q15 cells differ by at most one unit where they meet, and agree
      exactly when both sides lose the unit or neither does, which the two entries
      on the seam and the fraction between them decide. */
  lemma SeamAlongRExactly(pData: seq<q15>, numRows: nat, numCols: nat, X: q31, Y: q31)
    requires |pData| == numRows * numCols && X < 0x7FFF_FFFF
    requires X % 0x10_0000 == FULL
    requires Inner(numRows, numCols, X, Y) && Inner(numRows, numCols, X + 1, Y)
    ensures Abs(ValueAt(pData, numRows, numCols, X, Y) - ValueAt(pData, numRows, numCols, X + 1, Y)) <= 1
    ensures var r, c, f := X / 0x10_0000, Y / 0x10_0000, Y % 0x10_0000;
            var a, b := Entry(pData, numRows, numCols, r + 1, c), Entry(pData, numRows, numCols, r + 1, c + 1);
            var w := FULL * Cell(a, b, f);
            (ValueAt(pData, numRows, numCols, X, Y) == ValueAt(pData, numRows, numCols, X + 1, Y)
             <==> LostUnit(w, SeamLossR(a, b, f, true)) == LostUnit(w, SeamLossR(a, b, f, false)))
  {
    hide ValueAt, ScaledAt, LostAt15, LostUnit, Entry, Cell, SeamLossR;
    ScaledSeamAlongR(pData, numRows, numCols, X, Y);
    ValueAtFloor(pData, numRows, numCols, X, Y);
    ValueAtFloor(pData, numRows, numCols, X + 1, Y);
    SeamUnitsR(pData, numRows, numCols, X, Y);
  }

  /** The unit lost on either side of such a seam. */
  lemma SeamUnitsR(pData: seq<int>, numRows: nat, numCols: nat, X: nat, Y: nat)
    requires |pData| == numRows * numCols && X % 0x10_0000 == FULL
    requires Inner(numRows, numCols, X, Y) && Inner(numRows, numCols, X + 1, Y)
    ensures (X + 1) / 0x10_0000 == X / 0x10_0000 + 1
    ensures var r, c, f := X / 0x10_0000, Y / 0x10_0000, Y % 0x10_0000;
            var a, b := Entry(pData, numRows, numCols, r + 1, c), Entry(pData, numRows, numCols, r + 1, c + 1);
            var w := FULL * Cell(a, b, f);
            LostAt15(pData, numRows, numCols, X, Y) == LostUnit(w, SeamLossR(a, b, f, true))
            && LostAt15(pData, numRows, numCols, X + 1, Y) == LostUnit(w, SeamLossR(a, b, f, false))
  {
    hide Entry, Weighted, Lost15, LostUnit, Cell, SeamLossR;
    assert (X + 1) / 0x10_0000 == X / 0x10_0000 + 1 && (X + 1) % 0x10_0000 == 0;
    ScaledSeamAlongR(pData, numRows, numCols, X, Y);
    var r, c, f := X / 0x10_0000, Y / 0x10_0000, Y % 0x10_0000;
    SeamBeforeR(Entry(pData, numRows, numCols, r, c), Entry(pData, numRows, numCols, r + 1, c),
                Entry(pData, numRows, numCols, r, c + 1), Entry(pData, numRows, numCols, r + 1, c + 1), f);
    SeamAfterR(Entry(pData, numRows, numCols, r + 1, c), Entry(pData, numRows, numCols, r + 2, c),
               Entry(pData, numRows, numCols, r + 1, c + 1), Entry(pData, numRows, numCols, r + 2, c + 1), f);
  }

  lemma SeamBeforeR(x1: int, x2: int, y1: int, y2: int, f: int)
    ensures Weighted(x1, x2, y1, y2, FULL, f) == FULL * Cell(x2, y2, f)
    ensures Lost15(x1, x2, y1, y2, FULL, f) == SeamLossR(x2, y2, f, true)
  {
    FullCell(x2, y2, f);
    NoWeight(x1, FULL - f);
    NoWeight(y1, f);
  }

  lemma FullCell(a: int, b: int, f: int)
    ensures Cell(a * FULL, b * FULL, f) == FULL * Cell(a, b, f)
  {
    SwapFactors(a, FULL, FULL - f);
    SwapFactors(b, FULL, f);
  }

  lemma NoWeight(v: int, u: int)
    ensures ((v * 0) % 16) * u == 0
  {
  }

  lemma SeamAfterR(x1: int, x2: int, y1: int, y2: int, f: int)
    ensures Lost15(x1, x2, y1, y2, 0, f) == SeamLossR(x1, y1, f, false)
  {
    NoWeight(y2, f);
  }

  lemma SeamAlongCExactly(pData: seq<q15>, numRows: nat, numCols: nat, X: q31, Y: q31)
    requires |pData| == numRows * numCols && Y < 0x7FFF_FFFF
    requires Y % 0x10_0000 == FULL
    requires Inner(numRows, numCols, X, Y) && Inner(numRows, numCols, X, Y + 1)
    ensures Abs(ValueAt(pData, numRows, numCols, X, Y) - ValueAt(pData, numRows, numCols, X, Y + 1)) <= 1
    ensures var r, c, f := X / 0x10_0000, Y / 0x10_0000, X % 0x10_0000;
            var a, b := Entry(pData, numRows, numCols, r, c + 1), Entry(pData, numRows, numCols, r + 1, c + 1);
            var w := FULL * Cell(a, b, f);
            (ValueAt(pData, numRows, numCols, X, Y) == ValueAt(pData, numRows, numCols, X, Y + 1)
             <==> LostUnit(w, SeamLossC(a, b, f, true)) == LostUnit(w, SeamLossC(a, b, f, false)))
  {
    hide ValueAt, ScaledAt, LostAt15, LostUnit, Entry, Cell, SeamLossC;
    ScaledSeamAlongC(pData, numRows, numCols, X, Y);
    ValueAtFloor(pData, numRows, numCols, X, Y);
    ValueAtFloor(pData, numRows, numCols, X, Y + 1);
    SeamUnitsC(pData, numRows, numCols, X, Y);
  }

  /** The unit lost on either side of such a seam. */
  lemma SeamUnitsC(pData: seq<int>, numRows: nat, numCols: nat, X: nat, Y: nat)
    requires |pData| == numRows * numCols && Y % 0x10_0000 == FULL
    requires Inner(numRows, numCols, X, Y) && Inner(numRows, numCols, X, Y + 1)
    ensures (Y + 1) / 0x10_0000 == Y / 0x10_0000 + 1
    ensures var r, c, f := X / 0x10_0000, Y / 0x10_0000, X % 0x10_0000;
            var a, b := Entry(pData, numRows, numCols, r, c + 1), Entry(pData, numRows, numCols, r + 1, c + 1);
            var w := FULL * Cell(a, b, f);
            LostAt15(pData, numRows, numCols, X, Y) == LostUnit(w, SeamLossC(a, b, f, true))
            && LostAt15(pData, numRows, numCols, X, Y + 1) == LostUnit(w, SeamLossC(a, b, f, false))
  {
    hide Entry, Weighted, Lost15, LostUnit, Cell, SeamLossC;
    assert (Y + 1) / 0x10_0000 == Y / 0x10_0000 + 1 && (Y + 1) % 0x10_0000 == 0;
    ScaledSeamAlongC(pData, numRows, numCols, X, Y);
    var r, c, f := X / 0x10_0000, Y / 0x10_0000, X % 0x10_0000;
    SeamBeforeC(Entry(pData, numRows, numCols, r, c), Entry(pData, numRows, numCols, r + 1, c),
                Entry(pData, numRows, numCols, r, c + 1), Entry(pData, numRows, numCols, r + 1, c + 1), f);
    SeamAfterC(Entry(pData, numRows, numCols, r, c + 1), Entry(pData, numRows, numCols, r + 1, c + 1),
               Entry(pData, numRows, numCols, r, c + 2), Entry(pData, numRows, numCols, r + 1, c + 2), f);
  }

  lemma SeamBeforeC(x1: int, x2: int, y1: int, y2: int, f: int)
    ensures Weighted(x1, x2, y1, y2, f, FULL) == FULL * Cell(y1, y2, f)
    ensures Lost15(x1, x2, y1, y2, f, FULL) == SeamLossC(y1, y2, f, true)
  {
    NoWeight(x2, f);
    hide Cell;
    CellSlope(Cell(x1, x2, f), Cell(y1, y2, f), FULL);
  }

  lemma SeamAfterC(x1: int, x2: int, y1: int, y2: int, f: int)
    ensures Lost15(x1, x2, y1, y2, f, 0) == SeamLossC(x1, x2, f, false)
  {
  }

  // ----- monotone tables -----

  /** The result never drops along the first axis. */
  ghost predicate MonotoneInX(pData: seq<q15>, numRows: nat, numCols: nat)
    requires |pData| == numRows * numCols
  {
    forall X: q31, X': q31, Y: q31 ::
      X <= X' && Inner(numRows, numCols, X, Y) && Inner(numRows, numCols, X', Y) ==>
        ValueAt(pData, numRows, numCols, X, Y) <= ValueAt(pData, numRows, numCols, X', Y)
  }

  /** No point loses a unit that a point to its left, with the same floor, keeps. */
  ghost predicate UnitsKeptInX(pData: seq<q15>, numRows: nat, numCols: nat)
    requires |pData| == numRows * numCols
  {
    forall X: q31, X': q31, Y: q31 ::
      X <= X' && Inner(numRows, numCols, X, Y) && Inner(numRows, numCols, X', Y)
      && ScaledAt(pData, numRows, numCols, X, Y) / 0x100_0000_0000
         == ScaledAt(pData, numRows, numCols, X', Y) / 0x100_0000_0000 ==>
        LostAt15(pData, numRows, numCols, X, Y) >= LostAt15(pData, numRows, numCols, X', Y)
  }

  /** On non-decreasing rows only the lost units can break monotonicity. */
  lemma MonotoneInXExactly(pData: seq<q15>, numRows: nat, numCols: nat)
    requires |pData| == numRows * numCols && RowsNonDecreasing(pData, numRows, numCols)
    ensures MonotoneInX(pData, numRows, numCols) <==> UnitsKeptInX(pData, numRows, numCols)
  {
    hide ValueAt, ScaledAt, LostAt15, RowsNonDecreasing;
    forall X: q31, X': q31, Y: q31
      | X <= X' && Inner(numRows, numCols, X, Y) && Inner(numRows, numCols, X', Y)
      ensures ValueAt(pData, numRows, numCols, X, Y) <= ValueAt(pData, numRows, numCols, X', Y)
         <==> !(ScaledAt(pData, numRows, numCols, X, Y) / 0x100_0000_0000
                  == ScaledAt(pData, numRows, numCols, X', Y) / 0x100_0000_0000
                && LostAt15(pData, numRows, numCols, X, Y) < LostAt15(pData, numRows, numCols, X', Y))
    {
      ScaledMonotoneInX(pData, numRows, numCols, X, X', Y);
      FollowsExactly(pData, numRows, numCols, X, Y, X', Y);
    }
  }

  /** The result never drops along the second axis. */
  ghost predicate MonotoneInY(pData: seq<q15>, numRows: nat, numCols: nat)
    requires |pData| == numRows * numCols
  {
    forall X: q31, Y: q31, Y': q31 ::
      Y <= Y' && Inner(numRows, numCols, X, Y) && Inner(numRows, numCols, X, Y') ==>
        ValueAt(pData, numRows, numCols, X, Y) <= ValueAt(pData, numRows, numCols, X, Y')
  }

  /** No point loses a unit that a point below it, with the same floor, keeps. */
  ghost predicate UnitsKeptInY(pData: seq<q15>, numRows: nat, numCols: nat)
    requires |pData| == numRows * numCols
  {
    forall X: q31, Y: q31, Y': q31 ::
      Y <= Y' && Inner(numRows, numCols, X, Y) && Inner(numRows, numCols, X, Y')
      && ScaledAt(pData, numRows, numCols, X, Y) / 0x100_0000_0000
         == ScaledAt(pData, numRows, numCols, X, Y') / 0x100_0000_0000 ==>
        LostAt15(pData, numRows, numCols, X, Y) >= LostAt15(pData, numRows, numCols, X, Y')
  }

  /** On non-decreasing columns only the lost units can break monotonicity. */
  lemma MonotoneInYExactly(pData: seq<q15>, numRows: nat, numCols: nat)
    requires |pData| == numRows * numCols && ColumnsNonDecreasing(pData, numRows, numCols)
    ensures MonotoneInY(pData, numRows, numCols) <==> UnitsKeptInY(pData, numRows, numCols)
  {
    hide ValueAt, ScaledAt, LostAt15, ColumnsNonDecreasing;
    forall X: q31, Y: q31, Y': q31
      | Y <= Y' && Inner(numRows, numCols, X, Y) && Inner(numRows, numCols, X, Y')
      ensures ValueAt(pData, numRows, numCols, X, Y) <= ValueAt(pData, numRows, numCols, X, Y')
         <==> !(ScaledAt(pData, numRows, numCols, X, Y) / 0x100_0000_0000
                  == ScaledAt(pData, numRows, numCols, X, Y') / 0x100_0000_0000
                && LostAt15(pData, numRows, numCols, X, Y) < LostAt15(pData, numRows, numCols, X, Y'))
    {
      ScaledMonotoneInY(pData, numRows, numCols, X, Y, Y');
      FollowsExactly(pData, numRows, numCols, X, Y, X, Y');
    }
  }

  // ----- tables that lose nothing -----

  ghost predicate Sixteenths(pData: seq<int>) {
    forall i :: 0 <= i < |pData| ==> pData[i] % 16 == 0
  }

  /** Entries that are multiples of 16 survive the early shifts: the result is the
      floor of the weighted sum everywhere, so cells agree at every seam and the
      result is as monotone as the table. */
  lemma SixteenthsLoseNothing(pData: seq<q15>, numRows: nat, numCols: nat, X: q31, Y: q31)
    requires |pData| == numRows * numCols && Inner(numRows, numCols, X, Y) && Sixteenths(pData)
    ensures ValueAt(pData, numRows, numCols, X, Y) == ScaledAt(pData, numRows, numCols, X, Y) / 0x100_0000_0000
  {
    hide ValueAt, Weighted, Lost15;
    ValueAtFloor(pData, numRows, numCols, X, Y);
    var r, c := X / 0x10_0000, Y / 0x10_0000;
    FourEntries(pData, numRows, numCols, r, c);
    hide Entry;
    MultiplesLoseNothing(Entry(pData, numRows, numCols, r, c), Entry(pData, numRows, numCols, r + 1, c),
                         Entry(pData, numRows, numCols, r, c + 1), Entry(pData, numRows, numCols, r + 1, c + 1),
                         X % 0x10_0000, Y % 0x10_0000);
  }

  lemma SixteenthsMonotone(pData: seq<q15>, numRows: nat, numCols: nat)
    requires |pData| == numRows * numCols && Sixteenths(pData)
    ensures RowsNonDecreasing(pData, numRows, numCols) ==> MonotoneInX(pData, numRows, numCols)
    ensures ColumnsNonDecreasing(pData, numRows, numCols) ==> MonotoneInY(pData, numRows, numCols)
  {
    hide ScaledAt, LostAt15, MonotoneInX, MonotoneInY, Sixteenths;
    forall X: q31, Y: q31 | Inner(numRows, numCols, X, Y)
      ensures LostAt15(pData, numRows, numCols, X, Y) == 0
    {
      ValueAtFloor(pData, numRows, numCols, X, Y);
      SixteenthsLoseNothing(pData, numRows, numCols, X, Y);
    }
    hide RowsNonDecreasing, ColumnsNonDecreasing;
    if RowsNonDecreasing(pData, numRows, numCols) {
      MonotoneInXExactly(pData, numRows, numCols);
    }
    if ColumnsNonDecreasing(pData, numRows, numCols) {
      MonotoneInYExactly(pData, numRows, numCols);
    }
  }

  lemma MultiplesLoseNothing(x1: int, x2: int, y1: int, y2: int, xf: int, yf: int)
    requires x1 % 16 == 0 && x2 % 16 == 0 && y1 % 16 == 0 && y2 % 16 == 0
    ensures Lost15(x1, x2, y1, y2, xf, yf) == 0
  {
    MultipleOf16(x1, FULL - xf);
    MultipleOf16(x2, FULL - yf);
    MultipleOf16(y1, FULL - xf);
    MultipleOf16(y2, xf);
  }

  lemma MultipleOf16(v: int, w: int)
    requires v % 16 == 0
    ensures (v * w) % 16 == 0
  {
    var k := v / 16;
    MulAssoc(16, k, w);
    DivModUnique(v * w, 16, k * w, 0);
  }

  // ----- constant tables -----

  /** The constants at which no point loses a unit. */
  predicate SteadyConstant(v: int) {
    v >= 0 || v <= -14 || v == -12 || v == -8
  }

  lemma ConstantWeighted(v: int, xf: int, yf: int)
    requires 0 <= xf <= FULL && 0 <= yf <= FULL
    ensures Weighted(v, v, v, v, xf, yf) == v * (FULL * FULL)
  {
    WeightedRange(v, v, v, v, xf, yf, v, v);
  }

  /** The total weight is 2^40 - 2^21 + 1, so a negative constant has room for 2^21 - 1
      times its size, and a positive one has more than any loss. */
  lemma ConstantRoom(v: q15)
    ensures v > 0 ==> (v * (FULL * FULL)) % 0x100_0000_0000 >= 60 * FULL
    ensures v <= 0 ==> (v * (FULL * FULL)) % 0x100_0000_0000 == (0 - v) * (2 * FULL + 1)
  {
    if v > 0 {
      DivModUnique(v * (FULL * FULL), 0x100_0000_0000, v - 1, 0x100_0000_0000 - v * (2 * FULL + 1));
    } else {
      DivModUnique(v * (FULL * FULL), 0x100_0000_0000, v, (0 - v) * (2 * FULL + 1));
    }
  }

  /** The loss of a constant cell by its three different remainders. */
  lemma ConstantLoss(v: int, xf: int, yf: int)
    requires 0 <= xf <= FULL && 0 <= yf <= FULL
    ensures Lost15(v, v, v, v, xf, yf)
         <= ((v * (FULL - xf)) % 16 + (v * (FULL - yf)) % 16 + (v * xf) % 16) * FULL
  {
    var A, B, C := (v * (FULL - xf)) % 16, (v * (FULL - yf)) % 16, (v * xf) % 16;
    Distribute(FULL - yf, yf, A);
    MulMonotone(xf, FULL, B);
    MulMonotone(yf, FULL, C);
    Distribute(A + B, C, FULL);
    Distribute(A, B, FULL);
  }

  /** Remainders of multiples of g. */
  lemma RemainderStep(v: int, w: int, g: int)
    requires g == 1 || g == 2 || g == 4 || g == 8 || g == 16
    requires v % g == 0
    ensures (v * w) % 16 <= 16 - g
  {
    EuclidDivision(v, g);
    MulAssoc(g, v / g, w);
    MultipleRemainder(v * w, v / g * w, g);
  }

  lemma MultipleRemainder(p: int, q: int, g: int)
    requires g == 1 || g == 2 || g == 4 || g == 8 || g == 16
    requires p == g * q
    ensures p % 16 <= 16 - g
  {
    if g == 2 {
      assert p == 2 * q;
    } else if g == 4 {
      assert p == 4 * q;
    } else if g == 8 {
      assert p == 8 * q;
    } else if g == 16 {
      assert p == 16 * q;
    }
  }

  /** The two complementary ones add up to -v modulo 16. */
  lemma RemainderPair(v: int, w: int)
    ensures ((v * (FULL - w)) % 16 + (v * w) % 16) % 16 == (-v) % 16
  {
    Distribute(FULL, w, v);
    PairModulo(v * FULL - v * w, v * w, v);
  }

  lemma PairModulo(x: int, y: int, v: int)
    requires x + y == v * FULL
    ensures (x % 16 + y % 16) % 16 == (-v) % 16
  {
  }

  lemma SteadyRemainders(v: int, xf: int, yf: int)
    requires -22 <= v < 0 && SteadyConstant(v)
    ensures (v * (FULL - xf)) % 16 + (v * (FULL - yf)) % 16 + (v * xf) % 16 <= -2 * v
  {
    var g := if v == -16 then 16 else if v == -8 then 8 else if v % 4 == 0 then 4 else if v % 2 == 0 then 2 else 1;
    RemainderStep(v, FULL - xf, g);
    RemainderStep(v, FULL - yf, g);
    RemainderStep(v, xf, g);
    RemainderPair(v, xf);
    PairBound(v, g, (v * (FULL - xf)) % 16, (v * (FULL - yf)) % 16, (v * xf) % 16);
  }

  lemma PairBound(v: int, g: int, A: int, B: int, C: int)
    requires -22 <= v < 0 && SteadyConstant(v)
    requires g == if v == -16 then 16 else if v == -8 then 8 else if v % 4 == 0 then 4 else if v % 2 == 0 then 2 else 1
    requires 0 <= A <= 16 - g && 0 <= B <= 16 - g && 0 <= C <= 16 - g && (A + C) % 16 == (-v) % 16
    ensures A + B + C <= -2 * v
  {
  }

  lemma SteadyLoss(v: q15, xf: int, yf: int)
    requires 0 <= xf <= FULL && 0 <= yf <= FULL && SteadyConstant(v)
    ensures Lost15(v, v, v, v, xf, yf) <= (v * (FULL * FULL)) % 0x100_0000_0000
  {
    hide Lost15, SteadyConstant;
    ConstantRoom(v);
    ConstantLoss(v, xf, yf);
    var sum := (v * (FULL - xf)) % 16 + (v * (FULL - yf)) % 16 + (v * xf) % 16;
    assert 0 <= sum <= 45;
    if v == 0 {
    } else if -22 <= v < 0 {
      SteadyRemainders(v, xf, yf);
    }
  }

  /** One point loses the unit for every other constant. */
  lemma UnsteadyLoss(v: q15)
    requires !SteadyConstant(v)
    ensures Lost15(v, v, v, v, 1048565, 1048566) > (v * (FULL * FULL)) % 0x100_0000_0000
    ensures Lost15(v, v, v, v, 0, 1048566) <= (v * (FULL * FULL)) % 0x100_0000_0000
  {
    hide Lost15;
    ConstantRoom(v);
    LossAtStart(v, 1048566);
    LossNearEnd(v);
    UnsteadyRemainders(v);
  }

  lemma LossAtStart(v: int, yf: int)
    ensures Lost15(v, v, v, v, 0, yf) == ((-v) % 16) * FULL
  {
    var A := (v * FULL) % 16;
    assert A == (-v) % 16;
    NoWeight(v, yf);
    Distribute(FULL - yf, yf, A);
  }

  lemma LossNearEnd(v: int)
    ensures Lost15(v, v, v, v, 1048565, 1048566)
         == ((10 * v) % 16) * FULL + ((9 * v) % 16) * 1048565 + ((5 * v) % 16) * 1048566
  {
    assert (v * 1048565) % 16 == (5 * v) % 16;
    Distribute(9, 1048566, (10 * v) % 16);
  }

  lemma UnsteadyRemainders(v: int)
    requires !SteadyConstant(v)
    ensures ((10 * v) % 16) * FULL + ((9 * v) % 16) * 1048565 + ((5 * v) % 16) * 1048566 > -v * (2 * FULL + 1)
    ensures ((-v) % 16) * FULL <= -v * (2 * FULL + 1)
  {
    assert v == -1 || v == -2 || v == -3 || v == -4 || v == -5 || v == -6 || v == -7
        || v == -9 || v == -10 || v == -11 || v == -13;
  }

  ghost predicate AllEqual(pData: seq<int>, v: int) {
    forall i :: 0 <= i < |pData| ==> pData[i] == v
  }

  /** Every two inner points have the same result. */
  ghost predicate Flat(pData: seq<q15>, numRows: nat, numCols: nat)
    requires |pData| == numRows * numCols
  {
    forall X: q31, Y: q31, X': q31, Y': q31 ::
      Inner(numRows, numCols, X, Y) && Inner(numRows, numCols, X', Y') ==>
        ValueAt(pData, numRows, numCols, X, Y) == ValueAt(pData, numRows, numCols, X', Y')
  }

  /** A table of one value v is interpolated to one value exactly for v >= 0,
      v <= -14, v == -12 and v == -8; for the others it is not even monotone. */
  lemma ConstantTableExactly(pData: seq<q15>, numRows: nat, numCols: nat, v: q15)
    requires |pData| == numRows * numCols && numRows >= 2 && numCols >= 2 && AllEqual(pData, v)
    ensures Flat(pData, numRows, numCols) <==> SteadyConstant(v)
    ensures MonotoneInX(pData, numRows, numCols) <==> SteadyConstant(v)
  {
    hide ValueAt, SteadyConstant, AllEqual;
    if SteadyConstant(v) {
      forall X: q31, Y: q31 | Inner(numRows, numCols, X, Y)
        ensures ValueAt(pData, numRows, numCols, X, Y) == (v * (FULL * FULL)) / 0x100_0000_0000
      {
        ConstantValue(pData, numRows, numCols, v, X, Y);
        SteadyLoss(v, X % 0x10_0000, Y % 0x10_0000);
      }
    } else {
      ConstantValue(pData, numRows, numCols, v, 0, 1048566);
      ConstantValue(pData, numRows, numCols, v, 1048565, 1048566);
      UnsteadyLoss(v);
      assert Inner(numRows, numCols, 0, 1048566) && Inner(numRows, numCols, 1048565, 1048566);
      assert ValueAt(pData, numRows, numCols, 0, 1048566) > ValueAt(pData, numRows, numCols, 1048565, 1048566);
    }
  }

  lemma ConstantValue(pData: seq<q15>, numRows: nat, numCols: nat, v: q15, X: q31, Y: q31)
    requires |pData| == numRows * numCols && AllEqual(pData, v) && Inner(numRows, numCols, X, Y)
    ensures var w := v * (FULL * FULL);
            ValueAt(pData, numRows, numCols, X, Y)
              == w / 0x100_0000_0000 - LostUnit(w, Lost15(v, v, v, v, X % 0x10_0000, Y % 0x10_0000))
  {
    hide ValueAt, Weighted, Lost15, LostUnit;
    ValueAtFloor(pData, numRows, numCols, X, Y);
    var r, c := X / 0x10_0000, Y / 0x10_0000;
    FourEntries(pData, numRows, numCols, r, c);
    hide Entry;
    ConstantWeighted(v, X % 0x10_0000, Y % 0x10_0000);
  }
}
