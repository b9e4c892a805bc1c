/** Bilinear interpolation in a two-dimensional table, Q7, Q15 and Q31. The table entry
    of grid point (r, c) is pData[r + numCols * c]. */
module BilinearInterpolation {
  import opened Bits
  import opened FixedPoint
  import opened LinearInterpolation

  /** The kernels' own boundary test: it compares r with numRows and c with numCols. */
  predicate GuardPasses(numRows: nat, numCols: nat, r: int, c: int) {
    !(r < 0 || r > numRows - 1 || c < 0 || c > numCols - 1)
  }

  /** The last of the four reads of the cell (r, c) is inside the table. */
  predicate ReadsFit(length: nat, numCols: nat, r: nat, c: nat) {
    r + numCols * (c + 1) + 1 < length
  }

  /** The cell (r, c) has its four corners on the grid. */
  predicate GridCell(numRows: nat, numCols: nat, r: int, c: int) {
    0 <= r && 0 <= c && r + 1 < numCols && c + 1 < numRows
  }

  /** A point in a cell of the grid that passes the kernel's test. */
  predicate Inner(numRows: nat, numCols: nat, X: int, Y: int) {
    GridCell(numRows, numCols, X / 0x10_0000, Y / 0x10_0000)
    && X / 0x10_0000 < numRows && Y / 0x10_0000 < numCols
  }

  lemma CornersInTable(length: nat, numCols: nat, r: nat, c: nat)
    requires ReadsFit(length, numCols, r, c)
    ensures 0 <= numCols * c
    ensures r + numCols * c + 1 < length && r + numCols * (c + 1) < length
  {
    MulMonotone(c, c + 1, numCols);
    MulMonotone(0, c, numCols);
  }

  lemma GridCellReadsFit(numRows: nat, numCols: nat, r: nat, c: nat)
    requires GridCell(numRows, numCols, r, c)
    ensures ReadsFit(numRows * numCols, numCols, r, c)
  {
    MulMonotone(c + 2, numRows, numCols);
  }

  /** The test is weaker than the reads need: for a point that passes, the last read
      is inside the table exactly when r + 1 is below the number of entries in the
      rows after the next one. If the table is at least as wide as it is high, that
      leaves out the last row and the right edge of the row before it. */
  lemma GuardVersusReads(numRows: nat, numCols: nat, r: nat, c: nat)
    requires GuardPasses(numRows, numCols, r, c)
    ensures ReadsFit(numRows * numCols, numCols, r, c) <==> r + 1 < (numRows - 1 - c) * numCols
    ensures numRows <= numCols ==>
      (ReadsFit(numRows * numCols, numCols, r, c) <==> c + 1 < numRows && (r + 1 < numCols || c + 2 < numRows))
  {
    Distribute(numRows, c + 1, numCols);
    if c + 1 >= numRows {
      MulMonotone(numRows - 1 - c, 0, numCols);
    } else if c + 2 < numRows {
      MulMonotone(2, numRows - 1 - c, numCols);
    }
  }

  /** Every point of 12.20 format that passes the test has its reads inside the table. */
  ghost predicate GuardSound(numRows: nat, numCols: nat) {
    forall X: q31, Y: q31 :: PointSafe(numRows, numCols, X, Y)
  }

  predicate PointSafe(numRows: nat, numCols: nat, X: q31, Y: q31) {
    GuardPasses(numRows, numCols, X / 0x10_0000, Y / 0x10_0000) ==>
      ReadsFit(numRows * numCols, numCols, X / 0x10_0000, Y / 0x10_0000)
  }

  /** That holds for empty tables and for tables so much higher than wide that even
      the last row and column of the test, or of the format, are far from the end. */
  lemma GuardSoundExactly(numRows: nat, numCols: nat)
    ensures var R, C := Min(numRows, 0x800), Min(numCols, 0x800);
            GuardSound(numRows, numCols) <==> R == 0 || C == 0 || R < (numRows - C) * numCols
  {
    var R, C := Min(numRows, 0x800), Min(numCols, 0x800);
    if R > 0 && C > 0 {
      var X: q31, Y: q31 := (R - 1) * 0x10_0000, (C - 1) * 0x10_0000;
      assert X / 0x10_0000 == R - 1 && Y / 0x10_0000 == C - 1;
      GuardVersusReads(numRows, numCols, R - 1, C - 1);
      if R < (numRows - C) * numCols {
        forall X: q31, Y: q31
          ensures PointSafe(numRows, numCols, X, Y)
        {
          WorstPoint(numRows, numCols, X, Y, R, C);
        }
      } else {
        assert !PointSafe(numRows, numCols, X, Y);
      }
    }
  }

  lemma WorstPoint(numRows: nat, numCols: nat, X: q31, Y: q31, R: nat, C: nat)
    requires R == Min(numRows, 0x800) && C == Min(numCols, 0x800)
    requires R < (numRows - C) * numCols
    ensures PointSafe(numRows, numCols, X, Y)
  {
    var r, c := X / 0x10_0000, Y / 0x10_0000;
    if GuardPasses(numRows, numCols, r, c) {
      GuardVersusReads(numRows, numCols, r, c);
      MulMonotone(numRows - C, numRows - 1 - c, numCols);
    }
  }

  /** The table entry of grid point (r, c). */
  function Entry(pData: seq<int>, numRows: nat, numCols: nat, r: nat, c: nat): int
    requires |pData| == numRows * numCols && r < numCols && c < numRows
  {
    MulMonotone(c + 1, numRows, numCols);
    MulMonotone(0, c, numCols);
    pData[r + numCols * c]
  }

  // ----- the exact weighted sum -----

  /** Linear interpolation along r in both rows, then along c between them. */
  function Weighted(x1: int, x2: int, y1: int, y2: int, xf: int, yf: int): int {
    Cell(Cell(x1, x2, xf), Cell(y1, y2, xf), yf)
  }

  /** The order of the two axes does not matter. */
  lemma WeightedSwap(x1: int, x2: int, y1: int, y2: int, xf: int, yf: int)
    ensures Weighted(x1, x2, y1, y2, xf, yf)
         == Cell(Cell(x1, y1, yf), Cell(x2, y2, yf), xf)
    ensures Weighted(x1, x2, y1, y2, xf, yf)
         == (x1 * (FULL - xf)) * (FULL - yf) + (x2 * (FULL - yf)) * xf
            + (y1 * (FULL - xf)) * yf + (y2 * xf) * yf
  {
    var u, v := FULL - xf, FULL - yf;
    Distribute(x1 * u, x2 * xf, v);
    Distribute(y1 * u, y2 * xf, yf);
    Distribute(x1 * v, y1 * yf, u);
    Distribute(x2 * v, y2 * yf, xf);
    SwapFactors(x1, u, v);
    SwapFactors(x2, xf, v);
    SwapFactors(y1, u, yf);
    SwapFactors(y2, xf, yf);
  }

  lemma WeightedRange(x1: int, x2: int, y1: int, y2: int, xf: int, yf: int, lo: int, hi: int)
    requires 0 <= xf <= FULL && 0 <= yf <= FULL
    requires lo <= x1 <= hi && lo <= x2 <= hi && lo <= y1 <= hi && lo <= y2 <= hi
    ensures lo * (FULL * FULL) <= Weighted(x1, x2, y1, y2, xf, yf) <= hi * (FULL * FULL)
  {
    hide Cell;
    var a, b := Cell(x1, x2, xf), Cell(y1, y2, xf);
    CellRange(x1, x2, xf);
    CellRange(y1, y2, xf);
    CellRange(a, b, yf);
    assert lo * FULL <= a <= hi * FULL && lo * FULL <= b <= hi * FULL;
    assert (lo * FULL) * FULL == lo * (FULL * FULL) && (hi * FULL) * FULL == hi * (FULL * FULL);
  }

  /** The total weight falls short of 2^40 by 2^21 - 1: truncation of a value v in
      [lo, hi] with a loss below 2^36 stays in [lo - 1, hi]. */
  lemma TruncateWeighted(w: int, loss: int, lo: q15, hi: q15)
    requires lo * (FULL * FULL) <= w <= hi * (FULL * FULL)
    requires 0 <= loss < 0x10_0000_0000
    ensures lo - 1 <= (w - loss) / 0x100_0000_0000
    ensures w / 0x100_0000_0000 <= hi
  {
  }

  // ----- Q7 -----

  /** arm_bilinear_interp_q7 */
  function BilinearQ7(pData: seq<q7>, numRows: nat, numCols: nat, X: q31, Y: q31): q7
    requires GuardPasses(numRows, numCols, X / 0x10_0000, Y / 0x10_0000)
         ==> ReadsFit(|pData|, numCols, X / 0x10_0000, Y / 0x10_0000)
  {
    SplitAbscissa(X);
    SplitAbscissa(Y);
    var rI, cI := Index(X), Index(Y);
    if rI < 0 || rI > numRows - 1 || cI < 0 || cI > numCols - 1 then 0
    else
      CornersInTable(|pData|, numCols, rI, cI);
      var x1, x2 := pData[rI + numCols * cI], pData[rI + numCols * cI + 1];
      var y1, y2 := pData[rI + numCols * (cI + 1)], pData[rI + numCols * (cI + 1) + 1];
      Wrap8(CellSum7(x1, x2, y1, y2, Fraction(X), Fraction(Y)) / 0x100_0000_0000)
  }

  /** The accumulator of the four terms. */
  function CellSum7(x1: q7, x2: q7, y1: q7, y2: q7, xfract: nat, yfract: nat): q63 {
    var acc := Wrap64(Wrap32(x1 * (0xF_FFFF - xfract)) * (0xF_FFFF - yfract));
    var acc := Wrap64(acc + Wrap32(x2 * (0xF_FFFF - yfract)) * xfract);
    var acc := Wrap64(acc + Wrap32(y1 * (0xF_FFFF - xfract)) * yfract);
    Wrap64(acc + Wrap32(y2 * yfract) * xfract)
  }

  lemma Q7Weight(v: q7, w: int, u: int)
    requires 0 <= w <= FULL && 0 <= u <= FULL
    ensures Wrap32(v * w) == v * w
    ensures -0x8000_0000_0000 <= (v * w) * u <= 0x8000_0000_0000
  {
    hide Wrap32;
    ProductBound(v, w, 0x80, FULL);
    ProductBound(v * w, u, 0x80 * FULL, FULL);
  }

  /** The accumulation of the q7 kernel neither wraps nor truncates before the end. */
  lemma Q7Accumulate(x1: q7, x2: q7, y1: q7, y2: q7, xf: nat, yf: nat)
    requires xf <= FULL && yf <= FULL
    ensures CellSum7(x1, x2, y1, y2, xf, yf) == Weighted(x1, x2, y1, y2, xf, yf)
    ensures Wrap8(Weighted(x1, x2, y1, y2, xf, yf) / 0x100_0000_0000)
         == Weighted(x1, x2, y1, y2, xf, yf) / 0x100_0000_0000
  {
    hide Wrap64, Wrap32, Weighted, Wrap8;
    Q7Weight(x1, 0xF_FFFF - xf, 0xF_FFFF - yf);
    Q7Weight(x2, 0xF_FFFF - yf, xf);
    Q7Weight(y1, 0xF_FFFF - xf, yf);
    Q7Weight(y2, yf, xf);
    WeightedSwap(x1, x2, y1, y2, xf, yf);
    assert (y2 * yf) * xf == (y2 * xf) * yf;
    WeightedRange(x1, x2, y1, y2, xf, yf, -0x80, 0x7F);
    Q7Truncated(Weighted(x1, x2, y1, y2, xf, yf));
  }

  lemma Q7Truncated(w: int)
    requires -0x80 * (FULL * FULL) <= w <= 0x7F * (FULL * FULL)
    ensures -0x80 <= w / 0x100_0000_0000 <= 0x7F
  {
  }

  lemma FourEntries(pData: seq<int>, numRows: nat, numCols: nat, r: nat, c: nat)
    requires |pData| == numRows * numCols && GridCell(numRows, numCols, r, c)
    ensures ReadsFit(|pData|, numCols, r, c) && 0 <= numCols * c
    ensures r + numCols * c + 1 < |pData| && 0 <= r + numCols * (c + 1) < |pData|
    ensures pData[r + numCols * c] == Entry(pData, numRows, numCols, r, c)
    ensures pData[r + numCols * c + 1] == Entry(pData, numRows, numCols, r + 1, c)
    ensures pData[r + numCols * (c + 1)] == Entry(pData, numRows, numCols, r, c + 1)
    ensures pData[r + numCols * (c + 1) + 1] == Entry(pData, numRows, numCols, r + 1, c + 1)
  {
    GridCellReadsFit(numRows, numCols, r, c);
    CornersInTable(|pData|, numCols, r, c);
  }

  /** On every cell of the grid: the floor of the exact weighted sum over 2^40, if
      the cell also passes the kernel's test, and zero otherwise. On a table that is
      not square the test rejects inner cells with r >= numRows or c >= numCols. */
  lemma BilinearQ7Value(pData: seq<q7>, numRows: nat, numCols: nat, X: q31, Y: q31)
    requires |pData| == numRows * numCols
    requires GridCell(numRows, numCols, X / 0x10_0000, Y / 0x10_0000)
    ensures ReadsFit(|pData|, numCols, X / 0x10_0000, Y / 0x10_0000)
    ensures var r, c := X / 0x10_0000, Y / 0x10_0000;
            BilinearQ7(pData, numRows, numCols, X, Y) ==
              if r < numRows && c < numCols
              then ScaledAt(pData, numRows, numCols, X, Y) / 0x100_0000_0000
              else 0
  {
    hide Index, Fraction, Wrap8, CellSum7, Weighted;
    SplitAbscissa(X);
    SplitAbscissa(Y);
    var r, c := X / 0x10_0000, Y / 0x10_0000;
    GridCellReadsFit(numRows, numCols, r, c);
    CornersInTable(|pData|, numCols, r, c);
    FourEntries(pData, numRows, numCols, r, c);
    hide Entry;
    Q7Accumulate(pData[r + numCols * c], pData[r + numCols * c + 1],
                 pData[r + numCols * (c + 1)], pData[r + numCols * (c + 1) + 1],
                 X % 0x10_0000, Y % 0x10_0000);
  }

  /** The four table entries that the kernels read for the cell (r, c), the entry one
      further included where r is at the right edge. */
  datatype Corners = Corners(x1: int, x2: int, y1: int, y2: int)

  function CornersAt(pData: seq<int>, numCols: nat, r: nat, c: nat): Corners
    requires ReadsFit(|pData|, numCols, r, c)
  {
    CornersInTable(|pData|, numCols, r, c);
    Corners(pData[r + numCols * c], pData[r + numCols * c + 1],
            pData[r + numCols * (c + 1)], pData[r + numCols * (c + 1) + 1])
  }

  /** At every point: zero if it does not pass the test, and otherwise the floor of the
      weighted sum of the four reads. */
  lemma BilinearQ7Everywhere(pData: seq<q7>, numRows: nat, numCols: nat, X: q31, Y: q31)
    requires GuardPasses(numRows, numCols, X / 0x10_0000, Y / 0x10_0000)
         ==> ReadsFit(|pData|, numCols, X / 0x10_0000, Y / 0x10_0000)
    ensures BilinearQ7(pData, numRows, numCols, X, Y) ==
      if GuardPasses(numRows, numCols, X / 0x10_0000, Y / 0x10_0000) then
        var k := CornersAt(pData, numCols, X / 0x10_0000, Y / 0x10_0000);
        Weighted(k.x1, k.x2, k.y1, k.y2, X % 0x10_0000, Y % 0x10_0000) / 0x100_0000_0000
      else 0
  {
    hide Index, Fraction, Wrap8, CellSum7, Weighted;
    SplitAbscissa(X);
    SplitAbscissa(Y);
    var r, c := X / 0x10_0000, Y / 0x10_0000;
    if GuardPasses(numRows, numCols, r, c) {
      CornersInTable(|pData|, numCols, r, c);
      Q7Accumulate(pData[r + numCols * c], pData[r + numCols * c + 1],
                   pData[r + numCols * (c + 1)], pData[r + numCols * (c + 1) + 1],
                   X % 0x10_0000, Y % 0x10_0000);
    }
  }

  /** The weighted sum at an inner point of the grid. */
  function ScaledAt(pData: seq<int>, numRows: nat, numCols: nat, X: nat, Y: nat): int
    requires |pData| == numRows * numCols
    requires GridCell(numRows, numCols, X / 0x10_0000, Y / 0x10_0000)
  {
    var r, c := X / 0x10_0000, Y / 0x10_0000;
    Weighted(Entry(pData, numRows, numCols, r, c), Entry(pData, numRows, numCols, r + 1, c),
             Entry(pData, numRows, numCols, r, c + 1), Entry(pData, numRows, numCols, r + 1, c + 1),
             X % 0x10_0000, Y % 0x10_0000)
  }

  /** Row c blended with row c + 1 at the fraction of Y. */
  function BlendedRow(pData: seq<int>, numRows: nat, numCols: nat, Y: nat): (row: seq<int>)
    requires |pData| == numRows * numCols && Y / 0x10_0000 + 1 < numRows
    ensures |row| == numCols
  {
    var c := Y / 0x10_0000;
    seq(numCols, (r: nat) requires r < numCols =>
      Cell(Entry(pData, numRows, numCols, r, c), Entry(pData, numRows, numCols, r, c + 1), Y % 0x10_0000))
  }

  /** For a fixed Y the weighted sum is the one-dimensional interpolation of the
      blended row, across all its cells. */
  lemma ScaledAtIsBlendedRow(pData: seq<int>, numRows: nat, numCols: nat, X: nat, Y: nat)
    requires |pData| == numRows * numCols
    requires GridCell(numRows, numCols, X / 0x10_0000, Y / 0x10_0000)
    ensures ScaledAt(pData, numRows, numCols, X, Y) == Scaled(BlendedRow(pData, numRows, numCols, Y), X)
  {
    hide Entry, Weighted, Cell;
    var r, c := X / 0x10_0000, Y / 0x10_0000;
    WeightedSwap(Entry(pData, numRows, numCols, r, c), Entry(pData, numRows, numCols, r + 1, c),
                 Entry(pData, numRows, numCols, r, c + 1), Entry(pData, numRows, numCols, r + 1, c + 1),
                 X % 0x10_0000, Y % 0x10_0000);
  }

  /** Column r blended with column r + 1 at the fraction of X. */
  function BlendedColumn(pData: seq<int>, numRows: nat, numCols: nat, X: nat): (column: seq<int>)
    requires |pData| == numRows * numCols && X / 0x10_0000 + 1 < numCols
    ensures |column| == numRows
  {
    var r := X / 0x10_0000;
    seq(numRows, (c: nat) requires c < numRows =>
      Cell(Entry(pData, numRows, numCols, r, c), Entry(pData, numRows, numCols, r + 1, c), X % 0x10_0000))
  }

  lemma ScaledAtIsBlendedColumn(pData: seq<int>, numRows: nat, numCols: nat, X: nat, Y: nat)
    requires |pData| == numRows * numCols
    requires GridCell(numRows, numCols, X / 0x10_0000, Y / 0x10_0000)
    ensures ScaledAt(pData, numRows, numCols, X, Y) == Scaled(BlendedColumn(pData, numRows, numCols, X), Y)
  {
    hide Entry, Cell;
  }

  /** Neighbouring cells agree where they meet: the last fraction of cell r and the
      first fraction of cell r + 1 give the same sum. */
  lemma ScaledSeamAlongR(pData: seq<int>, numRows: nat, numCols: nat, X: nat, Y: nat)
    requires |pData| == numRows * numCols && X % 0x10_0000 == FULL
    requires GridCell(numRows, numCols, X / 0x10_0000, Y / 0x10_0000)
    requires GridCell(numRows, numCols, X / 0x10_0000 + 1, Y / 0x10_0000)
    ensures (X + 1) / 0x10_0000 == X / 0x10_0000 + 1
    ensures ScaledAt(pData, numRows, numCols, X, Y) == ScaledAt(pData, numRows, numCols, X + 1, Y)
  {
    hide Cell, ScaledAt;
    assert (X + 1) / 0x10_0000 == X / 0x10_0000 + 1 && (X + 1) % 0x10_0000 == 0;
    ScaledAtIsBlendedRow(pData, numRows, numCols, X, Y);
    ScaledAtIsBlendedRow(pData, numRows, numCols, X + 1, Y);
    var t := BlendedRow(pData, numRows, numCols, Y);
    hide BlendedRow;
    var r := X / 0x10_0000;
    CellSlope(t[r], t[r + 1], FULL);
    CellSlope(t[r + 1], t[r + 2], 0);
  }

  /** The same along the other axis. */
  lemma ScaledSeamAlongC(pData: seq<int>, numRows: nat, numCols: nat, X: nat, Y: nat)
    requires |pData| == numRows * numCols && Y % 0x10_0000 == FULL
    requires GridCell(numRows, numCols, X / 0x10_0000, Y / 0x10_0000)
    requires GridCell(numRows, numCols, X / 0x10_0000, Y / 0x10_0000 + 1)
    ensures (Y + 1) / 0x10_0000 == Y / 0x10_0000 + 1
    ensures ScaledAt(pData, numRows, numCols, X, Y) == ScaledAt(pData, numRows, numCols, X, Y + 1)
  {
    hide Cell, ScaledAt;
    assert (Y + 1) / 0x10_0000 == Y / 0x10_0000 + 1 && (Y + 1) % 0x10_0000 == 0;
    ScaledAtIsBlendedColumn(pData, numRows, numCols, X, Y);
    ScaledAtIsBlendedColumn(pData, numRows, numCols, X, Y + 1);
    var t := BlendedColumn(pData, numRows, numCols, X);
    hide BlendedColumn;
    var c := Y / 0x10_0000;
    CellSlope(t[c], t[c + 1], FULL);
    CellSlope(t[c + 1], t[c + 2], 0);
  }

  /** So the q7 results agree. */
  lemma BilinearQ7SeamAlongR(pData: seq<q7>, numRows: nat, numCols: nat, X: q31, Y: q31)
    requires |pData| == numRows * numCols && X < 0x7FFF_FFFF
    requires X % 0x10_0000 == FULL
    requires GridCell(numRows, numCols, X / 0x10_0000, Y / 0x10_0000)
    requires GridCell(numRows, numCols, X / 0x10_0000 + 1, Y / 0x10_0000)
    requires X / 0x10_0000 + 1 < numRows && Y / 0x10_0000 < numCols
    ensures ReadsFit(|pData|, numCols, X / 0x10_0000, Y / 0x10_0000)
    ensures ReadsFit(|pData|, numCols, (X + 1) / 0x10_0000, Y / 0x10_0000)
    ensures BilinearQ7(pData, numRows, numCols, X, Y) == BilinearQ7(pData, numRows, numCols, X + 1, Y)
  {
    hide BilinearQ7, ScaledAt;
    ScaledSeamAlongR(pData, numRows, numCols, X, Y);
    BilinearQ7Value(pData, numRows, numCols, X, Y);
    BilinearQ7Value(pData, numRows, numCols, X + 1, Y);
  }

  lemma BilinearQ7SeamAlongC(pData: seq<q7>, numRows: nat, numCols: nat, X: q31, Y: q31)
    requires |pData| == numRows * numCols && Y < 0x7FFF_FFFF
    requires Y % 0x10_0000 == FULL
    requires GridCell(numRows, numCols, X / 0x10_0000, Y / 0x10_0000)
    requires GridCell(numRows, numCols, X / 0x10_0000, Y / 0x10_0000 + 1)
    requires X / 0x10_0000 < numRows && Y / 0x10_0000 + 1 < numCols
    ensures ReadsFit(|pData|, numCols, X / 0x10_0000, Y / 0x10_0000)
    ensures ReadsFit(|pData|, numCols, X / 0x10_0000, (Y + 1) / 0x10_0000)
    ensures BilinearQ7(pData, numRows, numCols, X, Y) == BilinearQ7(pData, numRows, numCols, X, Y + 1)
  {
    hide BilinearQ7, ScaledAt;
    ScaledSeamAlongC(pData, numRows, numCols, X, Y);
    BilinearQ7Value(pData, numRows, numCols, X, Y);
    BilinearQ7Value(pData, numRows, numCols, X, Y + 1);
  }

  predicate RowsNonDecreasing(pData: seq<int>, numRows: nat, numCols: nat)
    requires |pData| == numRows * numCols
  {
    forall c, i, j :: 0 <= c < numRows && 0 <= i <= j < numCols ==>
      Entry(pData, numRows, numCols, i, c) <= Entry(pData, numRows, numCols, j, c)
  }

  predicate ColumnsNonDecreasing(pData: seq<int>, numRows: nat, numCols: nat)
    requires |pData| == numRows * numCols
  {
    forall r, i, j :: 0 <= r < numCols && 0 <= i <= j < numRows ==>
      Entry(pData, numRows, numCols, r, i) <= Entry(pData, numRows, numCols, r, j)
  }

  lemma ScaledMonotoneInX(pData: seq<int>, numRows: nat, numCols: nat, X: nat, X': nat, Y: nat)
    requires |pData| == numRows * numCols && RowsNonDecreasing(pData, numRows, numCols)
    requires X <= X' && GridCell(numRows, numCols, X' / 0x10_0000, Y / 0x10_0000)
    ensures GridCell(numRows, numCols, X / 0x10_0000, Y / 0x10_0000)
    ensures ScaledAt(pData, numRows, numCols, X, Y) <= ScaledAt(pData, numRows, numCols, X', Y)
  {
    hide Cell, ScaledAt;
    ScaledAtIsBlendedRow(pData, numRows, numCols, X, Y);
    ScaledAtIsBlendedRow(pData, numRows, numCols, X', Y);
    BlendedRowNonDecreasing(pData, numRows, numCols, Y);
    var t := BlendedRow(pData, numRows, numCols, Y);
    hide BlendedRow;
    ScaledMonotone(t, X, X');
  }

  lemma ScaledMonotoneInY(pData: seq<int>, numRows: nat, numCols: nat, X: nat, Y: nat, Y': nat)
    requires |pData| == numRows * numCols && ColumnsNonDecreasing(pData, numRows, numCols)
    requires Y <= Y' && GridCell(numRows, numCols, X / 0x10_0000, Y' / 0x10_0000)
    ensures GridCell(numRows, numCols, X / 0x10_0000, Y / 0x10_0000)
    ensures ScaledAt(pData, numRows, numCols, X, Y) <= ScaledAt(pData, numRows, numCols, X, Y')
  {
    hide Cell, ScaledAt;
    ScaledAtIsBlendedColumn(pData, numRows, numCols, X, Y);
    ScaledAtIsBlendedColumn(pData, numRows, numCols, X, Y');
    BlendedColumnNonDecreasing(pData, numRows, numCols, X);
    var t := BlendedColumn(pData, numRows, numCols, X);
    hide BlendedColumn;
    ScaledMonotone(t, Y, Y');
  }

  /** If every row of the table is non-decreasing, the q7 interpolation is
      non-decreasing in X over the part of the grid that passes the test. */
  lemma BilinearQ7MonotoneInX(pData: seq<q7>, numRows: nat, numCols: nat, X: q31, X': q31, Y: q31)
    requires |pData| == numRows * numCols
    requires RowsNonDecreasing(pData, numRows, numCols)
    requires 0 <= X <= X'
    requires GridCell(numRows, numCols, X' / 0x10_0000, Y / 0x10_0000)
    requires X' / 0x10_0000 < numRows && Y / 0x10_0000 < numCols
    ensures ReadsFit(|pData|, numCols, X / 0x10_0000, Y / 0x10_0000)
    ensures ReadsFit(|pData|, numCols, X' / 0x10_0000, Y / 0x10_0000)
    ensures BilinearQ7(pData, numRows, numCols, X, Y) <= BilinearQ7(pData, numRows, numCols, X', Y)
  {
    hide BilinearQ7, ScaledAt, RowsNonDecreasing;
    ScaledMonotoneInX(pData, numRows, numCols, X, X', Y);
    BilinearQ7Value(pData, numRows, numCols, X, Y);
    BilinearQ7Value(pData, numRows, numCols, X', Y);
    FloorMonotone(ScaledAt(pData, numRows, numCols, X, Y), ScaledAt(pData, numRows, numCols, X', Y));
  }

  /** If every column is, it is non-decreasing in Y. */
  lemma BilinearQ7MonotoneInY(pData: seq<q7>, numRows: nat, numCols: nat, X: q31, Y: q31, Y': q31)
    requires |pData| == numRows * numCols
    requires ColumnsNonDecreasing(pData, numRows, numCols)
    requires 0 <= Y <= Y'
    requires GridCell(numRows, numCols, X / 0x10_0000, Y' / 0x10_0000)
    requires X / 0x10_0000 < numRows && Y' / 0x10_0000 < numCols
    ensures ReadsFit(|pData|, numCols, X / 0x10_0000, Y / 0x10_0000)
    ensures ReadsFit(|pData|, numCols, X / 0x10_0000, Y' / 0x10_0000)
    ensures BilinearQ7(pData, numRows, numCols, X, Y) <= BilinearQ7(pData, numRows, numCols, X, Y')
  {
    hide BilinearQ7, ScaledAt, ColumnsNonDecreasing;
    ScaledMonotoneInY(pData, numRows, numCols, X, Y, Y');
    BilinearQ7Value(pData, numRows, numCols, X, Y);
    BilinearQ7Value(pData, numRows, numCols, X, Y');
    FloorMonotone(ScaledAt(pData, numRows, numCols, X, Y), ScaledAt(pData, numRows, numCols, X, Y'));
  }

  lemma BlendedColumnNonDecreasing(pData: seq<int>, numRows: nat, numCols: nat, X: nat)
    requires |pData| == numRows * numCols && X / 0x10_0000 + 1 < numCols
    requires ColumnsNonDecreasing(pData, numRows, numCols)
    ensures NonDecreasing(BlendedColumn(pData, numRows, numCols, X))
  {
    hide Entry, Cell;
    var r, f := X / 0x10_0000, X % 0x10_0000;
    var t := BlendedColumn(pData, numRows, numCols, X);
    forall i, j | 0 <= i <= j < |t|
      ensures t[i] <= t[j]
    {
      CellOrdered(Entry(pData, numRows, numCols, r, i), Entry(pData, numRows, numCols, r + 1, i),
                  Entry(pData, numRows, numCols, r, j), Entry(pData, numRows, numCols, r + 1, j), f);
    }
  }

  lemma BlendedRowNonDecreasing(pData: seq<int>, numRows: nat, numCols: nat, Y: nat)
    requires |pData| == numRows * numCols && Y / 0x10_0000 + 1 < numRows
    requires RowsNonDecreasing(pData, numRows, numCols)
    ensures NonDecreasing(BlendedRow(pData, numRows, numCols, Y))
  {
    hide Entry, Cell;
    var c, f := Y / 0x10_0000, Y % 0x10_0000;
    var t := BlendedRow(pData, numRows, numCols, Y);
    forall i, j | 0 <= i <= j < |t|
      ensures t[i] <= t[j]
    {
      CellOrdered(Entry(pData, numRows, numCols, i, c), Entry(pData, numRows, numCols, i, c + 1),
                  Entry(pData, numRows, numCols, j, c), Entry(pData, numRows, numCols, j, c + 1), f);
    }
  }

  lemma CellOrdered(y0: int, y1: int, z0: int, z1: int, f: int)
    requires y0 <= z0 && y1 <= z1 && 0 <= f <= FULL
    ensures Cell(y0, y1, f) <= Cell(z0, z1, f)
  {
    MulMonotone(y0, z0, FULL - f);
    MulMonotone(y1, z1, f);
  }

  lemma FloorMonotone(x: int, y: int)
    requires x <= y
    ensures x / 0x100_0000_0000 <= y / 0x100_0000_0000
  {
  }

  /** The result lies between the four corners, at most one unit below. */
  lemma BilinearQ7Range(pData: seq<q7>, numRows: nat, numCols: nat, X: q31, Y: q31, lo: q7, hi: q7)
    requires |pData| == numRows * numCols
    requires GridCell(numRows, numCols, X / 0x10_0000, Y / 0x10_0000)
    requires X / 0x10_0000 < numRows && Y / 0x10_0000 < numCols
    requires CornersBetween(pData, numRows, numCols, X / 0x10_0000, Y / 0x10_0000, lo, hi)
    ensures ReadsFit(|pData|, numCols, X / 0x10_0000, Y / 0x10_0000)
    ensures lo - 1 <= BilinearQ7(pData, numRows, numCols, X, Y) <= hi
  {
    hide BilinearQ7, Weighted, Entry;
    BilinearQ7Value(pData, numRows, numCols, X, Y);
    var r, c := X / 0x10_0000, Y / 0x10_0000;
    WeightedRange(Entry(pData, numRows, numCols, r, c), Entry(pData, numRows, numCols, r + 1, c),
                  Entry(pData, numRows, numCols, r, c + 1), Entry(pData, numRows, numCols, r + 1, c + 1),
                  X % 0x10_0000, Y % 0x10_0000, lo, hi);
    TruncateWeighted(ScaledAt(pData, numRows, numCols, X, Y), 0, lo, hi);
  }

  /** All four corners of the cell are in [lo, hi]. */
  predicate CornersBetween(pData: seq<int>, numRows: nat, numCols: nat, r: nat, c: nat, lo: int, hi: int)
    requires |pData| == numRows * numCols && GridCell(numRows, numCols, r, c)
  {
    lo <= Entry(pData, numRows, numCols, r, c) <= hi
    && lo <= Entry(pData, numRows, numCols, r + 1, c) <= hi
    && lo <= Entry(pData, numRows, numCols, r, c + 1) <= hi
    && lo <= Entry(pData, numRows, numCols, r + 1, c + 1) <= hi
  }

  // ----- Q15 -----

  /** arm_bilinear_interp_q15 */
  function BilinearQ15(pData: seq<q15>, numRows: nat, numCols: nat, X: q31, Y: q31): q15
    requires GuardPasses(numRows, numCols, X / 0x10_0000, Y / 0x10_0000)
         ==> ReadsFit(|pData|, numCols, X / 0x10_0000, Y / 0x10_0000)
  {
    SplitAbscissa(X);
    SplitAbscissa(Y);
    var rI, cI := Index(X), Index(Y);
    if rI < 0 || rI > numRows - 1 || cI < 0 || cI > numCols - 1 then 0
    else
      CornersInTable(|pData|, numCols, rI, cI);
      var x1, x2 := pData[rI + numCols * cI], pData[rI + numCols * cI + 1];
      var y1, y2 := pData[rI + numCols * (cI + 1)], pData[rI + numCols * (cI + 1) + 1];
      Wrap16(CellSum15(x1, x2, y1, y2, Fraction(X), Fraction(Y)) / 0x10_0000_0000)
  }

  /** The accumulator: each first product is shifted down by 4 to fit 32 bits. */
  function CellSum15(x1: q15, x2: q15, y1: q15, y2: q15, xfract: nat, yfract: nat): q63 {
    var acc := Wrap64(Wrap32((x1 * (0xF_FFFF - xfract)) / 16) * (0xF_FFFF - yfract));
    var acc := Wrap64(acc + Wrap32((x2 * (0xF_FFFF - yfract)) / 16) * xfract);
    var acc := Wrap64(acc + Wrap32((y1 * (0xF_FFFF - xfract)) / 16) * yfract);
    Wrap64(acc + Wrap32((y2 * xfract) / 16) * yfract)
  }

  /** What the four early shifts lose, weighted. */
  function Lost15(x1: int, x2: int, y1: int, y2: int, xf: int, yf: int): int {
    ((x1 * (FULL - xf)) % 16) * (FULL - yf) + ((x2 * (FULL - yf)) % 16) * xf
    + ((y1 * (FULL - xf)) % 16) * yf + ((y2 * xf) % 16) * yf
  }

  /** One early shift: nothing wraps, and less than 16 units of weight u are lost. */
  lemma Q15Weight(v: q15, w: int, u: int)
    requires 0 <= w <= FULL && 0 <= u <= FULL
    ensures Wrap32((v * w) / 16) == (v * w) / 16
    ensures (v * w) * u - 16 * (((v * w) / 16) * u) == ((v * w) % 16) * u
    ensures 0 <= ((v * w) % 16) * u <= 15 * FULL
    ensures -0x10_0000_0000_0000 <= ((v * w) / 16) * u <= 0x10_0000_0000_0000
  {
    hide Wrap32;
    ProductBound(v, w, 0x8000, FULL);
    var p, q, rem := v * w, (v * w) / 16, (v * w) % 16;
    assert -0x7FFF_F800 <= q <= 0x7FFF_F800;
    ProductBound(q, u, 0x8000_0000, FULL);
    Distribute(16 * q, rem, u);
    MulAssoc(16, q, u);
    MulMonotone(0, rem, u);
    MulMonotone(rem, 15, u);
  }

  /** The q15 accumulator holds 1/16 of the weighted sum less the loss; nothing wraps. */
  lemma Q15Accumulate(x1: q15, x2: q15, y1: q15, y2: q15, xf: nat, yf: nat)
    requires xf <= FULL && yf <= FULL
    ensures Weighted(x1, x2, y1, y2, xf, yf) - 16 * CellSum15(x1, x2, y1, y2, xf, yf)
         == Lost15(x1, x2, y1, y2, xf, yf)
    ensures 0 <= Lost15(x1, x2, y1, y2, xf, yf) <= 60 * FULL
  {
    hide Wrap64, Wrap32, Weighted;
    Q15Weight(x1, 0xF_FFFF - xf, 0xF_FFFF - yf);
    Q15Weight(x2, 0xF_FFFF - yf, xf);
    Q15Weight(y1, 0xF_FFFF - xf, yf);
    Q15Weight(y2, xf, yf);
    WeightedSwap(x1, x2, y1, y2, xf, yf);
  }

  /** The loss costs a unit of the result exactly when it is more than the sum has
      above the last multiple of 2^40. */
  function LostUnit(w: int, lost: int): int {
    if lost <= w % 0x100_0000_0000 then 0 else 1
  }

  lemma ShiftedLoss(w: int, acc: int)
    requires 0 <= w - 16 * acc <= 60 * FULL
    ensures acc / 0x10_0000_0000 == (w - (w - 16 * acc)) / 0x100_0000_0000
         == w / 0x100_0000_0000 - LostUnit(w, w - 16 * acc)
  {
  }

  /** The unit lost at an inner point of the grid. */
  function LostAt15(pData: seq<int>, numRows: nat, numCols: nat, X: nat, Y: nat): (u: int)
    requires |pData| == numRows * numCols
    requires GridCell(numRows, numCols, X / 0x10_0000, Y / 0x10_0000)
    ensures 0 <= u <= 1
  {
    var r, c := X / 0x10_0000, Y / 0x10_0000;
    LostUnit(ScaledAt(pData, numRows, numCols, X, Y),
             Lost15(Entry(pData, numRows, numCols, r, c), Entry(pData, numRows, numCols, r + 1, c),
                    Entry(pData, numRows, numCols, r, c + 1), Entry(pData, numRows, numCols, r + 1, c + 1),
                    X % 0x10_0000, Y % 0x10_0000))
  }

  /** At every point: zero if it does not pass the test, and otherwise the floor of the
      weighted sum of the four reads less the lost unit. */
  lemma BilinearQ15Everywhere(pData: seq<q15>, numRows: nat, numCols: nat, X: q31, Y: q31)
    requires GuardPasses(numRows, numCols, X / 0x10_0000, Y / 0x10_0000)
         ==> ReadsFit(|pData|, numCols, X / 0x10_0000, Y / 0x10_0000)
    ensures BilinearQ15(pData, numRows, numCols, X, Y) ==
      if GuardPasses(numRows, numCols, X / 0x10_0000, Y / 0x10_0000) then
        var k := CornersAt(pData, numCols, X / 0x10_0000, Y / 0x10_0000);
        var w := Weighted(k.x1, k.x2, k.y1, k.y2, X % 0x10_0000, Y % 0x10_0000);
        w / 0x100_0000_0000 - LostUnit(w, Lost15(k.x1, k.x2, k.y1, k.y2, X % 0x10_0000, Y % 0x10_0000))
      else 0
  {
    hide Index, Fraction, Wrap16, CellSum15, Weighted, Lost15, LostUnit;
    SplitAbscissa(X);
    SplitAbscissa(Y);
    var r, c := X / 0x10_0000, Y / 0x10_0000;
    if GuardPasses(numRows, numCols, r, c) {
      CornersInTable(|pData|, numCols, r, c);
      Q15Final(pData[r + numCols * c], pData[r + numCols * c + 1],
               pData[r + numCols * (c + 1)], pData[r + numCols * (c + 1) + 1],
               X % 0x10_0000, Y % 0x10_0000, -0x8000, 0x7FFF);
    }
  }

  /** On grid cells that pass the test the q15 result is the floor of the exact
      weighted sum over 2^40 less the lost unit, between the corners as in q7. */
  lemma BilinearQ15Value(pData: seq<q15>, numRows: nat, numCols: nat, X: q31, Y: q31, lo: q15, hi: q15)
    requires |pData| == numRows * numCols
    requires GridCell(numRows, numCols, X / 0x10_0000, Y / 0x10_0000)
    requires X / 0x10_0000 < numRows && Y / 0x10_0000 < numCols
    requires CornersBetween(pData, numRows, numCols, X / 0x10_0000, Y / 0x10_0000, lo, hi)
    ensures ReadsFit(|pData|, numCols, X / 0x10_0000, Y / 0x10_0000)
    ensures BilinearQ15(pData, numRows, numCols, X, Y)
         == ScaledAt(pData, numRows, numCols, X, Y) / 0x100_0000_0000 - LostAt15(pData, numRows, numCols, X, Y)
    ensures lo - 1 <= BilinearQ15(pData, numRows, numCols, X, Y) <= hi
  {
    hide Index, Fraction, Wrap16, CellSum15, Weighted, Lost15, LostUnit;
    SplitAbscissa(X);
    SplitAbscissa(Y);
    var r, c := X / 0x10_0000, Y / 0x10_0000;
    FourEntries(pData, numRows, numCols, r, c);
    hide Entry;
    var x1, x2 := pData[r + numCols * c], pData[r + numCols * c + 1];
    var y1, y2 := pData[r + numCols * (c + 1)], pData[r + numCols * (c + 1) + 1];
    Q15Final(x1, x2, y1, y2, X % 0x10_0000, Y % 0x10_0000, lo, hi);
  }

  lemma Q15Final(x1: q15, x2: q15, y1: q15, y2: q15, xf: nat, yf: nat, lo: q15, hi: q15)
    requires xf <= FULL && yf <= FULL
    requires lo <= x1 <= hi && lo <= x2 <= hi && lo <= y1 <= hi && lo <= y2 <= hi
    ensures var out := Wrap16(CellSum15(x1, x2, y1, y2, xf, yf) / 0x10_0000_0000);
            var w := Weighted(x1, x2, y1, y2, xf, yf);
            out == w / 0x100_0000_0000 - LostUnit(w, Lost15(x1, x2, y1, y2, xf, yf))
            && lo - 1 <= out <= hi
  {
    hide CellSum15, Weighted, Wrap16, Lost15, LostUnit;
    Q15Accumulate(x1, x2, y1, y2, xf, yf);
    var acc := CellSum15(x1, x2, y1, y2, xf, yf);
    var w := Weighted(x1, x2, y1, y2, xf, yf);
    WeightedRange(x1, x2, y1, y2, xf, yf, lo, hi);
    WeightedRange(x1, x2, y1, y2, xf, yf, -0x8000, 0x7FFF);
    ShiftedLoss(w, acc);
    TruncateWeighted(w, w - 16 * acc, lo, hi);
    TruncateWeighted(w, 0, lo, hi);
    LowestFits(w, acc);
    FloorMonotone(w - (w - 16 * acc), w);
  }

  lemma LowestFits(w: int, acc: int)
    requires -0x8000 * (FULL * FULL) <= w && 0 <= w - 16 * acc <= 60 * FULL
    ensures -0x8000 <= acc / 0x10_0000_0000
  {
  }

  // ----- Q31 -----

  /** One of the four terms: two truncated high-word products. */
  function Term31(v: q31, w: int, u: int): q31
    requires 0 <= w < 0x8000_0000 && 0 <= u < 0x8000_0000
  {
    Wrap32(Product63(Wrap32(Product63(v, w) / 0x1_0000_0000), u) / 0x1_0000_0000)
  }

  /** arm_bilinear_interp_q31: fractions are scaled to 31 bits, the sum is in 3.29. */
  function BilinearQ31(pData: seq<q31>, numRows: nat, numCols: nat, X: q31, Y: q31): q31
    requires GuardPasses(numRows, numCols, X / 0x10_0000, Y / 0x10_0000)
         ==> ReadsFit(|pData|, numCols, X / 0x10_0000, Y / 0x10_0000)
  {
    SplitAbscissa(X);
    SplitAbscissa(Y);
    var rI, cI := Index(X), Index(Y);
    if rI < 0 || rI > numRows - 1 || cI < 0 || cI > numCols - 1 then 0
    else
      CornersInTable(|pData|, numCols, rI, cI);
      var x1, x2 := pData[rI + numCols * cI], pData[rI + numCols * cI + 1];
      var y1, y2 := pData[rI + numCols * (cI + 1)], pData[rI + numCols * (cI + 1) + 1];
      Wrap32(CellSum31(x1, x2, y1, y2, Fraction(X), Fraction(Y)) * 4)
  }

  /** The accumulator of the four terms. */
  function CellSum31(x1: q31, x2: q31, y1: q31, y2: q31, xf: nat, yf: nat): q31
    requires xf <= FULL && yf <= FULL
  {
    var xfract, yfract := 0x800 * xf, 0x800 * yf;
    var acc := Term31(x1, 0x7FFF_FFFF - xfract, 0x7FFF_FFFF - yfract);
    var acc := Wrap32(acc + Term31(x2, 0x7FFF_FFFF - yfract, xfract));
    var acc := Wrap32(acc + Term31(y1, 0x7FFF_FFFF - xfract, yfract));
    Wrap32(acc + Term31(y2, xfract, yfract))
  }

  /** A term is the exact product over 2^64 less at most 1 + u / 2^32. */
  lemma Term31Loss(v: q31, w: int, u: int)
    requires 0 <= w < 0x8000_0000 && 0 <= u < 0x8000_0000
    ensures 0 <= (v * w) * u - 0x1_0000_0000_0000_0000 * Term31(v, w, u)
    ensures (v * w) * u - 0x1_0000_0000_0000_0000 * Term31(v, w, u) <= 0x1_0000_0000 * u + 0x1_0000_0000_0000_0000
    ensures -0x2000_0001 <= Term31(v, w, u) <= 0x2000_0000
  {
    hide Wrap32;
    ProductBound(v, w, 0x8000_0000, 0x8000_0000);
    var p := v * w;
    HighWord(p);
    var q, r := p / 0x1_0000_0000, p % 0x1_0000_0000;
    ProductBound(q, u, 0x4000_0000, 0x8000_0000);
    HighWord(q * u);
    assert Term31(v, w, u) == (q * u) / 0x1_0000_0000;
    MulMonotone(0, r, u);
    MulMonotone(r, 0x1_0000_0000, u);
    Distribute(0x1_0000_0000 * q, r, u);
    MulAssoc(0x1_0000_0000, q, u);
    TermLossLinear(p * u, q * u, r * u, u);
  }

  lemma HighWord(p: int)
    requires -0x4000_0000_0000_0000 <= p <= 0x4000_0000_0000_0000
    ensures -0x4000_0000 <= p / 0x1_0000_0000 <= 0x4000_0000
    ensures -0x2000_0000_0000_0000 <= p <= 0x2000_0000_0000_0000 ==> -0x2000_0000 <= p / 0x1_0000_0000 <= 0x2000_0000
  {
  }

  lemma TermLossLinear(pu: int, qu: int, ru: int, u: int)
    requires pu == 0x1_0000_0000 * qu + ru && 0 <= ru <= 0x1_0000_0000 * u
    ensures 0 <= pu - 0x1_0000_0000_0000_0000 * (qu / 0x1_0000_0000)
    ensures pu - 0x1_0000_0000_0000_0000 * (qu / 0x1_0000_0000) <= 0x1_0000_0000 * u + 0x1_0000_0000_0000_0000
  {
  }

  /** The exact sum with the 31-bit weights. */
  function Weighted31(x1: int, x2: int, y1: int, y2: int, xf: int, yf: int): int {
    (x1 * (0x7FFF_FFFF - xf)) * (0x7FFF_FFFF - yf) + (x2 * (0x7FFF_FFFF - yf)) * xf
    + (y1 * (0x7FFF_FFFF - xf)) * yf + (y2 * xf) * yf
  }

  /** The weights add up to (2^31 - 1)^2. */
  lemma Weighted31Constant(v: int, xf: int, yf: int)
    ensures Weighted31(v, v, v, v, xf, yf) == v * 0x3FFF_FFFF_0000_0001
  {
    var a, b := 0x7FFF_FFFF - xf, 0x7FFF_FFFF - yf;
    SwapFactors(v, b, xf);
    Distribute(v * a, v * xf, b);
    Distribute(v * a, v * xf, yf);
    Distribute(a, xf, v);
    assert v * 0x7FFF_FFFF == v * a + v * xf;
    Distribute(b, yf, v * 0x7FFF_FFFF);
  }

  lemma Weighted31Range(x1: int, x2: int, y1: int, y2: int, xf: int, yf: int, lo: int, hi: int)
    requires 0 <= xf < 0x8000_0000 && 0 <= yf < 0x8000_0000
    requires lo <= x1 <= hi && lo <= x2 <= hi && lo <= y1 <= hi && lo <= y2 <= hi
    ensures lo * 0x3FFF_FFFF_0000_0001 <= Weighted31(x1, x2, y1, y2, xf, yf) <= hi * 0x3FFF_FFFF_0000_0001
  {
    Weighted31Constant(lo, xf, yf);
    Weighted31Constant(hi, xf, yf);
    var a, b := 0x7FFF_FFFF - xf, 0x7FFF_FFFF - yf;
    ScaleTwice(lo, x1, hi, a, b);
    ScaleTwice(lo, x2, hi, b, xf);
    ScaleTwice(lo, y1, hi, a, yf);
    ScaleTwice(lo, y2, hi, xf, yf);
  }

  lemma ScaleTwice(x: int, y: int, z: int, w: int, u: int)
    requires x <= y <= z && 0 <= w && 0 <= u
    ensures (x * w) * u <= (y * w) * u <= (z * w) * u
  {
    MulMonotone(x, y, w);
    MulMonotone(y, z, w);
    MulMonotone(x * w, y * w, u);
    MulMonotone(y * w, z * w, u);
  }

  /** The accumulator is the plain sum of its terms, and four times it is close to
      the corners: it can fall 23 units short of the lowest one. */
  lemma CellSum31Range(x1: q31, x2: q31, y1: q31, y2: q31, xf: nat, yf: nat, lo: q31, hi: q31)
    requires xf <= FULL && yf <= FULL
    requires lo <= x1 <= hi && lo <= x2 <= hi && lo <= y1 <= hi && lo <= y2 <= hi
    ensures CellSum31(x1, x2, y1, y2, xf, yf) == TermSum31(x1, x2, y1, y2, xf, yf)
    ensures lo - 23 <= 4 * CellSum31(x1, x2, y1, y2, xf, yf) <= hi + 1
    ensures lo <= 0 ==> lo - 21 <= 4 * CellSum31(x1, x2, y1, y2, xf, yf)
    ensures 0 <= hi ==> 4 * CellSum31(x1, x2, y1, y2, xf, yf) <= hi
  {
    hide Term31, Wrap32, Weighted31, CellSum31;
    var X, Y := 0x800 * xf, 0x800 * yf;
    var t1, t2 := Term31(x1, 0x7FFF_FFFF - X, 0x7FFF_FFFF - Y), Term31(x2, 0x7FFF_FFFF - Y, X);
    var t3, t4 := Term31(y1, 0x7FFF_FFFF - X, Y), Term31(y2, X, Y);
    TermsLoss(x1, x2, y1, y2, X, Y);
    Weighted31Range(x1, x2, y1, y2, X, Y, lo, hi);
    SumLossLinear(t1 as int + t2 + t3 + t4, Weighted31(x1, x2, y1, y2, X, Y), X, Y, lo, hi);
    SumTerms31(x1, x2, y1, y2, xf, yf, t1, t2, t3, t4);
  }

  /** The four terms without the casts between them. */
  function TermSum31(x1: q31, x2: q31, y1: q31, y2: q31, xf: nat, yf: nat): int
    requires xf <= FULL && yf <= FULL
  {
    var X, Y := 0x800 * xf, 0x800 * yf;
    Term31(x1, 0x7FFF_FFFF - X, 0x7FFF_FFFF - Y) as int + Term31(x2, 0x7FFF_FFFF - Y, X)
    + Term31(y1, 0x7FFF_FFFF - X, Y) + Term31(y2, X, Y)
  }

  lemma TermsLoss(x1: q31, x2: q31, y1: q31, y2: q31, X: int, Y: int)
    requires 0 <= X < 0x8000_0000 && 0 <= Y < 0x8000_0000
    ensures var t1, t2 := Term31(x1, 0x7FFF_FFFF - X, 0x7FFF_FFFF - Y), Term31(x2, 0x7FFF_FFFF - Y, X);
            var t3, t4 := Term31(y1, 0x7FFF_FFFF - X, Y), Term31(y2, X, Y);
            var loss := Weighted31(x1, x2, y1, y2, X, Y) - 0x1_0000_0000_0000_0000 * (t1 as int + t2 + t3 + t4);
            0 <= loss <= 0x1_0000_0000 * (0x7FFF_FFFF + X + Y) + 4 * 0x1_0000_0000_0000_0000
            && -0x4000_0002 <= t1 as int + t2 <= 0x4000_0000
            && -0x6000_0003 <= t1 as int + t2 + t3 <= 0x6000_0000
  {
    hide Term31, Wrap32;
    Term31Loss(x1, 0x7FFF_FFFF - X, 0x7FFF_FFFF - Y);
    Term31Loss(x2, 0x7FFF_FFFF - Y, X);
    Term31Loss(y1, 0x7FFF_FFFF - X, Y);
    Term31Loss(y2, X, Y);
  }

  /** The running sum of four small terms does not wrap. */
  lemma SumTerms31(x1: q31, x2: q31, y1: q31, y2: q31, xf: nat, yf: nat, t1: q31, t2: q31, t3: q31, t4: q31)
    requires xf <= FULL && yf <= FULL
    requires t1 == Term31(x1, 0x7FFF_FFFF - 0x800 * xf, 0x7FFF_FFFF - 0x800 * yf)
    requires t2 == Term31(x2, 0x7FFF_FFFF - 0x800 * yf, 0x800 * xf)
    requires t3 == Term31(y1, 0x7FFF_FFFF - 0x800 * xf, 0x800 * yf)
    requires t4 == Term31(y2, 0x800 * xf, 0x800 * yf)
    requires -0x8000_0000 <= t1 as int + t2 < 0x8000_0000
    requires -0x8000_0000 <= t1 as int + t2 + t3 < 0x8000_0000
    requires -0x8000_0000 <= t1 as int + t2 + t3 + t4 < 0x8000_0000
    ensures CellSum31(x1, x2, y1, y2, xf, yf) == t1 as int + t2 + t3 + t4
  {
    hide Term31, Wrap32;
  }

  lemma SumLossLinear(acc: int, w: int, X: int, Y: int, lo: q31, hi: q31)
    requires 0 <= X < 0x8000_0000 && 0 <= Y < 0x8000_0000
    requires lo * 0x3FFF_FFFF_0000_0001 <= w <= hi * 0x3FFF_FFFF_0000_0001
    requires 0 <= w - 0x1_0000_0000_0000_0000 * acc
                  <= 0x1_0000_0000 * (0x7FFF_FFFF + X + Y) + 4 * 0x1_0000_0000_0000_0000
    ensures lo - 23 <= 4 * acc <= hi + 1 && (lo <= 0 ==> lo - 21 <= 4 * acc) && (0 <= hi ==> 4 * acc <= hi)
  {
  }

  // ----- Q31: when the final shift overflows -----

  lemma Term31Value(v: q31, w: int, u: int)
    requires 0 <= w < 0x8000_0000 && 0 <= u < 0x8000_0000
    ensures Term31(v, w, u) == ((v * w) / 0x1_0000_0000 * u) / 0x1_0000_0000
  {
    hide Wrap32;
    ProductBound(v, w, 0x8000_0000, 0x8000_0000);
    HighWord(v * w);
    ProductBound((v * w) / 0x1_0000_0000, u, 0x4000_0000, 0x8000_0000);
    HighWord((v * w) / 0x1_0000_0000 * u);
  }

  lemma Term31Monotone(v: q31, v': q31, w: int, u: int)
    requires 0 <= w < 0x8000_0000 && 0 <= u < 0x8000_0000 && v <= v'
    ensures Term31(v, w, u) <= Term31(v', w, u)
  {
    hide Term31;
    Term31Value(v, w, u);
    Term31Value(v', w, u);
    MulMonotone(v, v', w);
    HighWordMonotone(v * w, v' * w);
    var q, q' := (v * w) / 0x1_0000_0000, (v' * w) / 0x1_0000_0000;
    MulMonotone(q, q', u);
    HighWordMonotone(q * u, q' * u);
  }

  lemma HighWordMonotone(x: int, y: int)
    requires x <= y
    ensures x / 0x1_0000_0000 <= y / 0x1_0000_0000
  {
  }

  /** The accumulator is monotone in every corner, so its lowest value over corners
      from lo on is that of the constant cell. */
  lemma CellSum31Monotone(lo: q31, x1: q31, x2: q31, y1: q31, y2: q31, xf: nat, yf: nat)
    requires xf <= FULL && yf <= FULL
    requires lo <= x1 && lo <= x2 && lo <= y1 && lo <= y2
    ensures CellSum31(lo, lo, lo, lo, xf, yf) <= CellSum31(x1, x2, y1, y2, xf, yf)
  {
    hide Term31, CellSum31;
    CellSum31Range(lo, lo, lo, lo, xf, yf, lo, lo);
    CellSum31Range(x1, x2, y1, y2, xf, yf, lo, 0x7FFF_FFFF);
    var X, Y := 0x800 * xf, 0x800 * yf;
    Term31Monotone(lo, x1, 0x7FFF_FFFF - X, 0x7FFF_FFFF - Y);
    Term31Monotone(lo, x2, 0x7FFF_FFFF - Y, X);
    Term31Monotone(lo, y1, 0x7FFF_FFFF - X, Y);
    Term31Monotone(lo, y2, X, Y);
  }

  /** The first truncated product of a constant cell at -2^31 + 13: the weights are
      odd or multiples of 2^11, so the lowest value contributes a whole number or
      half of one, and the 13 units the carries ka, kb, kx. */
  lemma ThirteenCarries(xf: nat)
    requires xf <= FULL
    ensures ((-0x8000_0000 + 13) * (0x7FFF_FFFF - 0x800 * xf)) / 0x1_0000_0000
         == -0x4000_0000 + 0x400 * xf + Carry(xf)
    ensures ((-0x8000_0000 + 13) * (0x800 * xf)) / 0x1_0000_0000 == -0x400 * xf + (13 * xf) / 0x20_0000
    ensures 0 <= Carry(xf) <= 7
  {
  }

  /** The carry of 13 units at the weight that complements the fraction f. */
  function Carry(f: int): int {
    (0x8000_0000 + 13 * (0x7FFF_FFFF - 0x800 * f)) / 0x1_0000_0000
  }

  lemma FloorOfSum(x: int, y: int)
    ensures x / 0x1_0000_0000 + y / 0x1_0000_0000 >= (x + y) / 0x1_0000_0000 - 1
  {
  }

  /** The two terms with the weight that complements xf. */
  lemma ComplementTerms(p: int, xf: nat, yf: nat, ka: int)
    requires xf <= FULL && yf <= FULL && 0 <= ka <= 7
    requires p == -0x4000_0000 + 0x400 * xf + ka
    ensures (p * (0x7FFF_FFFF - 0x800 * yf)) / 0x1_0000_0000 + (p * (0x800 * yf)) / 0x1_0000_0000
         >= -0x2000_0000 + 0x200 * xf + ka / 2 - 1
  {
    FloorOfSum(p * (0x7FFF_FFFF - 0x800 * yf), p * (0x800 * yf));
    Distribute(0x7FFF_FFFF - 0x800 * yf, 0x800 * yf, p);
    HalfCarry(p, xf, ka);
  }

  lemma HalfCarry(p: int, xf: nat, ka: int)
    requires xf <= FULL && 0 <= ka <= 7 && p == -0x4000_0000 + 0x400 * xf + ka
    ensures (p * 0x7FFF_FFFF) / 0x1_0000_0000 == -0x2000_0000 + 0x200 * xf + ka / 2
  {
  }

  /** The two others. */
  lemma DirectTerms(p: int, q: int, xf: nat, yf: nat, kb: int, kx: int)
    requires p == -0x4000_0000 + 0x400 * yf + kb && q == -0x400 * xf + kx
    ensures (p * (0x800 * xf)) / 0x1_0000_0000 + (q * (0x800 * yf)) / 0x1_0000_0000
         >= -0x200 * xf + (kb * xf + kx * yf) / 0x20_0000 - 1
  {
    FloorOfSum(p * (0x800 * xf), q * (0x800 * yf));
    DirectProducts(p, q, xf, yf, kb, kx);
    ScaledFloor(-0x200 * xf, kb * xf + kx * yf);
  }

  lemma DirectProducts(p: int, q: int, xf: nat, yf: nat, kb: int, kx: int)
    requires p == -0x4000_0000 + 0x400 * yf + kb && q == -0x400 * xf + kx
    ensures p * (0x800 * xf) + q * (0x800 * yf)
         == 0x1_0000_0000 * (-0x200 * xf) + 0x800 * (kb * xf + kx * yf)
  {
    assert p * (0x800 * xf) == -0x200_0000_0000 * xf + 0x20_0000 * (yf * xf) + 0x800 * (kb * xf);
    assert q * (0x800 * yf) == -0x20_0000 * (yf * xf) + 0x800 * (kx * yf);
  }

  lemma ScaledFloor(n: int, s: int)
    ensures (0x1_0000_0000 * n + 0x800 * s) / 0x1_0000_0000 == n + s / 0x20_0000
  {
  }

  /** For every pair of fractions the carries make up for the four truncations. */
  lemma CarriesSuffice(xf: nat, yf: nat)
    requires xf <= FULL && yf <= FULL
    ensures Carry(xf) / 2 + (Carry(yf) * xf + (13 * xf) / 0x20_0000 * yf) / 0x20_0000 >= 2
  {
    hide Carry;
    ThirteenCarries(xf);
    var ka, kb, kx := Carry(xf), Carry(yf), (13 * xf) / 0x20_0000;
    ThirteenCarries(yf);
    if ka <= 1 {
      LowCarry(xf, yf, kb, kx);
    } else if ka <= 3 {
      MiddleCarry(xf, yf, kb, kx);
    } else {
      CarryProducts(xf, yf, kb, kx, 0, 0);
    }
  }

  /** Whatever the products are, they are at least those of smaller factors. */
  lemma CarryProducts(xf: nat, yf: nat, kb: int, kx: int, b: int, x: int)
    requires b <= kb && x <= kx
    ensures b * xf + x * yf <= kb * xf + kx * yf
  {
    MulMonotone(b, kb, xf);
    MulMonotone(x, kx, yf);
  }

  lemma LowCarry(xf: nat, yf: nat, kb: int, kx: int)
    requires xf <= FULL && yf <= FULL
    requires Carry(xf) <= 1 && kb == Carry(yf) && kx == (13 * xf) / 0x20_0000
    ensures (kb * xf + kx * yf) / 0x20_0000 >= 2
  {
    assert kx >= 5 && 13 * xf >= 5 * 0x20_0000;
    CarrySteps(xf, yf, kb);
    CarryProducts(xf, yf, kb, kx, kb, 5);
  }

  lemma CarrySteps(xf: nat, yf: nat, kb: int)
    requires xf <= FULL && yf <= FULL && 13 * xf >= 5 * 0x20_0000 && kb == Carry(yf)
    ensures kb * xf + 5 * yf >= 2 * 0x20_0000
  {
    ThirteenCarries(yf);
    if kb == 0 {
    } else if kb == 1 {
    } else if kb == 2 {
    } else if kb == 3 {
    } else if kb == 4 {
    } else if kb == 5 {
    } else {
      MulMonotone(6, kb, xf);
    }
  }

  lemma MiddleCarry(xf: nat, yf: nat, kb: int, kx: int)
    requires xf <= FULL && yf <= FULL
    requires Carry(xf) <= 3 && kb == Carry(yf) && kx == (13 * xf) / 0x20_0000
    ensures (kb * xf + kx * yf) / 0x20_0000 >= 1
  {
    assert kx >= 3 && 13 * xf >= 3 * 0x20_0000;
    ThirteenCarries(yf);
    CarryProducts(xf, yf, kb, kx, kb, 3);
    if kb <= 1 {
      CarryProducts(xf, yf, kb, kx, 0, 3);
    } else if kb <= 3 {
      CarryProducts(xf, yf, kb, kx, 2, 3);
    } else if kb <= 5 {
      CarryProducts(xf, yf, kb, kx, 4, 3);
    } else {
      CarryProducts(xf, yf, kb, kx, 6, 3);
    }
  }

  /** A constant cell at -2^31 + 13 never overflows the final shift. */
  lemma ThirteenAbove(xf: nat, yf: nat)
    requires xf <= FULL && yf <= FULL
    ensures var v: q31 := -0x8000_0000 + 13; CellSum31(v, v, v, v, xf, yf) >= -0x2000_0000
  {
    hide Term31, CellSum31, Carry;
    var v: q31 := -0x8000_0000 + 13;
    var X, Y := 0x800 * xf, 0x800 * yf;
    CellSum31Range(v, v, v, v, xf, yf, v, v);
    Term31Value(v, 0x7FFF_FFFF - X, 0x7FFF_FFFF - Y);
    Term31Value(v, 0x7FFF_FFFF - Y, X);
    Term31Value(v, 0x7FFF_FFFF - X, Y);
    Term31Value(v, X, Y);
    ThirteenCarries(xf);
    ThirteenCarries(yf);
    ComplementTerms(-0x4000_0000 + 0x400 * xf + Carry(xf), xf, yf, Carry(xf));
    DirectTerms(-0x4000_0000 + 0x400 * yf + Carry(yf), -0x400 * xf + (13 * xf) / 0x20_0000,
                xf, yf, Carry(yf), (13 * xf) / 0x20_0000);
    CarriesSuffice(xf, yf);
  }

  /** One at -2^31 + 12 does. */
  lemma TwelveOverflows()
    ensures var v: q31 := -0x8000_0000 + 12; CellSum31(v, v, v, v, 838224, 825135) == -0x2000_0001
  {
    hide Term31, CellSum31;
    var v: q31 := -0x8000_0000 + 12;
    CellSum31Range(v, v, v, v, 838224, 825135, v, v);
    TermAt(v, 0x19AD_7FFF, 0x1B46_87FF, -215400447, -22949835);
    TermAt(v, 0x1B46_87FF, 0x6652_8000, -228803583, -91451958);
    TermAt(v, 0x19AD_7FFF, 0x64B9_7800, -215400447, -84750390);
    TermAt(v, 0x6652_8000, 0x64B9_7800, -858341372, -337718730);
  }

  /** No cell whose corners are lo or higher overflows the final shift, at any point. */
  ghost predicate ShiftSafe(lo: q31) {
    forall x1: q31, x2: q31, y1: q31, y2: q31, xf: nat, yf: nat ::
      lo <= x1 && lo <= x2 && lo <= y1 && lo <= y2 && xf <= FULL && yf <= FULL ==>
        -0x2000_0000 <= CellSum31(x1, x2, y1, y2, xf, yf) < 0x2000_0000
  }

  /** The truncations carry a cell below -1 exactly when corners within 12 units of
      -1 are allowed. */
  lemma ShiftSafeExactly(lo: q31)
    ensures ShiftSafe(lo) <==> -0x8000_0000 + 13 <= lo
  {
    hide CellSum31;
    var v: q31 := -0x8000_0000 + 12;
    if lo <= v {
      TwelveOverflows();
      assert CellSum31(v, v, v, v, 838224, 825135) == -0x2000_0001;
    } else {
      forall x1: q31, x2: q31, y1: q31, y2: q31, xf: nat, yf: nat
        | lo <= x1 && lo <= x2 && lo <= y1 && lo <= y2 && xf <= FULL && yf <= FULL
        ensures -0x2000_0000 <= CellSum31(x1, x2, y1, y2, xf, yf) < 0x2000_0000
      {
        ThirteenAbove(xf, yf);
        CellSum31Monotone(-0x8000_0000 + 13, x1, x2, y1, y2, xf, yf);
        CellSum31Range(x1, x2, y1, y2, xf, yf, -0x8000_0000, 0x7FFF_FFFF);
      }
    }
  }

  /** On grid cells that pass the test, with no corner within 12 units of the lowest
      value, the final shift does not overflow and the result stays between the
      corners up to 23 units below and 1 above. */
  lemma BilinearQ31Range(pData: seq<q31>, numRows: nat, numCols: nat, X: q31, Y: q31, lo: q31, hi: q31)
    requires |pData| == numRows * numCols
    requires GridCell(numRows, numCols, X / 0x10_0000, Y / 0x10_0000)
    requires X / 0x10_0000 < numRows && Y / 0x10_0000 < numCols
    requires CornersBetween(pData, numRows, numCols, X / 0x10_0000, Y / 0x10_0000, lo, hi)
    requires -0x8000_0000 + 13 <= lo
    ensures ReadsFit(|pData|, numCols, X / 0x10_0000, Y / 0x10_0000)
    ensures lo - 23 <= BilinearQ31(pData, numRows, numCols, X, Y) <= hi + 1
    ensures lo <= 0 ==> lo - 21 <= BilinearQ31(pData, numRows, numCols, X, Y)
    ensures 0 <= hi ==> BilinearQ31(pData, numRows, numCols, X, Y) <= hi
  {
    hide Index, Fraction, Wrap32, CellSum31, ShiftSafe;
    SplitAbscissa(X);
    SplitAbscissa(Y);
    var r, c := X / 0x10_0000, Y / 0x10_0000;
    FourEntries(pData, numRows, numCols, r, c);
    hide Entry;
    var x1, x2 := pData[r + numCols * c], pData[r + numCols * c + 1];
    var y1, y2 := pData[r + numCols * (c + 1)], pData[r + numCols * (c + 1) + 1];
    CellSum31Range(x1, x2, y1, y2, X % 0x10_0000, Y % 0x10_0000, lo, hi);
    ShiftSafeAt(lo, x1, x2, y1, y2, X % 0x10_0000, Y % 0x10_0000);
  }

  lemma ShiftSafeAt(lo: q31, x1: q31, x2: q31, y1: q31, y2: q31, xf: nat, yf: nat)
    requires -0x8000_0000 + 13 <= lo && xf <= FULL && yf <= FULL
    requires lo <= x1 && lo <= x2 && lo <= y1 && lo <= y2
    ensures -0x2000_0000 <= CellSum31(x1, x2, y1, y2, xf, yf) < 0x2000_0000
  {
    hide CellSum31;
    ShiftSafeExactly(lo);
  }

  /** At the lowest value itself the truncations do overflow the shift: a cell that is
      -1 at all four corners interpolates to almost +1. */
  lemma BilinearQ31LowestCell()
    ensures var v: q31 := -0x8000_0000;
            CellSum31(v, v, v, v, 1, 1) == -0x2000_0001
            && Wrap32(CellSum31(v, v, v, v, 1, 1) * 4) == 0x7FFF_FFFC
  {
    hide Term31;
    var v: q31 := -0x8000_0000;
    LowestTerms();
    WrapAt(-0x8000_0004, 0x8000_0000, -1);
    assert CellSum31(v, v, v, v, 1, 1) == -0x2000_0001;
  }

  lemma LowestTerms()
    ensures Term31(-0x8000_0000, 0x7FFF_F7FF, 0x7FFF_F7FF) == -536869888
    ensures Term31(-0x8000_0000, 0x7FFF_F7FF, 0x800) == -512
    ensures Term31(-0x8000_0000, 0x800, 0x800) == -1
  {
    hide Term31;
    TermAt(-0x8000_0000, 0x7FFF_F7FF, 0x7FFF_F7FF, -1073740800, -536869888);
    TermAt(-0x8000_0000, 0x7FFF_F7FF, 0x800, -1073740800, -512);
    TermAt(-0x8000_0000, 0x800, 0x800, -1024, -1);
  }

  lemma TermAt(v: q31, w: int, u: int, q: q31, t: q31)
    requires 0 <= w < 0x8000_0000 && 0 <= u < 0x8000_0000
    requires q == (v * w) / 0x1_0000_0000 && t == (q * u) / 0x1_0000_0000
    ensures Term31(v, w, u) == t
  {
    hide Wrap32;
  }
}
