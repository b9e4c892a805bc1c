/** The Q31 bilinear interpolation against the exact interpolant of the four corners
    at their own weights, and what follows for the order of its results. */
module BilinearError31 {
  import opened Bits
  import opened FixedPoint
  import opened LinearInterpolation
  import opened LinearOrder31
  import opened BilinearInterpolation

  // ----- one cell -----

  /** The exact interpolant times 2^40. */
  function Ideal(k: Corners, xf: int, yf: int): int {
    Exact(Exact(k.x1, k.x2, xf), Exact(k.y1, k.y2, xf), yf)
  }

  /** Both orders of interpolation, and the four weights. */
  lemma IdealTerms(k: Corners, xf: int, yf: int)
    ensures Ideal(k, xf, yf) == Exact(Exact(k.x1, k.y1, yf), Exact(k.x2, k.y2, yf), xf)
    ensures Ideal(k, xf, yf)
         == (k.x1 * (0x10_0000 - xf)) * (0x10_0000 - yf) + (k.x2 * (0x10_0000 - yf)) * xf
            + (k.y1 * (0x10_0000 - xf)) * yf + (k.y2 * xf) * yf
  {
    var a, b := 0x10_0000 - xf, 0x10_0000 - yf;
    Distribute(k.x1 * a, k.x2 * xf, b);
    Distribute(k.y1 * a, k.y2 * xf, yf);
    Distribute(k.x1 * b, k.y1 * yf, a);
    Distribute(k.x2 * b, k.y2 * yf, xf);
    SwapFactors(k.x1, a, b);
    SwapFactors(k.x2, xf, b);
    SwapFactors(k.y1, a, yf);
    SwapFactors(k.y2, xf, yf);
  }

  /** The 31-bit weights add up to 2^31 - 1 where the exact ones add up to 2^31. */
  lemma WeightsDiffer(k: Corners, xf: int, yf: int)
    ensures var a, b := 0x10_0000 - xf, 0x10_0000 - yf;
            Weighted31(k.x1, k.x2, k.y1, k.y2, 0x800 * xf, 0x800 * yf)
              == 0x40_0000 * Ideal(k, xf, yf) - k.x1 * (0x800 * (a + b) - 1)
                 - 0x800 * (k.x2 * xf) - 0x800 * (k.y1 * yf)
  {
    hide Ideal;
    IdealTerms(k, xf, yf);
    var a, b := 0x10_0000 - xf, 0x10_0000 - yf;
    BothShort(k.x1, a, b);
    FirstShort(k.x2, b, xf);
    FirstShort(k.y1, a, yf);
    NoneShort(k.y2, xf, yf);
  }

  lemma BothShort(v: int, a: int, b: int)
    ensures (v * (0x800 * a - 1)) * (0x800 * b - 1) == 0x40_0000 * ((v * a) * b) - v * (0x800 * (a + b) - 1)
  {
    FirstShort(v, a, b);
    Distribute(0x800 * b, 1, v * (0x800 * a - 1));
    assert v * (0x800 * a - 1) == 0x800 * (v * a) - v;
    assert v * (0x800 * (a + b) - 1) == 0x800 * (v * a) + 0x800 * (v * b) - v;
  }

  lemma FirstShort(v: int, a: int, f: int)
    ensures (v * (0x800 * a - 1)) * (0x800 * f) == 0x40_0000 * ((v * a) * f) - 0x800 * (v * f)
  {
    assert v * (0x800 * a - 1) == 0x800 * (v * a) - v;
    Distribute(0x800 * (v * a), v, 0x800 * f);
    NoneShort(v, a, f);
    assert v * (0x800 * f) == 0x800 * (v * f);
    assert v * (0x800 * a) == 0x800 * (v * a);
  }

  lemma NoneShort(v: int, f: int, g: int)
    ensures (v * (0x800 * f)) * (0x800 * g) == 0x40_0000 * ((v * f) * g)
  {
    assert v * (0x800 * f) == 0x800 * (v * f);
    assert (0x800 * (v * f)) * (0x800 * g) == 0x40_0000 * ((v * f) * g);
  }

  /** The missing weight costs less than two units either way. */
  lemma DifferenceBound(k: Corners, xf: int, yf: int)
    requires 0 <= xf <= FULL && 0 <= yf <= FULL
    requires -0x8000_0000 <= k.x1 < 0x8000_0000 && -0x8000_0000 <= k.x2 < 0x8000_0000
    requires -0x8000_0000 <= k.y1 < 0x8000_0000
    ensures var a, b := 0x10_0000 - xf, 0x10_0000 - yf;
            var d := k.x1 * (0x800 * (a + b) - 1) + 0x800 * (k.x2 * xf) + 0x800 * (k.y1 * yf);
            -0x8000_0000_0000_0000 <= d <= 0x8000_0000_0000_0000
  {
    var a, b := 0x10_0000 - xf, 0x10_0000 - yf;
    ProductBound(k.x1, 0x800 * (a + b) - 1, 0x8000_0000, 0x800 * (a + b) - 1);
    ProductBound(k.x2, xf, 0x8000_0000, xf);
    ProductBound(k.y1, yf, 0x8000_0000, yf);
  }

  /** For any four corners: four times the accumulator is within 24 units below and 2
      above the exact interpolant. */
  lemma CellSum31Error(x1: q31, x2: q31, y1: q31, y2: q31, xf: nat, yf: nat)
    requires xf <= FULL && yf <= FULL
    ensures var exact := Ideal(Corners(x1, x2, y1, y2), xf, yf);
            exact - 24 * 0x100_0000_0000 <= 0x100_0000_0000 * (4 * CellSum31(x1, x2, y1, y2, xf, yf))
            && 0x100_0000_0000 * (4 * CellSum31(x1, x2, y1, y2, xf, yf)) <= exact + 2 * 0x100_0000_0000
  {
    hide CellSum31, Term31, Weighted31, Ideal;
    var k := Corners(x1, x2, y1, y2);
    CellSum31Range(x1, x2, y1, y2, xf, yf, -0x8000_0000, 0x7FFF_FFFF);
    TermsLoss(x1, x2, y1, y2, 0x800 * xf, 0x800 * yf);
    WeightsDiffer(k, xf, yf);
    DifferenceBound(k, xf, yf);
    var a, b := 0x10_0000 - xf, 0x10_0000 - yf;
    ErrorLinear(Ideal(k, xf, yf), CellSum31(x1, x2, y1, y2, xf, yf),
                Weighted31(x1, x2, y1, y2, 0x800 * xf, 0x800 * yf),
                x1 * (0x800 * (a + b) - 1) + 0x800 * (x2 * xf) + 0x800 * (y1 * yf), xf, yf);
  }

  lemma ErrorLinear(exact: int, acc: int, w: int, d: int, xf: nat, yf: nat)
    requires xf <= FULL && yf <= FULL
    requires w == 0x40_0000 * exact - d && -0x8000_0000_0000_0000 <= d <= 0x8000_0000_0000_0000
    requires 0 <= w - 0x1_0000_0000_0000_0000 * acc
    requires w - 0x1_0000_0000_0000_0000 * acc
          <= 0x1_0000_0000 * (0x7FFF_FFFF + 0x800 * xf + 0x800 * yf) + 4 * 0x1_0000_0000_0000_0000
    ensures exact - 24 * 0x100_0000_0000 <= 0x100_0000_0000 * (4 * acc) <= exact + 2 * 0x100_0000_0000
  {
  }

  // ----- the kernel -----

  predicate CornersFrom(k: Corners, lo: int) {
    lo <= k.x1 && lo <= k.x2 && lo <= k.y1 && lo <= k.y2
  }

  /** At every point: zero if it does not pass the test. Otherwise, with no read within
      12 units of the lowest value, the result is within 24 units below and 2 above the
      exact interpolant of the four reads. */
  lemma BilinearQ31Everywhere(pData: seq<q31>, numRows: nat, numCols: nat, X: q31, Y: q31)
    requires GuardPasses(numRows, numCols, X / 0x10_0000, Y / 0x10_0000)
         ==> ReadsFit(|pData|, numCols, X / 0x10_0000, Y / 0x10_0000)
    ensures !GuardPasses(numRows, numCols, X / 0x10_0000, Y / 0x10_0000) ==>
      BilinearQ31(pData, numRows, numCols, X, Y) == 0
    ensures GuardPasses(numRows, numCols, X / 0x10_0000, Y / 0x10_0000) ==>
      var k := CornersAt(pData, numCols, X / 0x10_0000, Y / 0x10_0000);
      var exact := Ideal(k, X % 0x10_0000, Y % 0x10_0000);
      CornersFrom(k, -0x8000_0000 + 13) ==>
        exact - 24 * 0x100_0000_0000 <= 0x100_0000_0000 * BilinearQ31(pData, numRows, numCols, X, Y)
        && 0x100_0000_0000 * BilinearQ31(pData, numRows, numCols, X, Y) <= exact + 2 * 0x100_0000_0000
  {
    hide Index, Fraction, Wrap32, CellSum31, Ideal;
    SplitAbscissa(X);
    SplitAbscissa(Y);
    var r, c, xf, yf := X / 0x10_0000, Y / 0x10_0000, X % 0x10_0000, Y % 0x10_0000;
    if GuardPasses(numRows, numCols, r, c) {
      CornersInTable(|pData|, numCols, r, c);
      var x1, x2 := pData[r + numCols * c], pData[r + numCols * c + 1];
      var y1, y2 := pData[r + numCols * (c + 1)], pData[r + numCols * (c + 1) + 1];
      CellSum31Error(x1, x2, y1, y2, xf, yf);
      if CornersFrom(Corners(x1, x2, y1, y2), -0x8000_0000 + 13) {
        ShiftSafeAt(-0x8000_0000 + 13, x1, x2, y1, y2, xf, yf);
      }
    }
  }

  /** The exact interpolant at an inner point of the grid. */
  function IdealAt(pData: seq<int>, numRows: nat, numCols: nat, X: nat, Y: nat): int
    requires |pData| == numRows * numCols
    requires GridCell(numRows, numCols, X / 0x10_0000, Y / 0x10_0000)
  {
    var r, c := X / 0x10_0000, Y / 0x10_0000;
    Ideal(Corners(Entry(pData, numRows, numCols, r, c), Entry(pData, numRows, numCols, r + 1, c),
                  Entry(pData, numRows, numCols, r, c + 1), Entry(pData, numRows, numCols, r + 1, c + 1)),
          X % 0x10_0000, Y % 0x10_0000)
  }

  /** On grid cells that pass the test, with no corner below -2^31 + 13: the result
      against the exact interpolant of the four table entries. */
  lemma BilinearQ31Error(pData: seq<q31>, numRows: nat, numCols: nat, X: q31, Y: q31)
    requires |pData| == numRows * numCols && Inner(numRows, numCols, X, Y)
    requires CornersBetween(pData, numRows, numCols, X / 0x10_0000, Y / 0x10_0000, -0x8000_0000 + 13, 0x7FFF_FFFF)
    ensures ReadsFit(|pData|, numCols, X / 0x10_0000, Y / 0x10_0000)
    ensures var exact := IdealAt(pData, numRows, numCols, X, Y);
            exact - 24 * 0x100_0000_0000 <= 0x100_0000_0000 * BilinearQ31(pData, numRows, numCols, X, Y)
            && 0x100_0000_0000 * BilinearQ31(pData, numRows, numCols, X, Y) <= exact + 2 * 0x100_0000_0000
  {
    hide BilinearQ31, Ideal;
    FourEntries(pData, numRows, numCols, X / 0x10_0000, Y / 0x10_0000);
    hide Entry;
    BilinearQ31Everywhere(pData, numRows, numCols, X, Y);
  }

  // ----- the order of the results -----

  // Each truncated term loses less than 1 + u / 2^32 for its second weight u. Along X
  // the terms of a row form a pair of which the exact sum is a line over the row, and
  // a pair loses less than 3: it never drops by more than 2. Along Y the first factors
  // of one pair do not move, so that pair drops by 1 at most.

  /** No table entry is below -2^31 + 13. */
  ghost predicate ClearOfLowest(pData: seq<int>) {
    forall i :: 0 <= i < |pData| ==> -0x8000_0000 + 13 <= pData[i]
  }

  lemma PairDrop(w: int, s: int, w': int, s': int)
    requires w <= w' && 0 <= w - 0x1_0000_0000_0000_0000 * s
    requires w' - 0x1_0000_0000_0000_0000 * s' < 3 * 0x1_0000_0000_0000_0000
    ensures s <= s' + 2
  {
  }

  /** The pair of terms of one row, at weight u of the row. */
  function RowPair(y0: q31, y1: q31, f: nat, u: int): int
    requires f <= FULL && 0 <= u < 0x8000_0000
  {
    Term31(y0, 0x7FFF_FFFF - 0x800 * f, u) as int + Term31(y1, 0x800 * f, u)
  }

  lemma RowPairLoss(y0: q31, y1: q31, f: nat, u: int)
    requires f <= FULL && 0 <= u < 0x8000_0000
    ensures 0 <= Untruncated(y0, y1, f) * u - 0x1_0000_0000_0000_0000 * RowPair(y0, y1, f, u)
    ensures Untruncated(y0, y1, f) * u - 0x1_0000_0000_0000_0000 * RowPair(y0, y1, f, u) < 3 * 0x1_0000_0000_0000_0000
  {
    hide Term31, Untruncated;
    Term31Loss(y0, 0x7FFF_FFFF - 0x800 * f, u);
    Term31Loss(y1, 0x800 * f, u);
    UntruncatedParts(y0, y1, f);
    Distribute(y0 * (0x7FFF_FFFF - 0x800 * f), y1 * (0x800 * f), u);
  }

  /** The first term and the second with its weights exchanged: the second factor of
      the one is the first of the other. */
  function MixedPair(y0: q31, y1: q31, f: nat, u: int): int
    requires f <= FULL && 0 <= u < 0x8000_0000
  {
    Term31(y0, 0x7FFF_FFFF - 0x800 * f, u) as int + Term31(y1, u, 0x800 * f)
  }

  lemma MixedPairLoss(y0: q31, y1: q31, f: nat, u: int)
    requires f <= FULL && 0 <= u < 0x8000_0000
    ensures 0 <= Untruncated(y0, y1, f) * u - 0x1_0000_0000_0000_0000 * MixedPair(y0, y1, f, u)
    ensures Untruncated(y0, y1, f) * u - 0x1_0000_0000_0000_0000 * MixedPair(y0, y1, f, u) < 3 * 0x1_0000_0000_0000_0000
  {
    hide Term31, Untruncated;
    Term31Loss(y0, 0x7FFF_FFFF - 0x800 * f, u);
    Term31Loss(y1, u, 0x800 * f);
    UntruncatedParts(y0, y1, f);
    Distribute(y0 * (0x7FFF_FFFF - 0x800 * f), y1 * (0x800 * f), u);
    SwapFactors(y1, u, 0x800 * f);
  }

  /** The terms of a column at the complement w of its weight: the first factors do not
      depend on the fraction along the column. */
  function FixedPair(y0: q31, y1: q31, f: nat, w: int): int
    requires f <= FULL && 0 <= w < 0x8000_0000
  {
    Term31(y0, w, 0x7FFF_FFFF - 0x800 * f) as int + Term31(y1, w, 0x800 * f)
  }

  lemma FixedPairFloor(y0: q31, y1: q31, f: nat, w: int)
    requires f <= FULL && 0 <= w < 0x8000_0000
    ensures var line := Untruncated((y0 * w) / 0x1_0000_0000, (y1 * w) / 0x1_0000_0000, f);
            line / 0x1_0000_0000 - 1 <= FixedPair(y0, y1, f, w) <= line / 0x1_0000_0000
  {
    hide Term31, Untruncated;
    Term31Value(y0, w, 0x7FFF_FFFF - 0x800 * f);
    Term31Value(y1, w, 0x800 * f);
    UntruncatedParts((y0 * w) / 0x1_0000_0000, (y1 * w) / 0x1_0000_0000, f);
    var p, q := (y0 * w) / 0x1_0000_0000 * (0x7FFF_FFFF - 0x800 * f), (y1 * w) / 0x1_0000_0000 * (0x800 * f);
    SplitTruncation(p, q);
  }

  /** Row c and column r of the table. */
  function Row(pData: seq<q31>, numRows: nat, numCols: nat, c: nat): (t: seq<q31>)
    requires |pData| == numRows * numCols && c < numRows
    ensures |t| == numCols
    ensures forall r :: 0 <= r < numCols ==> t[r] == Entry(pData, numRows, numCols, r, c)
  {
    RowFits(numRows, numCols, c);
    pData[numCols * c..numCols * c + numCols]
  }

  lemma RowFits(numRows: nat, numCols: nat, c: nat)
    requires c < numRows
    ensures 0 <= numCols * c && numCols * c + numCols <= numRows * numCols
  {
    MulMonotone(0, c, numCols);
    MulMonotone(c + 1, numRows, numCols);
  }

  function Column(pData: seq<q31>, numRows: nat, numCols: nat, r: nat): (t: seq<q31>)
    requires |pData| == numRows * numCols && r < numCols
    ensures |t| == numRows
    ensures forall c :: 0 <= c < numRows ==> t[c] == Entry(pData, numRows, numCols, r, c)
  {
    seq(numRows, (c: nat) requires c < numRows => EntryOf(pData, numRows, numCols, r, c))
  }

  function EntryOf(pData: seq<q31>, numRows: nat, numCols: nat, r: nat, c: nat): (v: q31)
    requires |pData| == numRows * numCols && r < numCols && c < numRows
    ensures v == Entry(pData, numRows, numCols, r, c)
  {
    MulMonotone(c + 1, numRows, numCols);
    MulMonotone(0, c, numCols);
    pData[r + numCols * c]
  }

  /** The accumulator at an inner point, as pairs along either axis. */
  function AccAt(pData: seq<q31>, numRows: nat, numCols: nat, X: q31, Y: q31): int
    requires |pData| == numRows * numCols && Inner(numRows, numCols, X, Y)
  {
    var r, c := X / 0x10_0000, Y / 0x10_0000;
    TermSum31(EntryOf(pData, numRows, numCols, r, c), EntryOf(pData, numRows, numCols, r + 1, c),
              EntryOf(pData, numRows, numCols, r, c + 1), EntryOf(pData, numRows, numCols, r + 1, c + 1),
              X % 0x10_0000, Y % 0x10_0000)
  }

  lemma ResultIsAcc(pData: seq<q31>, numRows: nat, numCols: nat, X: q31, Y: q31)
    requires |pData| == numRows * numCols && Inner(numRows, numCols, X, Y) && ClearOfLowest(pData)
    ensures ReadsFit(|pData|, numCols, X / 0x10_0000, Y / 0x10_0000)
    ensures BilinearQ31(pData, numRows, numCols, X, Y) == 4 * AccAt(pData, numRows, numCols, X, Y)
  {
    hide Index, Fraction, Wrap32, CellSum31, TermSum31;
    SplitAbscissa(X);
    SplitAbscissa(Y);
    var r, c, xf, yf := X / 0x10_0000, Y / 0x10_0000, X % 0x10_0000, Y % 0x10_0000;
    FourEntries(pData, numRows, numCols, r, c);
    hide Entry;
    var x1, x2 := pData[r + numCols * c], pData[r + numCols * c + 1];
    var y1, y2 := pData[r + numCols * (c + 1)], pData[r + numCols * (c + 1) + 1];
    CellSum31Range(x1, x2, y1, y2, xf, yf, -0x8000_0000, 0x7FFF_FFFF);
    ShiftSafeAt(-0x8000_0000 + 13, x1, x2, y1, y2, xf, yf);
  }

  /** Along one row the line, scaled by the weight of the row, is monotone. */
  lemma LineOrdered(t: seq<q31>, x: nat, x': nat, u: int)
    requires NonDecreasing(t) && x <= x' && x' / 0x10_0000 < |t| - 1 && 0 <= u
    ensures x / 0x10_0000 < |t| - 1
    ensures var i, i' := x / 0x10_0000, x' / 0x10_0000;
            Untruncated(t[i], t[i + 1], x % 0x10_0000) * u <= Untruncated(t[i'], t[i' + 1], x' % 0x10_0000) * u
  {
    hide Untruncated;
    UntruncatedAtMonotone(t, x, x');
    MulMonotone(UntruncatedAt(t, x), UntruncatedAt(t, x'), u);
  }

  lemma RowNonDecreasing(pData: seq<q31>, numRows: nat, numCols: nat, c: nat)
    requires |pData| == numRows * numCols && c < numRows && RowsNonDecreasing(pData, numRows, numCols)
    ensures NonDecreasing(Row(pData, numRows, numCols, c))
  {
    hide Entry;
  }

  lemma ColumnNonDecreasing(pData: seq<q31>, numRows: nat, numCols: nat, r: nat)
    requires |pData| == numRows * numCols && r < numCols && ColumnsNonDecreasing(pData, numRows, numCols)
    ensures NonDecreasing(Column(pData, numRows, numCols, r))
  {
    hide Entry;
  }

  lemma MixedDrop(t: seq<q31>, x: nat, x': nat, u: int)
    requires NonDecreasing(t) && x <= x' && x' / 0x10_0000 < |t| - 1 && 0 <= u < 0x8000_0000
    ensures x / 0x10_0000 < |t| - 1
    ensures var i, i' := x / 0x10_0000, x' / 0x10_0000;
            MixedPair(t[i], t[i + 1], x % 0x10_0000, u) <= MixedPair(t[i'], t[i' + 1], x' % 0x10_0000, u) + 2
  {
    hide MixedPair, Untruncated;
    var i, i' := x / 0x10_0000, x' / 0x10_0000;
    LineOrdered(t, x, x', u);
    MixedPairLoss(t[i], t[i + 1], x % 0x10_0000, u);
    MixedPairLoss(t[i'], t[i' + 1], x' % 0x10_0000, u);
    PairDrop(Untruncated(t[i], t[i + 1], x % 0x10_0000) * u, MixedPair(t[i], t[i + 1], x % 0x10_0000, u),
             Untruncated(t[i'], t[i' + 1], x' % 0x10_0000) * u, MixedPair(t[i'], t[i' + 1], x' % 0x10_0000, u));
  }

  lemma RowDrop(t: seq<q31>, x: nat, x': nat, u: int)
    requires NonDecreasing(t) && x <= x' && x' / 0x10_0000 < |t| - 1 && 0 <= u < 0x8000_0000
    ensures x / 0x10_0000 < |t| - 1
    ensures var i, i' := x / 0x10_0000, x' / 0x10_0000;
            RowPair(t[i], t[i + 1], x % 0x10_0000, u) <= RowPair(t[i'], t[i' + 1], x' % 0x10_0000, u) + 2
  {
    hide RowPair, Untruncated;
    var i, i' := x / 0x10_0000, x' / 0x10_0000;
    LineOrdered(t, x, x', u);
    RowPairLoss(t[i], t[i + 1], x % 0x10_0000, u);
    RowPairLoss(t[i'], t[i' + 1], x' % 0x10_0000, u);
    PairDrop(Untruncated(t[i], t[i + 1], x % 0x10_0000) * u, RowPair(t[i], t[i + 1], x % 0x10_0000, u),
             Untruncated(t[i'], t[i' + 1], x' % 0x10_0000) * u, RowPair(t[i'], t[i' + 1], x' % 0x10_0000, u));
  }

  /** The truncated first factors of a column. */
  function Scaled31(t: seq<q31>, w: int): (s: seq<int>)
    ensures |s| == |t| && forall i :: 0 <= i < |t| ==> s[i] == (t[i] * w) / 0x1_0000_0000
  {
    seq(|t|, (i: nat) requires i < |t| => (t[i] * w) / 0x1_0000_0000)
  }

  lemma FixedDrop(t: seq<q31>, x: nat, x': nat, w: int)
    requires NonDecreasing(t) && x <= x' && x' / 0x10_0000 < |t| - 1 && 0 <= w < 0x8000_0000
    ensures x / 0x10_0000 < |t| - 1
    ensures var i, i' := x / 0x10_0000, x' / 0x10_0000;
            FixedPair(t[i], t[i + 1], x % 0x10_0000, w) <= FixedPair(t[i'], t[i' + 1], x' % 0x10_0000, w) + 1
  {
    hide FixedPair, Untruncated;
    var i, i' := x / 0x10_0000, x' / 0x10_0000;
    var s := Scaled31(t, w);
    forall j, k | 0 <= j <= k < |s|
      ensures s[j] <= s[k]
    {
      MulMonotone(t[j], t[k], w);
      HighWordMonotone(t[j] * w, t[k] * w);
    }
    UntruncatedAtMonotone(s, x, x');
    HighWordMonotone(UntruncatedAt(s, x), UntruncatedAt(s, x'));
    FixedPairFloor(t[i], t[i + 1], x % 0x10_0000, w);
    FixedPairFloor(t[i'], t[i' + 1], x' % 0x10_0000, w);
  }

  lemma AccByRows(pData: seq<q31>, numRows: nat, numCols: nat, X: q31, Y: q31)
    requires |pData| == numRows * numCols && Inner(numRows, numCols, X, Y)
    ensures var r, c, xf, yf := X / 0x10_0000, Y / 0x10_0000, X % 0x10_0000, Y % 0x10_0000;
            var t, t' := Row(pData, numRows, numCols, c), Row(pData, numRows, numCols, c + 1);
            AccAt(pData, numRows, numCols, X, Y)
              == MixedPair(t[r], t[r + 1], xf, 0x7FFF_FFFF - 0x800 * yf) + RowPair(t'[r], t'[r + 1], xf, 0x800 * yf)
  {
    hide Entry, Term31;
  }

  lemma AccByColumns(pData: seq<q31>, numRows: nat, numCols: nat, X: q31, Y: q31)
    requires |pData| == numRows * numCols && Inner(numRows, numCols, X, Y)
    ensures var r, c, xf, yf := X / 0x10_0000, Y / 0x10_0000, X % 0x10_0000, Y % 0x10_0000;
            var t, t' := Column(pData, numRows, numCols, r), Column(pData, numRows, numCols, r + 1);
            AccAt(pData, numRows, numCols, X, Y)
              == FixedPair(t[c], t[c + 1], yf, 0x7FFF_FFFF - 0x800 * xf) + MixedPair(t'[c], t'[c + 1], yf, 0x800 * xf)
  {
    hide Entry, Term31;
  }

  /** On non-decreasing rows the q31 result never drops by more than 16 units along X. */
  lemma AlmostMonotoneInX(pData: seq<q31>, numRows: nat, numCols: nat, X: q31, X': q31, Y: q31)
    requires |pData| == numRows * numCols && ClearOfLowest(pData)
    requires RowsNonDecreasing(pData, numRows, numCols)
    requires X <= X' && Inner(numRows, numCols, X, Y) && Inner(numRows, numCols, X', Y)
    ensures ReadsFit(|pData|, numCols, X / 0x10_0000, Y / 0x10_0000)
    ensures ReadsFit(|pData|, numCols, X' / 0x10_0000, Y / 0x10_0000)
    ensures BilinearQ31(pData, numRows, numCols, X, Y) <= BilinearQ31(pData, numRows, numCols, X', Y) + 16
  {
    hide BilinearQ31, AccAt, ClearOfLowest, RowsNonDecreasing, Row, MixedPair, RowPair, Entry, NonDecreasing;
    ResultIsAcc(pData, numRows, numCols, X, Y);
    ResultIsAcc(pData, numRows, numCols, X', Y);
    AccByRows(pData, numRows, numCols, X, Y);
    AccByRows(pData, numRows, numCols, X', Y);
    var c, yf := Y / 0x10_0000, Y % 0x10_0000;
    RowNonDecreasing(pData, numRows, numCols, c);
    RowNonDecreasing(pData, numRows, numCols, c + 1);
    MixedDrop(Row(pData, numRows, numCols, c), X, X', 0x7FFF_FFFF - 0x800 * yf);
    RowDrop(Row(pData, numRows, numCols, c + 1), X, X', 0x800 * yf);
  }

  /** On non-decreasing columns it never drops by more than 12 units along Y. */
  lemma AlmostMonotoneInY(pData: seq<q31>, numRows: nat, numCols: nat, X: q31, Y: q31, Y': q31)
    requires |pData| == numRows * numCols && ClearOfLowest(pData)
    requires ColumnsNonDecreasing(pData, numRows, numCols)
    requires Y <= Y' && Inner(numRows, numCols, X, Y) && Inner(numRows, numCols, X, Y')
    ensures ReadsFit(|pData|, numCols, X / 0x10_0000, Y / 0x10_0000)
    ensures ReadsFit(|pData|, numCols, X / 0x10_0000, Y' / 0x10_0000)
    ensures BilinearQ31(pData, numRows, numCols, X, Y) <= BilinearQ31(pData, numRows, numCols, X, Y') + 12
  {
    hide BilinearQ31, AccAt, ClearOfLowest, ColumnsNonDecreasing, Column, MixedPair, FixedPair, Entry, NonDecreasing;
    ResultIsAcc(pData, numRows, numCols, X, Y);
    ResultIsAcc(pData, numRows, numCols, X, Y');
    AccByColumns(pData, numRows, numCols, X, Y);
    AccByColumns(pData, numRows, numCols, X, Y');
    var r, xf := X / 0x10_0000, X % 0x10_0000;
    ColumnNonDecreasing(pData, numRows, numCols, r);
    ColumnNonDecreasing(pData, numRows, numCols, r + 1);
    FixedDrop(Column(pData, numRows, numCols, r), Y, Y', 0x7FFF_FFFF - 0x800 * xf);
    MixedDrop(Column(pData, numRows, numCols, r + 1), Y, Y', 0x800 * xf);
  }

  /** Both bounds are reached, on a table with equal entries and on one with equal
      rows. */
  lemma DropsReached()
    ensures var v: q31 := 2078152112;
            4 * TermSum31(v, v, v, v, 0, 1044263) == 4 * TermSum31(v, v, v, v, 1038725, 1044263) + 16
    ensures var v: q31, u: q31 := -1020621851, -1491695694;
            4 * TermSum31(v, u, v, u, 1005826, 0) == 4 * TermSum31(v, u, v, u, 1005826, 553) + 12
  {
    hide Term31;
    DropAlongX();
    DropAlongY();
  }

  lemma DropAlongX()
    ensures TermSum31(2078152112, 2078152112, 2078152112, 2078152112, 0, 1044263) == 519538027
    ensures TermSum31(2078152112, 2078152112, 2078152112, 2078152112, 1038725, 1044263) == 519538023
  {
    hide Term31;
    TermAt(2078152112, 2147483647, 8833023, 1039076055, 2136962);
    TermAt(2078152112, 8833023, 0, 4273924, 0);
    TermAt(2078152112, 2147483647, 2138650624, 1039076055, 517401065);
    TermAt(2078152112, 0, 2138650624, 0, 0);
    TermAt(2078152112, 20174847, 8833023, 9761750, 20075);
    TermAt(2078152112, 8833023, 2127308800, 4273924, 2116885);
    TermAt(2078152112, 20174847, 2138650624, 9761750, 4860798);
    TermAt(2078152112, 2127308800, 2138650624, 1029314304, 512540265);
  }

  lemma DropAlongY()
    ensures TermSum31(-1020621851, -1491695694, -1020621851, -1491695694, 1005826, 0) == -368122554
    ensures TermSum31(-1020621851, -1491695694, -1020621851, -1491695694, 1005826, 553) == -368122557
  {
    hide Term31;
    TermAt(-1020621851, 87551999, 2147483647, -20805161, -10402581);
    TermAt(-1491695694, 2147483647, 2059931648, -745847847, -357719973);
    TermAt(-1020621851, 87551999, 0, -20805161, 0);
    TermAt(-1491695694, 2059931648, 0, -715439946, 0);
    TermAt(-1020621851, 87551999, 2146351103, -20805161, -10397095);
    TermAt(-1491695694, 2146351103, 2059931648, -745454501, -357531319);
    TermAt(-1020621851, 87551999, 1132544, -20805161, -5487);
    TermAt(-1491695694, 2059931648, 1132544, -715439946, -188656);
  }
}
