/** The Q31 motor-control transforms: Clarke (three phases to two axes), Park
    (rotation by an angle given by its sine and cosine), and their inverses. */
module MotorTransforms {
  import opened Bits
  import opened FixedPoint

  const LOWEST: q31 := -0x8000_0000

  // ----- Park -----

  /** `(q31_t) (((q63_t) x * y) >> 31)` */
  function Mul31(x: q31, y: q31): q31 {
    Wrap32(Product63(x, y) / 0x8000_0000)
  }

  /** The product of two Q31 numbers wraps in exactly one case, (-1) * (-1). */
  lemma Mul31Exact(x: q31, y: q31)
    ensures Mul31(x, y) == (x * y) / 0x8000_0000 <==> !(x == LOWEST && y == LOWEST)
    ensures x == LOWEST && y == LOWEST ==> Mul31(x, y) == LOWEST
  {
    if x == LOWEST && y == LOWEST {
      assert Mul31(x, y) == Wrap32(0x8000_0000);
    } else {
      NotBothLowest(x, y);
    }
  }

  lemma NotBothLowest(x: q31, y: q31)
    requires !(x == LOWEST && y == LOWEST)
    ensures -0x8000_0000 <= (x * y) / 0x8000_0000 < 0x8000_0000
  {
    if x == LOWEST {
      assert x * y == -0x8000_0000 * y;
    } else {
      ProductBound(x, y, 0x7FFF_FFFF, 0x8000_0000);
    }
  }

  /** arm_park_q31: (pId, pIq). */
  function Park(alpha: q31, beta: q31, sinVal: q31, cosVal: q31): (q31, q31) {
    var product1 := Mul31(alpha, cosVal);
    var product2 := Mul31(beta, sinVal);
    var product3 := Mul31(alpha, sinVal);
    var product4 := Mul31(beta, cosVal);
    (Qadd(product1, product2), Qsub(product4, product3))
  }

  /** arm_inv_park_q31: (pIalpha, pIbeta). */
  function InvPark(id: q31, iq: q31, sinVal: q31, cosVal: q31): (q31, q31) {
    var product1 := Mul31(id, cosVal);
    var product2 := Mul31(iq, sinVal);
    var product3 := Mul31(id, sinVal);
    var product4 := Mul31(iq, cosVal);
    (Qsub(product1, product2), Qadd(product4, product3))
  }

  /** No product of the transform of (x, y) is (-1) * (-1). */
  predicate ProductsFit(x: q31, y: q31, sinVal: q31, cosVal: q31) {
    !((x == LOWEST || y == LOWEST) && (sinVal == LOWEST || cosVal == LOWEST))
  }

  /** Neither sum of the forward transform reaches its saturation. */
  predicate ParkInRange(alpha: q31, beta: q31, sinVal: q31, cosVal: q31) {
    -0x8000_0000 <= Mul31(alpha, cosVal) + Mul31(beta, sinVal) < 0x8000_0000
    && -0x8000_0000 <= Mul31(beta, cosVal) - Mul31(alpha, sinVal) < 0x8000_0000
  }

  /** What truncation costs the forward transform: the d axis loses less than two
      units, the q axis is off by less than one either way. */
  lemma ParkRounding(a: q31, b: q31, s: q31, c: q31)
    requires ProductsFit(a, b, s, c) && ParkInRange(a, b, s, c)
    ensures var (id, iq) := Park(a, b, s, c);
            0 <= a * c + b * s - 0x8000_0000 * id <= 2 * 0x7FFF_FFFF
            && -0x7FFF_FFFF <= b * c - a * s - 0x8000_0000 * iq <= 0x7FFF_FFFF
  {
    hide Mul31;
    Mul31Exact(a, c);
    Mul31Exact(b, s);
    Mul31Exact(a, s);
    Mul31Exact(b, c);
    QaddQsubAreClamps(Mul31(a, c), Mul31(b, s));
    QaddQsubAreClamps(Mul31(b, c), Mul31(a, s));
    hide Qadd, Qsub;
    FloorSum(a * c, b * s);
    FloorSum(b * c, a * s);
  }

  lemma FloorSum(x: int, y: int)
    ensures 0 <= x + y - 0x8000_0000 * (x / 0x8000_0000 + y / 0x8000_0000) <= 2 * 0x7FFF_FFFF
    ensures -0x7FFF_FFFF <= x - y - 0x8000_0000 * (x / 0x8000_0000 - y / 0x8000_0000) <= 0x7FFF_FFFF
  {
  }

  // ----- with saturation -----

  predicate BothLowest(x: q31, y: q31) {
    x == LOWEST && y == LOWEST
  }

  /** A saturated sum of two truncated products is the saturated exact sum or one unit
      below, exactly when neither product is (-1) * (-1). */
  lemma SumSaturates(x: q31, y: q31, z: q31, w: q31)
    ensures var exact := Clamp31((x * y + z * w) / 0x8000_0000);
            exact - 1 <= Qadd(Mul31(x, y), Mul31(z, w)) <= exact <==> !BothLowest(x, y) && !BothLowest(z, w)
  {
    hide Mul31;
    TruncatedProduct(x, y);
    TruncatedProduct(z, w);
    QaddQsubAreClamps(Mul31(x, y), Mul31(z, w));
    hide Qadd, Qsub;
    ClampedSum(x * y, z * w, Mul31(x, y), Mul31(z, w));
  }

  /** A saturated difference is the saturated exact one or one unit above, exactly when
      both products or neither are (-1) * (-1): two wraps cancel. */
  lemma DifferenceSaturates(x: q31, y: q31, z: q31, w: q31)
    ensures var exact := Clamp31((x * y - z * w) / 0x8000_0000);
            exact <= Qsub(Mul31(x, y), Mul31(z, w)) <= exact + 1 <==> (BothLowest(x, y) <==> BothLowest(z, w))
  {
    hide Mul31;
    TruncatedProduct(x, y);
    TruncatedProduct(z, w);
    QaddQsubAreClamps(Mul31(x, y), Mul31(z, w));
    hide Qadd, Qsub;
    ClampedDifference(x * y, z * w, Mul31(x, y), Mul31(z, w));
  }

  lemma TruncatedProduct(x: q31, y: q31)
    ensures -0x3FFF_FFFF_8000_0000 - 0x8000_0000 <= x * y <= 0x4000_0000_0000_0000
    ensures x * y == 0x4000_0000_0000_0000 <==> BothLowest(x, y)
    ensures Mul31(x, y) == if BothLowest(x, y) then -0x8000_0000 else (x * y) / 0x8000_0000
  {
    Mul31Exact(x, y);
    hide Mul31;
    ProductBound(x, y, 0x8000_0000, 0x8000_0000);
    if !BothLowest(x, y) {
      NotBothLowest(x, y);
    }
  }

  lemma ClampedSum(p: int, q: int, a: int, b: int)
    requires -0x4000_0000_0000_0000 <= p <= 0x4000_0000_0000_0000
    requires -0x4000_0000_0000_0000 <= q <= 0x4000_0000_0000_0000
    requires a == if p == 0x4000_0000_0000_0000 then -0x8000_0000 else p / 0x8000_0000
    requires b == if q == 0x4000_0000_0000_0000 then -0x8000_0000 else q / 0x8000_0000
    ensures var exact := Clamp31((p + q) / 0x8000_0000);
            exact - 1 <= Clamp31(a + b) <= exact <==> p != 0x4000_0000_0000_0000 && q != 0x4000_0000_0000_0000
  {
  }

  lemma ClampedDifference(p: int, q: int, a: int, b: int)
    requires -0x4000_0000_0000_0000 <= p <= 0x4000_0000_0000_0000
    requires -0x4000_0000_0000_0000 <= q <= 0x4000_0000_0000_0000
    requires a == if p == 0x4000_0000_0000_0000 then -0x8000_0000 else p / 0x8000_0000
    requires b == if q == 0x4000_0000_0000_0000 then -0x8000_0000 else q / 0x8000_0000
    ensures var exact := Clamp31((p - q) / 0x8000_0000);
            (exact <= Clamp31(a - b) <= exact + 1
             <==> (p == 0x4000_0000_0000_0000 <==> q == 0x4000_0000_0000_0000))
  {
  }

  /** For all inputs, saturating or not: the d axis is the saturated exact rotation or
      one unit below, and the q axis that or one unit above, each exactly under a
      condition on the double lowest products of its own. */
  lemma ParkExactly(a: q31, b: q31, s: q31, c: q31)
    ensures var (id, iq) := Park(a, b, s, c);
            var d, q := Clamp31((a * c + b * s) / 0x8000_0000), Clamp31((b * c - a * s) / 0x8000_0000);
            (d - 1 <= id <= d <==> !BothLowest(a, c) && !BothLowest(b, s))
            && (q <= iq <= q + 1 <==> (BothLowest(b, c) <==> BothLowest(a, s)))
  {
    hide Mul31, Qadd, Qsub, BothLowest;
    SumSaturates(a, c, b, s);
    DifferenceSaturates(b, c, a, s);
  }

  /** The same for the inverse rotation. */
  lemma InvParkExactly(id: q31, iq: q31, s: q31, c: q31)
    ensures var (alpha, beta) := InvPark(id, iq, s, c);
            var a, b := Clamp31((id * c - iq * s) / 0x8000_0000), Clamp31((iq * c + id * s) / 0x8000_0000);
            (a <= alpha <= a + 1 <==> (BothLowest(id, c) <==> BothLowest(iq, s)))
            && (b - 1 <= beta <= b <==> !BothLowest(iq, c) && !BothLowest(id, s))
  {
    hide Mul31, Qadd, Qsub, BothLowest;
    DifferenceSaturates(id, c, iq, s);
    SumSaturates(iq, c, id, s);
  }

  /** No product that enters an output of the inverse transform is (-1) * (-1). */
  predicate AlphaFits(id: q31, iq: q31, s: q31, c: q31) {
    !(id == LOWEST && c == LOWEST) && !(iq == LOWEST && s == LOWEST)
  }

  predicate BetaFits(id: q31, iq: q31, s: q31, c: q31) {
    !(id == LOWEST && s == LOWEST) && !(iq == LOWEST && c == LOWEST)
  }

  /** The inverse transform before its saturation. */
  lemma InvParkAlpha(id: q31, iq: q31, s: q31, c: q31) returns (raw: int)
    requires AlphaFits(id, iq, s, c)
    ensures InvPark(id, iq, s, c).0 == Clamp31(raw)
    ensures -0x7FFF_FFFF <= id * c - iq * s - 0x8000_0000 * raw <= 0x7FFF_FFFF
  {
    hide Mul31;
    Mul31Exact(id, c);
    Mul31Exact(iq, s);
    QaddQsubAreClamps(Mul31(id, c), Mul31(iq, s));
    hide Qadd, Qsub;
    FloorSum(id * c, iq * s);
    raw := Mul31(id, c) as int - Mul31(iq, s);
  }

  lemma InvParkBeta(id: q31, iq: q31, s: q31, c: q31) returns (raw: int)
    requires BetaFits(id, iq, s, c)
    ensures InvPark(id, iq, s, c).1 == Clamp31(raw)
    ensures 0 <= iq * c + id * s - 0x8000_0000 * raw <= 2 * 0x7FFF_FFFF
  {
    hide Mul31;
    Mul31Exact(iq, c);
    Mul31Exact(id, s);
    QaddQsubAreClamps(Mul31(iq, c), Mul31(id, s));
    hide Qadd, Qsub;
    FloorSum(iq * c, id * s);
    raw := Mul31(iq, c) as int + Mul31(id, s);
  }

  /** How far sine and cosine are from the unit circle, in 2.62 format. */
  function CircleError(s: q31, c: q31): int {
    s * s + c * c - 0x4000_0000_0000_0000
  }

  /** v' is v up to `lsb` units in the last place and the share of v by which
      sin^2 + cos^2 misses 1. */
  predicate Recovered(v': q31, v: q31, s: q31, c: q31, lsb: nat) {
    0x4000_0000_0000_0000 * Abs(v' - v) <= 0x4000_0000_0000_0000 * lsb + Abs(v * CircleError(s, c))
  }

  /** Inverse Park undoes Park: alpha within 4 and beta within 5 units in the last
      place for any angle, as long as no inverse product is (-1) * (-1). */
  lemma ParkRoundTrip(a: q31, b: q31, s: q31, c: q31)
    requires ProductsFit(a, b, s, c) && ParkInRange(a, b, s, c)
    ensures var (id, iq) := Park(a, b, s, c);
            var (a', b') := InvPark(id, iq, s, c);
            (AlphaFits(id, iq, s, c) ==> Recovered(a', a, s, c, 4))
            && (BetaFits(id, iq, s, c) ==> Recovered(b', b, s, c, 5))
  {
    hide Park, InvPark, ParkInRange;
    var (id, iq) := Park(a, b, s, c);
    ParkRounding(a, b, s, c);
    if AlphaFits(id, iq, s, c) {
      var raw := InvParkAlpha(id, iq, s, c);
      RotateBackAlpha(a, b, s, c, id, iq, raw);
      ClampContracts(raw, a, -0x8000_0000, 0x7FFF_FFFF);
    }
    if BetaFits(id, iq, s, c) {
      var raw := InvParkBeta(id, iq, s, c);
      RotateBackBeta(a, b, s, c, id, iq, raw);
      ClampContracts(raw, b, -0x8000_0000, 0x7FFF_FFFF);
    }
  }

  lemma RotateBackAlpha(a: q31, b: q31, s: q31, c: q31, id: int, iq: int, raw: int)
    requires 0 <= a * c + b * s - 0x8000_0000 * id <= 2 * 0x7FFF_FFFF
    requires -0x7FFF_FFFF <= b * c - a * s - 0x8000_0000 * iq <= 0x7FFF_FFFF
    requires -0x7FFF_FFFF <= id * c - iq * s - 0x8000_0000 * raw <= 0x7FFF_FFFF
    ensures 0x4000_0000_0000_0000 * Abs(raw - a) <= 0x4000_0000_0000_0000 * 4 + Abs(a * CircleError(s, c))
  {
    var N := 0x8000_0000;
    var e1, e2 := a * c + b * s - N * id, b * c - a * s - N * iq;
    var e := id * c - iq * s - N * raw;
    RotationAlgebra(a, b, s, c, id, iq, N, e1, e2);
    SplitShare(a, s * s + c * c);
    ProductBound(e1, c, 2 * 0x7FFF_FFFF, N);
    ProductBound(e2, s, 0x7FFF_FFFF, N);
    ScaledClose(raw, a, a * CircleError(s, c), id * c - iq * s, e, e2 * s - e1 * c, 4);
  }

  lemma RotateBackBeta(a: q31, b: q31, s: q31, c: q31, id: int, iq: int, raw: int)
    requires 0 <= a * c + b * s - 0x8000_0000 * id <= 2 * 0x7FFF_FFFF
    requires -0x7FFF_FFFF <= b * c - a * s - 0x8000_0000 * iq <= 0x7FFF_FFFF
    requires 0 <= iq * c + id * s - 0x8000_0000 * raw <= 2 * 0x7FFF_FFFF
    ensures 0x4000_0000_0000_0000 * Abs(raw - b) <= 0x4000_0000_0000_0000 * 5 + Abs(b * CircleError(s, c))
  {
    var N := 0x8000_0000;
    var e1, e2 := a * c + b * s - N * id, b * c - a * s - N * iq;
    var e := iq * c + id * s - N * raw;
    RotationAlgebra(a, b, s, c, id, iq, N, e1, e2);
    SplitShare(b, s * s + c * c);
    ProductBound(e1, s, 2 * 0x7FFF_FFFF, N);
    ProductBound(e2, c, 0x7FFF_FFFF, N);
    ScaledClose(raw, b, b * CircleError(s, c), iq * c + id * s, e, -(e2 * c) - e1 * s, 5);
  }

  lemma SplitShare(v: int, S: int)
    ensures v * S == v * (S - 0x4000_0000_0000_0000) + 0x4000_0000_0000_0000 * v
  {
  }

  lemma ScaledClose(raw: int, v: int, share: int, sum: int, e: int, err: int, lsb: nat)
    requires sum == 0x8000_0000 * raw + e
    requires 0x8000_0000 * sum == share + 0x4000_0000_0000_0000 * v + err
    requires Abs(err - 0x8000_0000 * e) <= 0x4000_0000_0000_0000 * lsb
    ensures 0x4000_0000_0000_0000 * Abs(raw - v) <= 0x4000_0000_0000_0000 * lsb + Abs(share)
  {
  }

  /** Rotating forward and back multiplies by sin^2 + cos^2. */
  lemma RotationAlgebra(a: int, b: int, s: int, c: int, id: int, iq: int, N: int, e1: int, e2: int)
    requires N * id == a * c + b * s - e1 && N * iq == b * c - a * s - e2
    ensures N * (id * c - iq * s) == a * (s * s + c * c) - e1 * c + e2 * s
    ensures N * (iq * c + id * s) == b * (s * s + c * c) - e2 * c - e1 * s
  {
    assert N * (id * c - iq * s) == (N * id) * c - (N * iq) * s;
    assert N * (iq * c + id * s) == (N * iq) * c + (N * id) * s;
    assert (a * c + b * s - e1) * c == a * (c * c) + b * (s * c) - e1 * c;
    assert (b * c - a * s - e2) * s == b * (s * c) - a * (s * s) - e2 * s;
    assert (b * c - a * s - e2) * c == b * (c * c) - a * (s * c) - e2 * c;
    assert (a * c + b * s - e1) * s == a * (s * c) + b * (s * s) - e1 * s;
    assert a * (s * s + c * c) == a * (s * s) + a * (c * c);
    assert b * (s * s + c * c) == b * (s * s) + b * (c * c);
  }

  /** A Park rotation preserves the length of the vector, up to the distance of
      (sin, cos) from the unit circle and the rounding of the two components. */
  lemma ParkNorm(a: q31, b: q31, s: q31, c: q31)
    requires ProductsFit(a, b, s, c) && ParkInRange(a, b, s, c)
    ensures var (id, iq) := Park(a, b, s, c);
            Abs(0x4000_0000_0000_0000 * (id * id + iq * iq) - (a * a + b * b) * (s * s + c * c))
              <= 0x4000_0000_0000_0000 * (4 * Abs(id) + 2 * Abs(iq) + 5)
  {
    hide Park, ParkInRange;
    var (id, iq) := Park(a, b, s, c);
    ParkRounding(a, b, s, c);
    TwoSquares(a, b, s, c);
    SquareDeviation(a * c + b * s, id, 2);
    SquareDeviation(b * c - a * s, iq, 1);
  }

  /** If u is within k units of N * x, its square is within N^2 (2k|x| + k^2) of
      the square of N * x. */
  lemma SquareDeviation(u: int, x: int, k: nat)
    requires Abs(u - 0x8000_0000 * x) <= 0x8000_0000 * k
    ensures Abs(0x4000_0000_0000_0000 * (x * x) - u * u)
         <= 0x4000_0000_0000_0000 * (2 * (k * Abs(x)) + k * k)
  {
    var e, w := u - 0x8000_0000 * x, 0x8000_0000 * k;
    SquareOfSum(0x8000_0000 * x, e);
    ProductBound(x, e, Abs(x), w);
    ProductBound(e, e, w, w);
    SquareNonNegative(e);
    assert Abs(x) * w == 0x8000_0000 * (k * Abs(x));
    assert w * w == 0x4000_0000_0000_0000 * (k * k);
    assert (0x8000_0000 * x) * e == 0x8000_0000 * (x * e);
    assert (0x8000_0000 * x) * (0x8000_0000 * x) == 0x4000_0000_0000_0000 * (x * x);
    DeviationLinear(x * x, u * u, x * e, e * e, k * Abs(x), k * k);
  }

  lemma DeviationLinear(xx: int, uu: int, xe: int, ee: int, kx: int, kk: int)
    requires uu == 0x4000_0000_0000_0000 * xx + 2 * (0x8000_0000 * xe) + ee
    requires Abs(xe) <= 0x8000_0000 * kx && 0 <= ee <= 0x4000_0000_0000_0000 * kk
    ensures Abs(0x4000_0000_0000_0000 * xx - uu) <= 0x4000_0000_0000_0000 * (2 * kx + kk)
  {
  }

  lemma SquareOfSum(x: int, e: int)
    ensures (x + e) * (x + e) == x * x + 2 * (x * e) + e * e
  {
  }

  lemma TwoSquares(a: int, b: int, s: int, c: int)
    ensures (a * c + b * s) * (a * c + b * s) + (b * c - a * s) * (b * c - a * s)
         == (a * a + b * b) * (s * s + c * c)
  {
    CrossTerm(a, c, b, s);
    FourSquares(a * c, b * s, b * c, a * s);
    ProductSquare(a, s);
    ProductSquare(a, c);
    ProductSquare(b, s);
    ProductSquare(b, c);
    Distribute(a * a, b * b, s * s + c * c);
    Distribute(s * s, c * c, a * a);
    Distribute(s * s, c * c, b * b);
  }

  lemma FourSquares(x: int, y: int, z: int, w: int)
    requires x * y == z * w
    ensures (x + y) * (x + y) + (z - w) * (z - w) == x * x + y * y + z * z + w * w
  {
    SquareOfSum(x, y);
    Distribute(z, w, z - w);
    Distribute(z, w, z);
    Distribute(z, w, w);
  }

  lemma CrossTerm(a: int, c: int, b: int, s: int)
    ensures (a * c) * (b * s) == (b * c) * (a * s)
  {
  }

  // ----- when the Park round trip fails -----

  /** (sin, cos) is within a quarter of the unit circle, as every sine and cosine
      of an angle is. */
  predicate NearCircle(s: q31, c: q31) {
    Abs(CircleError(s, c)) <= 0x1000_0000_0000_0000
  }

  /** For every usable angle the round trip recovers a coordinate exactly when no
      product entering it is (-1) * (-1). If one is, it wraps to -1 and the
      coordinate comes back with the opposite sign. */
  lemma ParkRoundTripExactly(a: q31, b: q31, s: q31, c: q31)
    requires NearCircle(s, c)
    requires ProductsFit(a, b, s, c) && ParkInRange(a, b, s, c)
    ensures var (id, iq) := Park(a, b, s, c);
            var (a', b') := InvPark(id, iq, s, c);
            (Recovered(a', a, s, c, 4) <==> AlphaFits(id, iq, s, c))
            && (Recovered(b', b, s, c, 5) <==> BetaFits(id, iq, s, c))
  {
    ParkRoundTrip(a, b, s, c);
    var (id, iq) := Park(a, b, s, c);
    var (a', b') := InvPark(id, iq, s, c);
    hide Mul31, Recovered;
    ParkCorners(a, b, s, c);
    InvParkCorners(id, iq, s, c);
    hide Park, InvPark, ParkInRange, NearCircle;
    if !AlphaFits(id, iq, s, c) {
      FarApart(a', a, s, c, 4);
    }
    if !BetaFits(id, iq, s, c) {
      FarApart(b', b, s, c, 5);
    }
  }

  lemma FarApart(v': q31, v: q31, s: q31, c: q31, lsb: nat)
    requires NearCircle(s, c) && Abs(v' - v) >= 0x8000_0000 && lsb <= 5
    ensures !Recovered(v', v, s, c, lsb)
  {
    hide CircleError;
    var e := CircleError(s, c);
    ProductBound(v, e, 0x8000_0000, 0x1000_0000_0000_0000);
  }

  /** If one of sine and cosine is -1 the other is at most 1/2. */
  lemma OtherIsSmall(x: q31, y: q31)
    requires NearCircle(x, y) || NearCircle(y, x)
    requires x == LOWEST
    ensures -0x4000_0000 <= y <= 0x4000_0000
  {
    assert x * x == 0x4000_0000_0000_0000;
    assert y * y <= 0x1000_0000_0000_0000;
    if y > 0x4000_0000 || y < -0x4000_0000 {
      SquareAbove(y);
    }
  }

  lemma SquareAbove(y: int)
    requires y > 0x4000_0000 || y < -0x4000_0000
    ensures y * y > 0x1000_0000_0000_0000
  {
    var z := Abs(y);
    assert z * z == y * y;
    MulMonotone(0x4000_0001, z, z);
  }

  lemma SmallProduct(x: q31, y: q31)
    requires -0x4000_0000 <= y <= 0x4000_0000
    ensures -0x4000_0000 <= Mul31(x, y) <= 0x4000_0000
  {
    Mul31Exact(x, y);
    ProductBound(x, y, 0x8000_0000, 0x4000_0000);
    hide Mul31;
    HalfRange(x * y);
  }

  lemma HalfRange(p: int)
    requires -0x2000_0000_0000_0000 <= p <= 0x2000_0000_0000_0000
    ensures -0x4000_0000 <= p / 0x8000_0000 <= 0x4000_0000
  {
  }

  lemma TimesLowest(x: q31)
    ensures Mul31(x, LOWEST) == if x == LOWEST then LOWEST else -x
  {
    Mul31Exact(x, LOWEST);
    hide Mul31;
    assert x * LOWEST == -0x8000_0000 * x;
  }

  /** Where the forward transform must have started to reach a corner. */
  lemma ParkCorners(a: q31, b: q31, s: q31, c: q31)
    requires NearCircle(s, c)
    requires ProductsFit(a, b, s, c) && ParkInRange(a, b, s, c)
    ensures var (id, iq) := Park(a, b, s, c);
            (id == LOWEST && c == LOWEST ==> a >= 0x4000_0000)
            && (iq == LOWEST && s == LOWEST ==> a <= -0x4000_0000)
            && (id == LOWEST && s == LOWEST ==> b >= 0x4000_0000)
            && (iq == LOWEST && c == LOWEST ==> b >= 0x4000_0000)
  {
    hide Mul31;
    QaddQsubAreClamps(Mul31(a, c), Mul31(b, s));
    QaddQsubAreClamps(Mul31(b, c), Mul31(a, s));
    hide Qadd, Qsub;
    if c == LOWEST {
      OtherIsSmall(c, s);
      hide NearCircle;
      TimesLowest(a);
      TimesLowest(b);
      SmallProduct(a, s);
      SmallProduct(b, s);
    } else if s == LOWEST {
      OtherIsSmall(s, c);
      hide NearCircle;
      TimesLowest(a);
      TimesLowest(b);
      SmallProduct(a, c);
      SmallProduct(b, c);
    }
  }

  /** What the inverse transform makes of a corner: the opposite sign. */
  lemma InvParkCorners(id: q31, iq: q31, s: q31, c: q31)
    requires NearCircle(s, c)
    ensures var (a', b') := InvPark(id, iq, s, c);
            (id == LOWEST && c == LOWEST ==> a' <= -0x4000_0000)
            && (iq == LOWEST && s == LOWEST ==> a' >= 0x4000_0000)
            && (id == LOWEST && s == LOWEST ==> b' <= -0x4000_0000)
            && (iq == LOWEST && c == LOWEST ==> b' <= -0x4000_0000)
  {
    hide Mul31;
    QaddQsubAreClamps(Mul31(id, c), Mul31(iq, s));
    QaddQsubAreClamps(Mul31(iq, c), Mul31(id, s));
    hide Qadd, Qsub;
    if c == LOWEST {
      OtherIsSmall(c, s);
      hide NearCircle;
      TimesLowest(id);
      TimesLowest(iq);
      SmallProduct(id, s);
      SmallProduct(iq, s);
    } else if s == LOWEST {
      OtherIsSmall(s, c);
      hide NearCircle;
      TimesLowest(id);
      TimesLowest(iq);
      SmallProduct(id, c);
      SmallProduct(iq, c);
    }
  }

  /** The corner is reached: cos = -1, sin = -2^-31 turn (1 - 2^-31, 2^-31) into
      Id = -1 without saturation, and the way back returns -1 for alpha. */
  lemma ParkRoundTripCornerReached()
    ensures NearCircle(-1, LOWEST) && ProductsFit(0x7FFF_FFFF, 1, -1, LOWEST)
    ensures ParkInRange(0x7FFF_FFFF, 1, -1, LOWEST)
    ensures Park(0x7FFF_FFFF, 1, -1, LOWEST) == (LOWEST, 0)
    ensures InvPark(LOWEST, 0, -1, LOWEST).0 == LOWEST
  {
    hide Mul31, Qadd, Qsub;
    CornerProducts();
    CornerSums();
    assert CircleError(-1, LOWEST) == 1;
    hide NearCircle;
  }

  lemma CornerSums()
    ensures Qadd(-0x7FFF_FFFF, -1) == LOWEST && Qsub(-1, -1) == 0 && Qsub(LOWEST, 0) == LOWEST
  {
    hide Qadd, Qsub;
    QaddQsubAreClamps(-0x7FFF_FFFF, -1);
    QaddQsubAreClamps(-1, -1);
    QaddQsubAreClamps(LOWEST, 0);
  }

  lemma CornerProducts()
    ensures Mul31(0x7FFF_FFFF, LOWEST) == -0x7FFF_FFFF && Mul31(1, LOWEST) == -1
    ensures Mul31(LOWEST, LOWEST) == LOWEST && Mul31(0, LOWEST) == 0
    ensures Mul31(1, -1) == -1 && Mul31(0x7FFF_FFFF, -1) == -1 && Mul31(0, -1) == 0
  {
    hide Mul31;
    TimesLowest(0x7FFF_FFFF);
    TimesLowest(1);
    TimesLowest(LOWEST);
    TimesLowest(0);
    Mul31Exact(1, -1);
    Mul31Exact(0x7FFF_FFFF, -1);
    Mul31Exact(0, -1);
  }

  // ----- Clarke -----

  // The three coefficients are exact multiples of one constant:
  // 0x49E69D16 == 2 * 0x24F34E8B and 0x6ED9EBA1 == 3 * 0x24F34E8B.

  /** arm_clarke_q31: (pIalpha, pIbeta). */
  function Clarke(ia: q31, ib: q31): (q31, q31) {
    var product1 := Wrap32(Product63(ia, 0x24F3_4E8B) / 0x4000_0000);
    var product2 := Wrap32(Product63(ib, 0x49E6_9D16) / 0x4000_0000);
    (ia, Qadd(product1, product2))
  }

  /** arm_inv_clarke_q31: (pIa, pIb). */
  function InvClarke(alpha: q31, beta: q31): (q31, q31) {
    var product1 := Wrap32(Product63(alpha, 0x4000_0000) / 0x8000_0000);
    var product2 := Wrap32(Product63(beta, 0x6ED9_EBA1) / 0x8000_0000);
    (alpha, Qsub(product2, product1))
  }

  /** The beta axis before saturation. */
  function ClarkeSum(ia: int, ib: int): int {
    (ia * 0x24F3_4E8B) / 0x4000_0000 + (ib * 0x49E6_9D16) / 0x4000_0000
  }

  /** 2/sqrt(3) is above 1, so the second product can leave the format before the
      saturating addition sees it: the beta axis is the saturated sum exactly
      for |Ib| up to sqrt(3)/2. */
  lemma ClarkeExactly(ia: q31, ib: q31)
    ensures Clarke(ia, ib).0 == ia
    ensures Clarke(ia, ib).1 == Clamp31(ClarkeSum(ia, ib)) <==> -0x6ED9_EBA1 <= ib <= 0x6ED9_EBA1
  {
    ClarkeParts(ia, ib);
    WrapOnce((ib * 0x49E6_9D16) / 0x4000_0000);
    hide Clarke, Wrap32;
  }

  /** The first product fits; the second is wrapped before the saturating addition. */
  lemma ClarkeParts(ia: q31, ib: q31)
    ensures Clarke(ia, ib).0 == ia
    ensures -0x4A00_0000 <= (ia * 0x24F3_4E8B) / 0x4000_0000 <= 0x4A00_0000
    ensures -0x9400_0000 <= (ib * 0x49E6_9D16) / 0x4000_0000 <= 0x9400_0000
    ensures Clarke(ia, ib).1
         == Clamp31((ia * 0x24F3_4E8B) / 0x4000_0000 + Wrap32((ib * 0x49E6_9D16) / 0x4000_0000))
  {
    var v1, v2 := (ia * 0x24F3_4E8B) / 0x4000_0000, (ib * 0x49E6_9D16) / 0x4000_0000;
    assert -0x4A00_0000 <= v1 <= 0x4A00_0000;
    QaddQsubAreClamps(v1, Wrap32(v2));
    hide Wrap32, Qadd, Qsub;
  }

  lemma WrapOnce(v: int)
    requires -0x1_0000_0000 <= v <= 0x1_0000_0000
    ensures Wrap32(v) == if v < -0x8000_0000 then v + 0x1_0000_0000
                         else if v < 0x8000_0000 then v else v - 0x1_0000_0000
  {
    if v < -0x8000_0000 {
      WrapAt(v, 0x8000_0000, -1);
    } else if v >= 0x8000_0000 {
      WrapAt(v, 0x8000_0000, 1);
    }
  }

  lemma InvClarkeValue(alpha: q31, beta: q31)
    ensures InvClarke(alpha, beta).0 == alpha
    ensures InvClarke(alpha, beta).1 == Clamp31((beta * 0x6ED9_EBA1) / 0x8000_0000 - alpha / 2)
  {
    var v1, v2 := (alpha * 0x4000_0000) / 0x8000_0000, (beta * 0x6ED9_EBA1) / 0x8000_0000;
    assert v1 == alpha / 2;
    assert -0x8000_0000 <= v2 < 0x8000_0000;
    QaddQsubAreClamps(v2, v1);
    hide Wrap32, Qadd, Qsub;
  }

  /** For all inputs, saturating or not, Ib is the saturated exact value
      sqrt(3)/2 * beta - alpha / 2 or one unit above. */
  lemma InvClarkeSaturates(alpha: q31, beta: q31)
    ensures var exact := Clamp31((beta * 0x6ED9_EBA1 - alpha * 0x4000_0000) / 0x8000_0000);
            exact <= InvClarke(alpha, beta).1 <= exact + 1
  {
    hide InvClarke;
    InvClarkeValue(alpha, beta);
  }

  /** How far the beta axis is beyond its saturation. */
  function ClarkeExcess(ia: int, ib: int): int {
    ClarkeSum(ia, ib) - Clamp31(ClarkeSum(ia, ib))
  }

  /** Inverse Clarke undoes Clarke: Ia exactly, Ib within 3 units below and 1 above.
      What a saturated forward sum has lost is missing from Ib, times sqrt(3)/2. */
  lemma ClarkeRoundTrip(ia: q31, ib: q31)
    requires -0x6ED9_EBA1 <= ib <= 0x6ED9_EBA1
    ensures var (alpha, beta) := Clarke(ia, ib);
            var (ia', ib') := InvClarke(alpha, beta);
            ia' == ia
            && -4 * 0x8000_0000 < 0x8000_0000 * (ib' - ib) + 0x6ED9_EBA1 * ClarkeExcess(ia, ib) < 2 * 0x8000_0000
            && (ClarkeExcess(ia, ib) == 0 ==> ib - 3 <= ib' <= ib + 1)
  {
    hide Clarke, InvClarke;
    ClarkeExactly(ia, ib);
    var sum := ClarkeSum(ia, ib);
    var beta := Clamp31(sum);
    InvClarkeValue(ia, beta);
    if beta == sum {
      ClarkeBack(ia, ib, beta);
    }
    SaturatedBack(ia, ib, sum, beta);
  }

  /** Beyond that range of Ib the wrapped product turns its sign around. */
  lemma ClarkeRoundTripFlips(ia: q31, ib: q31)
    ensures var (alpha, beta) := Clarke(ia, ib);
            var ib' := InvClarke(alpha, beta).1;
            (ib > 0x6ED9_EBA1 ==> ib' < -0x2000_0000) && (ib < -0x6ED9_EBA1 ==> ib' > 0x2000_0000)
  {
    hide Clarke, InvClarke;
    ClarkeWrapped(ia, ib);
    InvClarkeValue(ia, Clarke(ia, ib).1);
  }

  lemma ClarkeWrapped(ia: q31, ib: q31)
    ensures Clarke(ia, ib).0 == ia
    ensures ib > 0x6ED9_EBA1 ==> Clarke(ia, ib).1 == Clamp31(ClarkeSum(ia, ib) - 0x1_0000_0000)
    ensures ib < -0x6ED9_EBA1 ==> Clarke(ia, ib).1 == Clamp31(ClarkeSum(ia, ib) + 0x1_0000_0000)
  {
    ClarkeParts(ia, ib);
    WrapOnce((ib * 0x49E6_9D16) / 0x4000_0000);
    hide Clarke, Wrap32;
  }

  lemma SaturatedBack(ia: q31, ib: q31, sum: int, beta: q31)
    requires -0x6ED9_EBA1 <= ib <= 0x6ED9_EBA1
    requires sum == ClarkeSum(ia, ib) && beta == Clamp31(sum)
    ensures var raw := (beta * 0x6ED9_EBA1) / 0x8000_0000 - ia / 2;
            -4 * 0x8000_0000 < 0x8000_0000 * (Clamp31(raw) - ib) + 0x6ED9_EBA1 * (sum - beta) < 2 * 0x8000_0000
  {
    var p, r := (beta * 0x6ED9_EBA1) / 0x8000_0000, (beta * 0x6ED9_EBA1) % 0x8000_0000;
    var h, odd := ia / 2, ia % 2;
    var e := (ia + 2 * ib) * 0x24F3_4E8B - 0x4000_0000 * sum;
    assert 0 <= e < 0x8000_0000;
    SaturatedLinear(ia, ib, sum, beta, p, r, h, odd, e);
  }

  lemma SaturatedLinear(ia: q31, ib: q31, sum: int, beta: q31, p: int, r: int, h: int, odd: int, e: int)
    requires -0x6ED9_EBA1 <= ib <= 0x6ED9_EBA1 && beta == Clamp31(sum)
    requires (ia + 2 * ib) * 0x24F3_4E8B == 0x4000_0000 * sum + e && 0 <= e < 0x8000_0000
    requires beta * 0x6ED9_EBA1 == 0x8000_0000 * p + r && 0 <= r < 0x8000_0000
    requires ia == 2 * h + odd && 0 <= odd <= 1
    ensures -4 * 0x8000_0000 < 0x8000_0000 * (Clamp31(p - h) - ib) + 0x6ED9_EBA1 * (sum - beta) < 2 * 0x8000_0000
  {
  }

  /** All of it is linear, because 3 * 0x24F34E8B^2 misses 2^60 by 470745493. */
  lemma ClarkeBack(ia: q31, ib: q31, beta: q31)
    requires beta == ClarkeSum(ia, ib)
    ensures ib - 3 <= (beta * 0x6ED9_EBA1) / 0x8000_0000 - ia / 2 <= ib + 1
  {
    var p, r := (beta * 0x6ED9_EBA1) / 0x8000_0000, (beta * 0x6ED9_EBA1) % 0x8000_0000;
    var h, odd := ia / 2, ia % 2;
    var e := (ia + 2 * ib) * 0x24F3_4E8B - 0x4000_0000 * beta;
    assert 0 <= e < 0x8000_0000;
    ClarkeLinear(ia, ib, beta, p, r, h, odd, e);
  }

  lemma ClarkeLinear(ia: int, ib: int, beta: q31, p: int, r: int, h: int, odd: int, e: int)
    requires (ia + 2 * ib) * 0x24F3_4E8B == 0x4000_0000 * beta + e && 0 <= e < 0x8000_0000
    requires beta * 0x6ED9_EBA1 == 0x8000_0000 * p + r && 0 <= r < 0x8000_0000
    requires ia == 2 * h + odd && 0 <= odd <= 1
    ensures ib - 3 <= p - h <= ib + 1
  {
  }

  /** Clarke undoes inverse Clarke: alpha exactly for all inputs, and beta within 4
      units exactly when Ib, before its saturation, fits the second product. */
  lemma InvClarkeRoundTrip(alpha: q31, beta: q31)
    ensures var (ia, ib) := InvClarke(alpha, beta);
            var (alpha', beta') := Clarke(ia, ib);
            alpha' == alpha && (beta - 4 <= beta' <= beta + 1 <==> IbFits(alpha, beta))
    ensures !IbFits(alpha, beta) ==>
      Abs(Clarke(alpha, InvClarke(alpha, beta).1).1 - beta) > 0x2000_0000
  {
    hide Clarke, InvClarke;
    InvClarkeValue(alpha, beta);
    var raw := (beta * 0x6ED9_EBA1) / 0x8000_0000 - alpha / 2;
    if IbFits(alpha, beta) {
      ClarkeExactly(alpha, raw);
      ClarkeForth(alpha, raw, beta);
    } else {
      ClarkeWrapped(alpha, Clamp31(raw));
      WrappedForth(alpha, beta, raw);
    }
  }

  predicate IbFits(alpha: q31, beta: q31) {
    -0x6ED9_EBA1 <= (beta * 0x6ED9_EBA1) / 0x8000_0000 - alpha / 2 <= 0x6ED9_EBA1
  }

  lemma WrappedForth(alpha: q31, beta: q31, raw: int)
    requires raw == (beta * 0x6ED9_EBA1) / 0x8000_0000 - alpha / 2
    ensures raw > 0x6ED9_EBA1 ==>
      Clamp31(ClarkeSum(alpha, Clamp31(raw)) - 0x1_0000_0000) < beta - 0x2000_0000
    ensures raw < -0x6ED9_EBA1 ==>
      Clamp31(ClarkeSum(alpha, Clamp31(raw)) + 0x1_0000_0000) > beta + 0x2000_0000
  {
  }

  lemma ClarkeForth(alpha: q31, ib: q31, beta: q31)
    requires ib == (beta * 0x6ED9_EBA1) / 0x8000_0000 - alpha / 2
    ensures beta - 4 <= ClarkeSum(alpha, ib) <= beta + 1
  {
    var p, r := (beta * 0x6ED9_EBA1) / 0x8000_0000, (beta * 0x6ED9_EBA1) % 0x8000_0000;
    var h, odd := alpha / 2, alpha % 2;
    var out := ClarkeSum(alpha, ib);
    var e := (alpha + 2 * ib) * 0x24F3_4E8B - 0x4000_0000 * out;
    assert 0 <= e < 0x8000_0000;
    ClarkeForthLinear(alpha, ib, beta, out, p, r, h, odd, e);
  }

  lemma ClarkeForthLinear(alpha: int, ib: int, beta: q31, out: int, p: int, r: int, h: int, odd: int, e: int)
    requires (alpha + 2 * ib) * 0x24F3_4E8B == 0x4000_0000 * out + e && 0 <= e < 0x8000_0000
    requires beta * 0x6ED9_EBA1 == 0x8000_0000 * p + r && 0 <= r < 0x8000_0000
    requires alpha == 2 * h + odd && 0 <= odd <= 1 && ib == p - h
    ensures beta - 4 <= out <= beta + 1
  {
  }
}
