/** Point addition on the twisted Edwards curve of Ed25519, in the extended
    coordinates of section 5.1.4 of RFC 8032: a point (X, Y, Z, T) stands for
    x = X/Z, y = Y/Z with X*Y == Z*T. */
module Edwards {
  import B = Bits
  import C = Congruence
  import R = RingIdentities

  // The curve's constants. What follows seldom needs their digits, so these are kept out
  // of the goals that do not: P is 2^255 - 19 by name, and the others are sealed.
  const EXPONENT: nat := 255
  const P: int := PrimeOf(EXPONENT)
  const D: int := Sealed(EXPONENT, D_DIGITS)
  const GX: int := Sealed(EXPONENT, GX_DIGITS)
  const GY: int := Sealed(EXPONENT, GY_DIGITS)

  const D_DIGITS: int := 37095705934669439343138083508754565189542113879843219016388785533085940283555
  const GX_DIGITS: int := 15112221349535400772501151409588531511454012693041857206046113283949847762202
  const GY_DIGITS: int := 46316835694926478169428394003475163141307993866256225615783033603165251855960

  function PrimeOf(e: nat): (p: int)
    requires e >= 5
    ensures p >= 13
  {
    B.Pow2Grows(e);
    B.Pow2(e) - 19
  }

  /** The value, behind n steps. */
  function Sealed(n: nat, value: int): int {
    if n == 0 then value else Sealed(n - 1, value)
  }

  lemma {:induction false} Unsealed(n: nat, value: int)
    ensures Sealed(n, value) == value
  {
    if n > 0 {
      Unsealed(n - 1, value);
    }
  }

  datatype Point = Point(x: int, y: int, z: int, t: int)

  const Neutral: Point := Point(0, 1, 1, 0)
  const Base: Point := Point(GX, GY, 1, (GX * GY) % P)

  datatype Factors = Factors(e: int, f: int, g: int, h: int)

  /** The four sums and differences an addition multiplies pairwise. */
  function AddFactors(a: Point, b: Point): (r: Factors)
    ensures -P < r.e < P && -P < r.f < P && 0 <= r.g < 2 * P && 0 <= r.h < 2 * P
  {
    var x := ((a.y - a.x) * (b.y - b.x)) % P;
    var y := ((a.y + a.x) * (b.y + b.x)) % P;
    var c := (2 * a.t * b.t * D) % P;
    var z := (2 * a.z * b.z) % P;
    Factors(y - x, z - c, z + c, y + x)
  }

  function Add(a: Point, b: Point): Point {
    var k := AddFactors(a, b);
    Point(k.e * k.f, k.g * k.h, k.f * k.g, k.e * k.h)
  }

  /** Congruence modulo the field prime. */
  predicate Eq(a: int, b: int) {
    C.Cong(a, b, P)
  }

  // ---- The constants -------------------------------------------------------

  lemma PrimeDigits()
    ensures P == 57896044618658097711785492504343953926634992332820282019728792003956564819949
  {
    B.Pow2Near256(8, 256);
    assert EXPONENT == 256 - 1;
  }

  /** D is the field quotient -121665/121666. */
  lemma CurveConstant()
    ensures 0 <= D < P && Eq(D * 121666, -121665)
  {
    ConstantDigits();
    C.Intro(D * 121666, -121665, 77955, P);
  }

  lemma ConstantDigits()
    ensures 0 <= D < P && D * 121666 + 121665 == 77955 * P
  {
    PrimeDigits();
    Unsealed(EXPONENT, D_DIGITS);
  }

  lemma BaseOnCurve()
    ensures Extended(Base) && OnCurve(Base)
  {
    var t, k, q := BaseDigits();
    C.Intro(GX * GY, t, k, P);
    C.SameRemainder(GX * GY, t, P);
    C.SmallIsReduced(t, P);
    C.Intro(GY * GY - GX * GX, 1 + D * (t * t), q, P);
  }

  /** The base point's T, and the quotients by P that show its two equations. */
  lemma BaseDigits() returns (t: int, k: int, q: int)
    ensures 0 <= t < P && GX * GY - t == k * P
    ensures GY * GY - GX * GX - (1 + D * (t * t)) == q * P
  {
    PrimeDigits();
    Unsealed(EXPONENT, D_DIGITS);
    Unsealed(EXPONENT, GX_DIGITS);
    Unsealed(EXPONENT, GY_DIGITS);
    t := 46827403850823179245072216630277197565144205554125654976674165829533817101731;
    k := 12089777079628320618000921127670825209163210154433485764836890627159878209761;
    var unit := 100000000000000000000000000000000000000000000000000000000000000000000000000000000;
    var high := 14049954165585917039354023350718714976605732158038860880074726049736771875;
    var low := 9378205875315662149191623813929323558907999434574481479439670300926143553417440;
    q := -(high * unit + low);
  }

  // ---- Invariants of a point ----------------------------------------------

  predicate Extended(a: Point) {
    Eq(a.x * a.y, a.z * a.t)
  }

  predicate OnCurve(a: Point) {
    Eq(a.y * a.y - a.x * a.x, a.z * a.z + D * (a.t * a.t))
  }

  /** What the reductions inside an addition leave: each factor is congruent to
      the polynomial the formulas of RFC 8032 name. */
  lemma FactorsMean(a: Point, b: Point)
    ensures var k := AddFactors(a, b);
            && Eq(k.e, 2 * (a.x * b.y + a.y * b.x))
            && Eq(k.h, 2 * (a.y * b.y + a.x * b.x))
            && Eq(k.f, 2 * (a.z * b.z - D * (a.t * b.t)))
            && Eq(k.g, 2 * (a.z * b.z + D * (a.t * b.t)))
  {
    R.CrossSums(a.x, a.y, b.x, b.y);
    R.Doubled(a.z, b.z, a.t, b.t, D);
    ReducedPair((a.y + a.x) * (b.y + b.x), (a.y - a.x) * (b.y - b.x));
    ReducedPair(2 * a.z * b.z, 2 * a.t * b.t * D);
  }

  /** Reducing both inputs of a sum and a difference keeps their residues. */
  lemma ReducedPair(u: int, v: int)
    ensures Eq(u % P + v % P, u + v) && Eq(u % P - v % P, u - v)
  {
    C.Reduced(u, P);
    C.Reduced(v, P);
    C.Add(u % P, u, v % P, v, P);
    C.Sub(u % P, u, v % P, v, P);
  }

  // ---- The curve is closed under addition ---------------------------------

  /** An addition's result is again an extended point, whatever its inputs. */
  lemma AddExtended(a: Point, b: Point)
    ensures Extended(Add(a, b))
  {
    var k := AddFactors(a, b);
    assert (k.e * k.f) * (k.g * k.h) == (k.f * k.g) * (k.e * k.h);
    C.Refl((k.e * k.f) * (k.g * k.h), P);
  }

  /** Substitutes congruent values for the two inputs of a product. */
  lemma MulEq(a: int, a': int, b: int, b': int)
    requires Eq(a, a') && Eq(b, b')
    ensures Eq(a * b, a' * b')
  {
    C.Mul(a, a', b, b', P);
  }

  lemma AddEq(a: int, a': int, b: int, b': int)
    requires Eq(a, a') && Eq(b, b')
    ensures Eq(a + b, a' + b') && Eq(a - b, a' - b')
  {
    C.Add(a, a', b, b', P);
    C.Sub(a, a', b, b', P);
  }

  /** The product of the two symmetric sums of coordinate squares an addition
      meets, from the equations of its inputs: a, b, s, t are the squares of X, Y,
      Z, T. */
  lemma SquareSumProduct(a1: int, b1: int, s1: int, t1: int, a2: int, b2: int, s2: int, t2: int, d: int)
    requires Eq(a1 * b1, s1 * t1) && Eq(a2 * b2, s2 * t2)
    requires Eq(b1 - a1, s1 + d * t1) && Eq(b2 - a2, s2 + d * t2)
    ensures Eq((a1 * b2 + b1 * a2) * (b1 * b2 + a1 * a2),
               (s1 * t2 + t1 * s2) * (s1 * s2 + d * d * (t1 * t2)) + 4 * (d + 1) * (s1 * t1 * (s2 * t2)))
  {
    var k1, k2 := s1 + d * t1, s2 + d * t2;
    C.SumOfSquares(a1, b1, s1 * t1, k1, P);
    C.SumOfSquares(a2, b2, s2 * t2, k2, P);
    MulEq(a1 * b1, s1 * t1, b2 * b2 + a2 * a2, k2 * k2 + 2 * (s2 * t2));
    MulEq(a2 * b2, s2 * t2, b1 * b1 + a1 * a1, k1 * k1 + 2 * (s1 * t1));
    AddEq(a1 * b1 * (b2 * b2 + a2 * a2), s1 * t1 * (k2 * k2 + 2 * (s2 * t2)),
          a2 * b2 * (b1 * b1 + a1 * a1), s2 * t2 * (k1 * k1 + 2 * (s1 * t1)));
    R.SquareSumProduct(a1, b1, a2, b2);
    R.Quartic(k1, k2, s1, t1, s2, t2, d);
  }

  lemma SquareSumDifference(a1: int, b1: int, s1: int, t1: int, a2: int, b2: int, s2: int, t2: int, d: int)
    requires Eq(b1 - a1, s1 + d * t1) && Eq(b2 - a2, s2 + d * t2)
    ensures Eq((b1 * b2 + a1 * a2) - (a1 * b2 + b1 * a2),
               s1 * s2 + d * d * (t1 * t2) + d * (s1 * t2 + t1 * s2))
  {
    MulEq(b1 - a1, s1 + d * t1, b2 - a2, s2 + d * t2);
    R.SquareSumDifference(a1, b1, a2, b2);
    R.CurveProduct(s1, t1, s2, t2, d);
  }

  /** The curve equation of a sum, from its four factors' squares divided by four. */
  lemma CurveFromSquares(e2: int, f2: int, g2: int, h2: int, lo: int, hi: int, q: int, u: int, w: int, d: int)
    requires Eq(e2, lo + 2 * w) && Eq(h2, hi + 2 * w)
    requires Eq(f2, q - 2 * d * w) && Eq(g2, q + 2 * d * w)
    requires Eq(hi - lo, q + d * u) && Eq(lo * hi, u * q + 4 * (d + 1) * (w * w))
    ensures Eq(g2 * h2 - e2 * f2 - f2 * g2 - d * (e2 * h2), 0)
  {
    var e, f, g, h := lo + 2 * w, q - 2 * d * w, q + 2 * d * w, hi + 2 * w;
    MulEq(g2, g, h2, h);
    MulEq(e2, e, f2, f);
    MulEq(g2, g, f2, f);
    MulEq(e2, e, h2, h);
    C.Scale(d, e2 * h2, e * h, P);
    AddEq(g2 * h2, g * h, e2 * f2, e * f);
    AddEq(g2 * h2 - e2 * f2, g * h - e * f, g2 * f2, g * f);
    AddEq(g2 * h2 - e2 * f2 - g2 * f2, g * h - e * f - g * f, d * (e2 * h2), d * (e * h));
    R.Defect(q, d, w, lo, hi);
    DefectIsZero(lo, hi, q, u, w * w, d);
    C.Trans(g2 * h2 - e2 * f2 - g2 * f2 - d * (e2 * h2), g * h - e * f - g * f - d * (e * h), 0, P);
  }

  lemma DefectIsZero(lo: int, hi: int, q: int, u: int, w2: int, d: int)
    requires Eq(hi - lo, q + d * u) && Eq(lo * hi, u * q + 4 * (d + 1) * w2)
    ensures Eq(q * (hi - lo) + 4 * d * w2 - q * q + 4 * (d * d) * w2 - d * (lo * hi), 0)
  {
    var rest := 4 * d * w2 - q * q + 4 * (d * d) * w2;
    C.Refl(rest, P);
    C.Scale(q, hi - lo, q + d * u, P);
    C.Scale(d, lo * hi, u * q + 4 * (d + 1) * w2, P);
    AddEq(q * (hi - lo), q * (q + d * u), rest, rest);
    AddEq(q * (hi - lo) + rest, q * (q + d * u) + rest, d * (lo * hi), d * (u * q + 4 * (d + 1) * w2));
    R.DefectVanishes(q, d, u, w2);
  }

  /** The curve is closed under addition: no coordinate need be invertible. */
  lemma AddOnCurve(a: Point, b: Point)
    requires Extended(a) && OnCurve(a) && Extended(b) && OnCurve(b)
    ensures OnCurve(Add(a, b))
  {
    var e, h := a.x * b.y + a.y * b.x, a.y * b.y + a.x * b.x;
    var z, c := a.z * b.z, D * (a.t * b.t);
    PolynomialsOnCurve(a, b);
    FactorsMean(a, b);
    DoubledCurve(AddFactors(a, b), e, z - c, z + c, h);
  }

  /** Factors that double four numbers meet the curve equation when the numbers do. */
  lemma DoubledCurve(k: Factors, e: int, f: int, g: int, h: int)
    requires Eq(k.e, 2 * e) && Eq(k.f, 2 * f) && Eq(k.g, 2 * g) && Eq(k.h, 2 * h)
    requires Eq(g * g * (h * h) - e * e * (f * f) - f * f * (g * g) - D * (e * e * (h * h)), 0)
    ensures OnCurve(Point(k.e * k.f, k.g * k.h, k.f * k.g, k.e * k.h))
  {
    SquareEq(k.e, e);
    SquareEq(k.f, f);
    SquareEq(k.g, g);
    SquareEq(k.h, h);
    ScaledCurve(k, e * e, f * f, g * g, h * h);
  }

  lemma SquareEq(k: int, v: int)
    requires Eq(k, 2 * v)
    ensures Eq(k * k, 4 * (v * v))
  {
    MulEq(k, 2 * v, k, 2 * v);
    assert 2 * v * (2 * v) == 4 * (v * v);
  }

  lemma ScaledCurve(k: Factors, e2: int, f2: int, g2: int, h2: int)
    requires Eq(k.e * k.e, 4 * e2) && Eq(k.f * k.f, 4 * f2) && Eq(k.g * k.g, 4 * g2) && Eq(k.h * k.h, 4 * h2)
    requires Eq(g2 * h2 - e2 * f2 - f2 * g2 - D * (e2 * h2), 0)
    ensures OnCurve(Point(k.e * k.f, k.g * k.h, k.f * k.g, k.e * k.h))
  {
    ProductSquare(k.e, k.f, e2, f2);
    ProductSquare(k.g, k.h, g2, h2);
    ProductSquare(k.f, k.g, f2, g2);
    ProductSquare(k.e, k.h, e2, h2);
    var x2, y2 := k.e * k.f * (k.e * k.f), k.g * k.h * (k.g * k.h);
    var z2, t2 := k.f * k.g * (k.f * k.g), k.e * k.h * (k.e * k.h);
    C.Scale(D, t2, 16 * (e2 * h2), P);
    AddEq(y2, 16 * (g2 * h2), x2, 16 * (e2 * f2));
    AddEq(z2, 16 * (f2 * g2), D * t2, D * (16 * (e2 * h2)));
    AddEq(y2 - x2, 16 * (g2 * h2) - 16 * (e2 * f2), z2 + D * t2, 16 * (f2 * g2) + D * (16 * (e2 * h2)));
    var defect := g2 * h2 - e2 * f2 - f2 * g2 - D * (e2 * h2);
    C.Scale(16, defect, 0, P);
    R.SixteenTimes(g2 * h2, e2 * f2, f2 * g2, e2 * h2, D);
    C.Trans(y2 - x2 - (z2 + D * t2), 16 * defect, 0, P);
  }

  lemma ProductSquare(a: int, b: int, a2: int, b2: int)
    requires Eq(a * a, 4 * a2) && Eq(b * b, 4 * b2)
    ensures Eq(a * b * (a * b), 16 * (a2 * b2))
  {
    MulEq(a * a, 4 * a2, b * b, 4 * b2);
    assert a * b * (a * b) == a * a * (b * b);
    assert 4 * a2 * (4 * b2) == 16 * (a2 * b2);
  }

  /** The curve equation for the four polynomials an addition computes. */
  lemma PolynomialsOnCurve(a: Point, b: Point)
    requires Extended(a) && OnCurve(a) && Extended(b) && OnCurve(b)
    ensures var e, h := a.x * b.y + a.y * b.x, a.y * b.y + a.x * b.x;
            var z, c := a.z * b.z, D * (a.t * b.t);
            var e2, h2, f2, g2 := e * e, h * h, (z - c) * (z - c), (z + c) * (z + c);
            Eq(g2 * h2 - e2 * f2 - f2 * g2 - D * (e2 * h2), 0)
  {
    var a1, b1, s1, t1 := a.x * a.x, a.y * a.y, a.z * a.z, a.t * a.t;
    var a2, b2, s2, t2 := b.x * b.x, b.y * b.y, b.z * b.z, b.t * b.t;
    var lo, hi := a1 * b2 + b1 * a2, b1 * b2 + a1 * a2;
    var q, u := s1 * s2 + D * D * (t1 * t2), s1 * t2 + t1 * s2;
    var w := a.z * a.t * (b.z * b.t);
    ExtendedSquares(a);
    ExtendedSquares(b);
    SquareSumDifference(a1, b1, s1, t1, a2, b2, s2, t2, D);
    SquareSumProduct(a1, b1, s1, t1, a2, b2, s2, t2, D);
    assert w * w == s1 * t1 * (s2 * t2) by {
      Regroup(a.z, a.t, b.z, b.t);
    }
    CrossTerms(a, b);
    R.DenominatorSquares(a.z, b.z, a.t, b.t, D);
    C.Refl(q - 2 * D * w, P);
    C.Refl(q + 2 * D * w, P);
    var e, h := a.x * b.y + a.y * b.x, a.y * b.y + a.x * b.x;
    var z, c := a.z * b.z, D * (a.t * b.t);
    CurveFromSquares(e * e, (z - c) * (z - c), (z + c) * (z + c), h * h, lo, hi, q, u, w, D);
  }

  lemma Regroup(z1: int, t1: int, z2: int, t2: int)
    ensures z1 * t1 * (z2 * t2) * (z1 * t1 * (z2 * t2)) == z1 * z1 * (t1 * t1) * (z2 * z2 * (t2 * t2))
  {
    var m, n := z1 * t1, z2 * t2;
    assert m * n * (m * n) == m * m * (n * n);
    assert m * m == z1 * z1 * (t1 * t1);
    assert n * n == z2 * z2 * (t2 * t2);
  }

  lemma ExtendedSquares(a: Point)
    requires Extended(a)
    ensures Eq(a.x * a.x * (a.y * a.y), a.z * a.z * (a.t * a.t))
  {
    MulEq(a.x * a.y, a.z * a.t, a.x * a.y, a.z * a.t);
    assert a.x * a.y * (a.x * a.y) == a.x * a.x * (a.y * a.y);
    assert a.z * a.t * (a.z * a.t) == a.z * a.z * (a.t * a.t);
  }

  lemma CrossTerms(a: Point, b: Point)
    requires Extended(a) && Extended(b)
    ensures var a1, b1, a2, b2 := a.x * a.x, a.y * a.y, b.x * b.x, b.y * b.y;
            var e, h, w := a.x * b.y + a.y * b.x, a.y * b.y + a.x * b.x, a.z * a.t * (b.z * b.t);
            && Eq(e * e, a1 * b2 + b1 * a2 + 2 * w)
            && Eq(h * h, b1 * b2 + a1 * a2 + 2 * w)
  {
    var a1, b1, a2, b2 := a.x * a.x, a.y * a.y, b.x * b.x, b.y * b.y;
    var v, w := a.x * a.y * (b.x * b.y), a.z * a.t * (b.z * b.t);
    MulEq(a.x * a.y, a.z * a.t, b.x * b.y, b.z * b.t);
    C.Scale(2, v, w, P);
    C.Refl(a1 * b2 + b1 * a2, P);
    C.Refl(b1 * b2 + a1 * a2, P);
    AddEq(a1 * b2 + b1 * a2, a1 * b2 + b1 * a2, 2 * v, 2 * w);
    AddEq(b1 * b2 + a1 * a2, b1 * b2 + a1 * a2, 2 * v, 2 * w);
    R.CrossSquares(a.x, a.y, b.x, b.y);
  }

  // ---- What an addition computes ------------------------------------------

  datatype Affine = Affine(x: int, y: int)

  /** The extended point stands for the affine one. */
  predicate Represents(a: Point, v: Affine) {
    Eq(a.x, v.x * a.z) && Eq(a.y, v.y * a.z) && Eq(a.t, v.x * v.y * a.z)
  }

  /** The affine addition law of the curve, with its denominators cleared. */
  predicate IsSum(v: Affine, w: Affine, r: Affine) {
    var k := D * (v.x * v.y * (w.x * w.y));
    && Eq(r.x * (1 + k), v.x * w.y + v.y * w.x)
    && Eq(r.y * (1 - k), v.y * w.y + v.x * w.x)
  }

  /** An addition of representations represents the affine sum. */
  lemma AddRepresentsSum(a: Point, b: Point, v: Affine, w: Affine, r: Affine)
    requires Represents(a, v) && Represents(b, w) && IsSum(v, w, r)
    ensures Represents(Add(a, b), r)
  {
    var k := AddFactors(a, b);
    SumNumerators(a, b, v, w);
    SumDenominators(a, b, v, w);
    FactorsMean(a, b);
    var zz, m := a.z * b.z, D * (v.x * v.y * (w.x * w.y));
    Quotient(k.e, k.g, a.x * b.y + a.y * b.x, zz + D * (a.t * b.t), v.x * w.y + v.y * w.x, 1 + m, zz, r.x);
    Quotient(k.h, k.f, a.y * b.y + a.x * b.x, zz - D * (a.t * b.t), v.y * w.y + v.x * w.x, 1 - m, zz, r.y);
    RatiosRepresent(k, r);
  }

  /** When E/G and H/F are the coordinates, every product is one of Z == F*G. */
  lemma RatiosRepresent(k: Factors, r: Affine)
    requires Eq(k.e, r.x * k.g) && Eq(k.h, r.y * k.f)
    ensures Represents(Point(k.e * k.f, k.g * k.h, k.f * k.g, k.e * k.h), r)
  {
    C.Scale(k.f, k.e, r.x * k.g, P);
    C.Scale(k.g, k.h, r.y * k.f, P);
    MulEq(k.e, r.x * k.g, k.h, r.y * k.f);
    R.Ratios(k.f, k.g, r.x, r.y);
  }

  /** From numerator and denominator polynomials to the ratio of two factors. */
  lemma Quotient(num: int, den: int, n: int, d: int, nu: int, delta: int, zz: int, r: int)
    requires Eq(num, 2 * n) && Eq(den, 2 * d)
    requires Eq(n, nu * zz) && Eq(d, delta * zz) && Eq(r * delta, nu)
    ensures Eq(num, r * den)
  {
    C.Scale(2, n, nu * zz, P);
    C.Trans(num, 2 * n, 2 * (nu * zz), P);
    C.Scale(2, d, delta * zz, P);
    C.Trans(den, 2 * d, 2 * (delta * zz), P);
    C.Scale(r, den, 2 * (delta * zz), P);
    C.Scale(2 * zz, r * delta, nu, P);
    R.Rescaled(r, delta, nu, zz);
    C.Trans(r * den, 2 * zz * (r * delta), 2 * (nu * zz), P);
    C.Sym(r * den, 2 * (nu * zz), P);
    C.Trans(num, 2 * (nu * zz), r * den, P);
  }

  lemma ScaledProduct(a: int, b: int, v: int, w: int, y: int, z: int)
    requires Eq(a, v * y) && Eq(b, w * z)
    ensures Eq(a * b, v * w * (y * z))
  {
    MulEq(a, v * y, b, w * z);
    assert v * y * (w * z) == v * w * (y * z);
  }

  lemma SumNumerators(a: Point, b: Point, v: Affine, w: Affine)
    requires Represents(a, v) && Represents(b, w)
    ensures Eq(a.x * b.y + a.y * b.x, (v.x * w.y + v.y * w.x) * (a.z * b.z))
    ensures Eq(a.y * b.y + a.x * b.x, (v.y * w.y + v.x * w.x) * (a.z * b.z))
  {
    var zz := a.z * b.z;
    ScaledProduct(a.x, b.y, v.x, w.y, a.z, b.z);
    ScaledProduct(a.y, b.x, v.y, w.x, a.z, b.z);
    ScaledProduct(a.y, b.y, v.y, w.y, a.z, b.z);
    ScaledProduct(a.x, b.x, v.x, w.x, a.z, b.z);
    AddEq(a.x * b.y, v.x * w.y * zz, a.y * b.x, v.y * w.x * zz);
    AddEq(a.y * b.y, v.y * w.y * zz, a.x * b.x, v.x * w.x * zz);
    assert v.x * w.y * zz + v.y * w.x * zz == (v.x * w.y + v.y * w.x) * zz;
    assert v.y * w.y * zz + v.x * w.x * zz == (v.y * w.y + v.x * w.x) * zz;
  }

  lemma SumDenominators(a: Point, b: Point, v: Affine, w: Affine)
    requires Represents(a, v) && Represents(b, w)
    ensures var m := D * (v.x * v.y * (w.x * w.y));
            && Eq(a.z * b.z + D * (a.t * b.t), (1 + m) * (a.z * b.z))
            && Eq(a.z * b.z - D * (a.t * b.t), (1 - m) * (a.z * b.z))
  {
    var zz, xy := a.z * b.z, v.x * v.y * (w.x * w.y);
    ScaledProduct(a.t, b.t, v.x * v.y, w.x * w.y, a.z, b.z);
    C.Scale(D, a.t * b.t, xy * zz, P);
    C.Refl(zz, P);
    AddEq(zz, zz, D * (a.t * b.t), D * (xy * zz));
    R.CommonFactor(zz, xy, D);
  }

  /** Addition reads its inputs only modulo P. */
  lemma AddReadsResidues(a: Point, a': Point, b: Point, b': Point)
    requires Eq(a.x, a'.x) && Eq(a.y, a'.y) && Eq(a.z, a'.z) && Eq(a.t, a'.t)
    requires Eq(b.x, b'.x) && Eq(b.y, b'.y) && Eq(b.z, b'.z) && Eq(b.t, b'.t)
    ensures Add(a, b) == Add(a', b')
  {
    SameSums(a, a', b, b');
    SameScaled(a.z, a'.z, b.z, b'.z);
    SameScaled(a.t, a'.t, b.t, b'.t);
    assert AddFactors(a, b) == AddFactors(a', b');
  }

  lemma SameSums(a: Point, a': Point, b: Point, b': Point)
    requires Eq(a.x, a'.x) && Eq(a.y, a'.y) && Eq(b.x, b'.x) && Eq(b.y, b'.y)
    ensures ((a.y - a.x) * (b.y - b.x)) % P == ((a'.y - a'.x) * (b'.y - b'.x)) % P
    ensures ((a.y + a.x) * (b.y + b.x)) % P == ((a'.y + a'.x) * (b'.y + b'.x)) % P
  {
    AddEq(a.y, a'.y, a.x, a'.x);
    AddEq(b.y, b'.y, b.x, b'.x);
    SameProduct(a.y - a.x, a'.y - a'.x, b.y - b.x, b'.y - b'.x);
    SameProduct(a.y + a.x, a'.y + a'.x, b.y + b.x, b'.y + b'.x);
  }

  lemma SameScaled(a: int, a': int, b: int, b': int)
    requires Eq(a, a') && Eq(b, b')
    ensures (2 * a * b) % P == (2 * a' * b') % P
    ensures (2 * a * b * D) % P == (2 * a' * b' * D) % P
  {
    C.Scale(2, a, a', P);
    SameProduct(2 * a, 2 * a', b, b');
    MulEq(2 * a, 2 * a', b, b');
    C.Refl(D, P);
    SameProduct(2 * a * b, 2 * a' * b', D, D);
  }

  lemma SameProduct(a: int, a': int, b: int, b': int)
    requires Eq(a, a') && Eq(b, b')
    ensures (a * b) % P == (a' * b') % P
  {
    MulEq(a, a', b, b');
    C.SameRemainder(a * b, a' * b', P);
  }

  /** A sum's coordinates are unreduced products, but bounded whatever the inputs. */
  predicate Bounded(a: Point) {
    var m := 4 * P * P;
    -m < a.x < m && -m < a.y < m && -m < a.z < m && -m < a.t < m
  }

  lemma AddBounded(a: Point, b: Point)
    ensures Bounded(Add(a, b))
  {
    FactorsBounded(AddFactors(a, b), P);
  }

  lemma FactorsBounded(k: Factors, p: int)
    requires -p < k.e < p && -p < k.f < p && 0 <= k.g < 2 * p && 0 <= k.h < 2 * p
    ensures var m := 4 * p * p;
            -m < k.e * k.f < m && -m < k.g * k.h < m && -m < k.f * k.g < m && -m < k.e * k.h < m
  {
    var n := 2 * p;
    ProductBound(k.e, k.f, n);
    ProductBound(k.g, k.h, n);
    ProductBound(k.f, k.g, n);
    ProductBound(k.e, k.h, n);
    assert n * n == 4 * p * p;
  }

  lemma ProductBound(a: int, b: int, m: int)
    requires -m < a < m && -m < b < m
    ensures -(m * m) < a * b < m * m
  {
    assert (m - a) * (m + b) > 0 && (m + a) * (m - b) > 0;
    assert (m - a) * (m - b) > 0 && (m + a) * (m + b) > 0;
    assert (m - a) * (m + b) + (m + a) * (m - b) == 2 * (m * m) - 2 * (a * b);
    assert (m - a) * (m - b) + (m + a) * (m + b) == 2 * (m * m) + 2 * (a * b);
  }
}
