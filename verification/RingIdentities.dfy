/** The polynomial identities behind Edwards addition, each small enough to be
    expanded in one step. Capital letters stand for squares of coordinates. */
module RingIdentities {

  lemma CrossSums(x1: int, y1: int, x2: int, y2: int)
    ensures (y1 + x1) * (y2 + x2) + (y1 - x1) * (y2 - x2) == 2 * (y1 * y2 + x1 * x2)
    ensures (y1 + x1) * (y2 + x2) - (y1 - x1) * (y2 - x2) == 2 * (x1 * y2 + y1 * x2)
  {
  }

  lemma Doubled(z1: int, z2: int, t1: int, t2: int, d: int)
    ensures 2 * z1 * z2 + 2 * t1 * t2 * d == 2 * (z1 * z2 + d * (t1 * t2))
    ensures 2 * z1 * z2 - 2 * t1 * t2 * d == 2 * (z1 * z2 - d * (t1 * t2))
  {
  }

  lemma Ratios(f: int, g: int, x: int, y: int)
    ensures f * (x * g) == x * (f * g) && g * (y * f) == y * (f * g)
    ensures x * g * (y * f) == x * y * (f * g)
  {
    assert x * g * (y * f) == x * y * (f * g) by {
      assert x * g * (y * f) == x * (g * (y * f));
      assert x * (y * (f * g)) == x * y * (f * g);
    }
  }

  lemma Rescaled(r: int, delta: int, nu: int, zz: int)
    ensures r * (2 * (delta * zz)) == 2 * zz * (r * delta) && 2 * zz * nu == 2 * (nu * zz)
  {
  }

  lemma CommonFactor(zz: int, xy: int, d: int)
    ensures zz + d * (xy * zz) == (1 + d * xy) * zz && zz - d * (xy * zz) == (1 - d * xy) * zz
  {
  }

  lemma SquareOfSum(s: int, t: int, d: int)
    ensures (s + d * t) * (s + d * t) == s * s + 2 * d * (s * t) + d * d * (t * t)
  {
  }

  lemma CrossSquares(x1: int, y1: int, x2: int, y2: int)
    ensures (x1 * y2 + y1 * x2) * (x1 * y2 + y1 * x2)
         == (x1 * x1) * (y2 * y2) + (y1 * y1) * (x2 * x2) + 2 * ((x1 * y1) * (x2 * y2))
    ensures (y1 * y2 + x1 * x2) * (y1 * y2 + x1 * x2)
         == (y1 * y1) * (y2 * y2) + (x1 * x1) * (x2 * x2) + 2 * ((x1 * y1) * (x2 * y2))
  {
    BinomialSquare(x1, y2, y1, x2);
    BinomialSquare(y1, y2, x1, x2);
  }

  lemma BinomialSquare(a: int, b: int, c: int, d: int)
    ensures (a * b + c * d) * (a * b + c * d) == (a * a) * (b * b) + (c * c) * (d * d) + 2 * ((a * c) * (d * b))
  {
    var m, n := a * b, c * d;
    assert m * m == (a * a) * (b * b);
    assert n * n == (c * c) * (d * d);
    assert m * n == (a * c) * (d * b);
    assert (m + n) * (m + n) == m * m + n * n + 2 * (m * n);
  }

  lemma SquareSumDifference(a1: int, b1: int, a2: int, b2: int)
    ensures (b1 * b2 + a1 * a2) - (a1 * b2 + b1 * a2) == (b1 - a1) * (b2 - a2)
  {
  }

  lemma SquareSumProduct(a1: int, b1: int, a2: int, b2: int)
    ensures (a1 * b2 + b1 * a2) * (b1 * b2 + a1 * a2)
         == a1 * b1 * (b2 * b2 + a2 * a2) + a2 * b2 * (b1 * b1 + a1 * a1)
  {
  }

  lemma CurveProduct(s1: int, t1: int, s2: int, t2: int, d: int)
    ensures (s1 + d * t1) * (s2 + d * t2) == s1 * s2 + d * d * (t1 * t2) + d * (s1 * t2 + t1 * s2)
  {
  }

  lemma Quartic(k1: int, k2: int, s1: int, t1: int, s2: int, t2: int, d: int)
    requires k1 == s1 + d * t1 && k2 == s2 + d * t2
    ensures s1 * t1 * (k2 * k2 + 2 * (s2 * t2)) + s2 * t2 * (k1 * k1 + 2 * (s1 * t1))
         == (s1 * t2 + t1 * s2) * (s1 * s2 + d * d * (t1 * t2)) + 4 * (d + 1) * (s1 * t1 * (s2 * t2))
  {
    SquareOfSum(s1, t1, d);
    SquareOfSum(s2, t2, d);
    QuarticCollect(s1 * t1, s2 * t2, s1 * s1, t1 * t1, s2 * s2, t2 * t2, d);
    QuarticExpand(s1, t1, s2, t2, d * d);
  }

  lemma QuarticCollect(S: int, R: int, m1: int, n1: int, m2: int, n2: int, d: int)
    ensures S * (m2 + 2 * d * R + d * d * n2 + 2 * R) + R * (m1 + 2 * d * S + d * d * n1 + 2 * S)
         == (S * m2 + R * m1) + d * d * (S * n2 + R * n1) + 4 * (d + 1) * (S * R)
  {
  }

  lemma QuarticExpand(s1: int, t1: int, s2: int, t2: int, e: int)
    ensures (s1 * t2 + t1 * s2) * (s1 * s2 + e * (t1 * t2))
         == ((s1 * t1) * (s2 * s2) + (s2 * t2) * (s1 * s1))
            + e * ((s1 * t1) * (t2 * t2) + (s2 * t2) * (t1 * t1))
  {
  }

  lemma DenominatorSquares(z1: int, z2: int, t1: int, t2: int, d: int)
    ensures var z, c := z1 * z2, d * (t1 * t2);
            var q, w := z1 * z1 * (z2 * z2) + d * d * (t1 * t1 * (t2 * t2)), z1 * t1 * (z2 * t2);
            (z - c) * (z - c) == q - 2 * d * w && (z + c) * (z + c) == q + 2 * d * w
  {
    ConjugateSquares(z1 * z2, t1 * t2, d);
    ProductOfProducts(z1, z2, z1, z2);
    ProductOfProducts(t1, t2, t1, t2);
    ProductOfProducts(z1, z2, t1, t2);
  }

  lemma ConjugateSquares(z: int, t: int, d: int)
    ensures (z - d * t) * (z - d * t) == z * z + d * d * (t * t) - 2 * d * (z * t)
    ensures (z + d * t) * (z + d * t) == z * z + d * d * (t * t) + 2 * d * (z * t)
  {
    SquareOfSum(z, t, d);
    SquareOfSum(z, t, -d);
  }

  lemma ProductOfProducts(a: int, b: int, c: int, d: int)
    ensures a * b * (c * d) == a * c * (b * d)
  {
  }

  lemma SixteenTimes(gh: int, ef: int, fg: int, eh: int, d: int)
    ensures 16 * gh - 16 * ef - (16 * fg + d * (16 * eh)) == 16 * (gh - ef - fg - d * eh)
  {
  }

  /** The defect of the curve equation after an addition, in the two square sums. */
  lemma Defect(q: int, d: int, w: int, lo: int, hi: int)
    ensures (q + 2 * d * w) * (hi + 2 * w) - (lo + 2 * w) * (q - 2 * d * w)
            - (q + 2 * d * w) * (q - 2 * d * w) - d * ((lo + 2 * w) * (hi + 2 * w))
         == q * (hi - lo) + 4 * d * (w * w) - q * q + 4 * (d * d) * (w * w) - d * (lo * hi)
  {
  }

  /** The defect vanishes where the square sums take the curve's values. */
  lemma DefectVanishes(q: int, d: int, u: int, w2: int)
    ensures q * (q + d * u) + 4 * d * w2 - q * q + 4 * (d * d) * w2 - d * (u * q + 4 * (d + 1) * w2) == 0
  {
  }
}
