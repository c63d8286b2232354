/** Integer congruence modulo a positive modulus, and the ring laws it obeys. */
module Congruence {

  predicate Cong(a: int, b: int, m: int)
    requires m > 0
  {
    (a - b) % m == 0
  }

  lemma NoMultipleBetween(d: int, m: int)
    requires m > 0
    ensures d >= 1 ==> d * m >= m
    ensures d <= -1 ==> d * m <= -m
  {
  }

  /** Exact division: a product with the modulus leaves no remainder. */
  lemma MultipleIsZero(k: int, m: int)
    requires m > 0
    ensures (k * m) % m == 0
  {
    var q := (k * m) / m;
    assert (k - q) * m == (k * m) % m;
    NoMultipleBetween(k - q, m);
  }

  lemma Intro(a: int, b: int, k: int, m: int)
    requires m > 0 && a - b == k * m
    ensures Cong(a, b, m)
  {
    MultipleIsZero(k, m);
  }

  lemma Refl(a: int, m: int)
    requires m > 0
    ensures Cong(a, a, m)
  {
  }

  lemma Sym(a: int, b: int, m: int)
    requires m > 0 && Cong(a, b, m)
    ensures Cong(b, a, m)
  {
    var k := (a - b) / m;
    Intro(b, a, -k, m);
  }

  lemma Trans(a: int, b: int, c: int, m: int)
    requires m > 0 && Cong(a, b, m) && Cong(b, c, m)
    ensures Cong(a, c, m)
  {
    var k, l := (a - b) / m, (b - c) / m;
    Intro(a, c, k + l, m);
  }

  lemma Add(a: int, b: int, c: int, d: int, m: int)
    requires m > 0 && Cong(a, b, m) && Cong(c, d, m)
    ensures Cong(a + c, b + d, m)
  {
    var k, l := (a - b) / m, (c - d) / m;
    Intro(a + c, b + d, k + l, m);
  }

  lemma Sub(a: int, b: int, c: int, d: int, m: int)
    requires m > 0 && Cong(a, b, m) && Cong(c, d, m)
    ensures Cong(a - c, b - d, m)
  {
    var k, l := (a - b) / m, (c - d) / m;
    Intro(a - c, b - d, k - l, m);
  }

  lemma Mul(a: int, b: int, c: int, d: int, m: int)
    requires m > 0 && Cong(a, b, m) && Cong(c, d, m)
    ensures Cong(a * c, b * d, m)
  {
    var k, l := (a - b) / m, (c - d) / m;
    calc {
      a * c - b * d;
      (a - b) * c + b * (c - d);
      k * m * c + b * (l * m);
      (k * c + b * l) * m;
    }
    Intro(a * c, b * d, k * c + b * l, m);
  }

  lemma Scale(f: int, a: int, b: int, m: int)
    requires m > 0 && Cong(a, b, m)
    ensures Cong(f * a, f * b, m)
  {
    Refl(f, m);
    Mul(f, f, a, b, m);
  }

  /** Two numbers' squares, from their product and their difference. */
  lemma SumOfSquares(a: int, b: int, product: int, difference: int, m: int)
    requires m > 0 && Cong(a * b, product, m) && Cong(b - a, difference, m)
    ensures Cong(b * b + a * a, difference * difference + 2 * product, m)
  {
    Mul(b - a, difference, b - a, difference, m);
    Scale(2, a * b, product, m);
    Add((b - a) * (b - a), difference * difference, 2 * (a * b), 2 * product, m);
    assert (b - a) * (b - a) + 2 * (a * b) == b * b + a * a;
  }

  /** Reduction stays in the residue class. */
  lemma Reduced(a: int, m: int)
    requires m > 0
    ensures Cong(a % m, a, m)
  {
    Intro(a % m, a, -(a / m), m);
  }

  lemma SmallIsReduced(a: int, m: int)
    requires 0 <= a < m
    ensures a % m == a
  {
    var q := a / m;
    assert q * m == a - a % m;
    NoMultipleBetween(q, m);
  }

  /** Below twice the modulus, the multiples are zero and it. */
  lemma BelowTwice(n: int, m: int)
    requires 0 <= n < 2 * m && Cong(n, 0, m)
    ensures n == 0 || n == m
  {
    var q := n / m;
    assert n == q * m;
    NoMultipleBetween(q, m);
    NoMultipleBetween(q - 1, m);
  }

  /** Congruent numbers have one remainder. */
  lemma SameRemainder(a: int, b: int, m: int)
    requires m > 0 && Cong(a, b, m)
    ensures a % m == b % m
  {
    var k := (a - b) / m;
    var d := a / m - b / m - k;
    assert d * m == b % m - a % m;
    NoMultipleBetween(d, m);
  }
}
