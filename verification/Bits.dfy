/** Bitwise and, bitwise or and little-endian bytes of natural numbers. */
module Bits {

  function Pow2(n: nat): (r: nat)
    ensures r >= 1
  {
    if n == 0 then 1 else 2 * Pow2(n - 1)
  }

  lemma {:induction false} Pow2Sum(m: nat, n: nat)
    ensures Pow2(m + n) == Pow2(m) * Pow2(n)
  {
    if m > 0 {
      Pow2Sum(m - 1, n);
      assert Pow2(m + n) == 2 * Pow2(m - 1 + n);
    }
  }

  lemma {:induction false} Pow2Double(m: nat, n: nat, v: nat)
    requires Pow2(m) == v && n == m + m
    ensures Pow2(n) == v * v
  {
    Pow2Sum(m, m);
  }

  lemma {:induction false} Pow2Grows(n: nat)
    requires n >= 5
    ensures Pow2(n) >= 32
  {
    if n == 5 {
      assert Pow2(5) == 32;
    } else {
      Pow2Grows(n - 1);
    }
  }

  /** The powers of two the curve's constants are written in, reached by squaring. The
      exponents are parameters, so that the recursion is not unrolled 256 times. */
  lemma Pow2Near256(eight: nat, n: nat)
    requires eight == 8 && n == 256
    ensures Pow2(n - 1) == 0x8000000000000000000000000000000000000000000000000000000000000000
    ensures Pow2(n - 2) == 0x4000000000000000000000000000000000000000000000000000000000000000
    ensures Pow2(n) == 0x10000000000000000000000000000000000000000000000000000000000000000
  {
    assert Pow2(eight) == 0x100;
    Pow2Double(eight, 2 * eight, 0x100);
    Pow2Double(2 * eight, 4 * eight, 0x10000);
    Pow2Double(4 * eight, 8 * eight, 0x100000000);
    Pow2Double(8 * eight, 16 * eight, 0x10000000000000000);
    Pow2Double(16 * eight, n, 0x100000000000000000000000000000000);
  }

  function And(a: nat, b: nat): nat {
    if a == 0 || b == 0 then 0 else 2 * And(a / 2, b / 2) + (if a % 2 == 1 && b % 2 == 1 then 1 else 0)
  }

  function Or(a: nat, b: nat): nat
    decreases a + b
  {
    if a == 0 then b else if b == 0 then a else
    2 * Or(a / 2, b / 2) + (if a % 2 == 1 || b % 2 == 1 then 1 else 0)
  }

  /** Bit k of n. */
  predicate Bit(n: nat, k: nat) {
    if k == 0 then n % 2 == 1 else Bit(n / 2, k - 1)
  }

  lemma {:induction false} AndBits(a: nat, b: nat, k: nat)
    ensures Bit(And(a, b), k) <==> Bit(a, k) && Bit(b, k)
  {
    if a == 0 || b == 0 {
      ZeroBits(k);
    } else if k > 0 {
      AndBits(a / 2, b / 2, k - 1);
      assert And(a, b) / 2 == And(a / 2, b / 2);
    }
  }

  lemma {:induction false} OrBits(a: nat, b: nat, k: nat)
    ensures Bit(Or(a, b), k) <==> Bit(a, k) || Bit(b, k)
    decreases k
  {
    if a == 0 || b == 0 {
      ZeroBits(k);
    } else {
      var half, bit := Or(a / 2, b / 2), if a % 2 == 1 || b % 2 == 1 then 1 else 0;
      assert Or(a, b) == 2 * half + bit;
      assert (2 * half + bit) / 2 == half && (2 * half + bit) % 2 == bit;
      if k > 0 {
        OrBits(a / 2, b / 2, k - 1);
      }
    }
  }

  lemma {:induction false} ZeroBits(k: nat)
    ensures !Bit(0, k)
  {
    if k > 0 {
      ZeroBits(k - 1);
    }
  }

  /** Masking with 2^k - 2^j keeps bits j up to k. */
  lemma {:induction false} AndMask(n: nat, k: nat, j: nat)
    requires j <= k
    ensures Pow2(j) <= Pow2(k)
    ensures And(n, Pow2(k) - Pow2(j)) == n % Pow2(k) - n % Pow2(j)
    decreases k
  {
    if j < k {
      var i := if j == 0 then 0 else j - 1;
      AndMask(n / 2, k - 1, i);
      HalfMod(n, k);
      if j > 0 {
        HalfMod(n, j);
        AndStep(n, Pow2(k) - Pow2(j), Pow2(k - 1) - Pow2(i), 0);
      } else {
        AndStep(n, Pow2(k) - Pow2(j), Pow2(k - 1) - Pow2(i), 1);
      }
    }
  }

  lemma {:induction false} AndStep(a: nat, b: nat, half: nat, bit: nat)
    requires b == 2 * half + bit && bit <= 1
    ensures And(a, b) == 2 * And(a / 2, half) + (if bit == 1 then a % 2 else 0)
  {
    assert b / 2 == half && b % 2 == bit;
  }

  /** Reduction modulo a multiple of m keeps the remainder modulo m. */
  lemma ModMod(n: nat, m: nat, q: nat)
    requires m > 0 && q > 0
    ensures (n % (m * q)) % m == n % m
  {
    var big, r := n / (m * q), n % (m * q);
    assert n == m * (q * big) + r;
    assert n == (q * big + r / m) * m + r % m;
    ModUnique(n, q * big + r / m, r % m, m);
  }

  /** Keeping bits j up to k and setting bit k: a multiple of 2^j in [2^k, 2^(k+1)). */
  lemma MaskAndSet(n: nat, k: nat, j: nat)
    requires j <= k
    ensures Pow2(j) <= Pow2(k)
    ensures var r := Or(And(n, Pow2(k) - Pow2(j)), Pow2(k));
            && r == Pow2(k) + n % Pow2(k) - n % Pow2(j)
            && Pow2(k) <= r < 2 * Pow2(k) && r % Pow2(j) == 0
  {
    AndMask(n, k, j);
    Pow2Sum(j, k - j);
    RoundedDown(n, Pow2(j), Pow2(k - j), Pow2(k));
    OrTop(n % Pow2(k) - n % Pow2(j), k);
  }

  /** A remainder modulo m*c rounded down to a multiple of m, then shifted by m*c. */
  lemma RoundedDown(n: nat, m: nat, c: nat, big: nat)
    requires m > 0 && c > 0 && big == m * c
    ensures 0 <= n % big - n % m < big
    ensures (big + (n % big - n % m)) % m == 0
  {
    ModMod(n, m, c);
    var r := n % big;
    DivisibleSum(c, r / m, m);
    assert big == c * m && r - r % m == (r / m) * m;
  }

  lemma DivisibleSum(a: nat, b: nat, m: nat)
    requires m > 0
    ensures (a * m + b * m) % m == 0
  {
    assert a * m + b * m == (a + b) * m;
    ModUnique((a + b) * m, a + b, 0, m);
  }

  /** Halving commutes with reduction modulo a power of two. */
  lemma HalfMod(n: nat, k: nat)
    requires k > 0
    ensures n % Pow2(k) == 2 * ((n / 2) % Pow2(k - 1)) + n % 2
  {
    var m := Pow2(k - 1);
    var q, r := (n / 2) / m, (n / 2) % m;
    assert n == 2 * (q * m + r) + n % 2;
    assert n == q * Pow2(k) + (2 * r + n % 2);
    ModUnique(n, q, 2 * r + n % 2, Pow2(k));
  }

  lemma ModUnique(n: nat, q: int, r: nat, m: nat)
    requires m > 0 && n == q * m + r && r < m
    ensures n % m == r && n / m == q
  {
    var d := n / m - q;
    assert d * m == r - n % m;
    MultipleGap(d, m);
  }

  lemma MultipleGap(d: int, m: nat)
    ensures d >= 1 ==> d * m >= m
    ensures d <= -1 ==> d * m <= -(m as int)
  {
  }

  /** Setting bit k of a number below 2^k adds 2^k. */
  lemma {:induction false} OrTop(n: nat, k: nat)
    requires n < Pow2(k)
    ensures Or(n, Pow2(k)) == n + Pow2(k)
    decreases k
  {
    if k > 0 && n > 0 {
      OrTop(n / 2, k - 1);
    }
  }

  // ---- Bytes ---------------------------------------------------------------

  type Byte = b: int | 0 <= b < 256

  function FromBytes(b: seq<Byte>): nat {
    if b == [] then 0 else b[0] + 256 * FromBytes(b[1..])
  }

  /** The k low-order bytes of n, least significant first. */
  function ToBytes(n: nat, k: nat): (b: seq<Byte>)
    ensures |b| == k
  {
    if k == 0 then [] else [n % 256] + ToBytes(n / 256, k - 1)
  }

  /** The first byte is the lowest: byte i of a number counts its multiples of 256^i. */
  lemma {:induction false} BytesAscend(n: nat, k: nat, i: nat)
    requires i < k
    ensures ToBytes(n, k)[i] == n / Pow2(8 * i) % 256
  {
    if i > 0 {
      BytesAscend(n / 256, k - 1, i - 1);
      DivideByPowers(n, i);
    }
  }

  lemma {:induction false} DivideByPowers(n: nat, i: nat)
    requires i > 0
    ensures n / 256 / Pow2(8 * (i - 1)) == n / Pow2(8 * i)
  {
    Pow2Sum(8, 8 * (i - 1));
    assert Pow2(8) == 256;
    DivideTwice(n, 256, Pow2(8 * (i - 1)));
  }

  lemma DivideTwice(n: nat, a: nat, b: nat)
    requires a > 0 && b > 0
    ensures a * b > 0 && n / a / b == n / (a * b)
  {
    var h, s := n / a, n % a;
    var q, t := h / b, h % b;
    RemaindersCombine(a, b, q, t, s);
    QuotientIs(n, a * b, q, a * t + s);
  }

  lemma RemaindersCombine(a: int, b: int, q: int, t: int, s: int)
    requires a > 0 && b > 0 && 0 <= t < b && 0 <= s < a
    ensures a * (b * q + t) + s == a * b * q + (a * t + s) && 0 <= a * t + s < a * b
  {
    assert a * t <= a * (b - 1);
  }

  lemma QuotientIs(n: int, m: int, q: int, r: int)
    requires m > 0 && n == m * q + r && 0 <= r < m
    ensures n / m == q
  {
    var d := n / m - q;
    assert m * d == r - n % m;
    assert d >= 1 ==> m * d >= m;
    assert d <= -1 ==> m * d <= -m;
  }

  /** Writing a number that fits and reading it back. */
  lemma {:induction false} BytesRoundTrip(n: nat, k: nat)
    requires n < Pow2(8 * k)
    ensures FromBytes(ToBytes(n, k)) == n
  {
    if k > 0 {
      Pow2Sum(8, 8 * (k - 1));
      assert Pow2(8) == 256;
      assert n / 256 < Pow2(8 * (k - 1));
      BytesRoundTrip(n / 256, k - 1);
    }
  }
}
