/** Reading points back from their encodings: on the curve, 32 bytes stand for one
    point, so the points a signature is checked over are the only ones it can mean. */
module Decoding {
  import B = Bits
  import C = Congruence
  import opened AbelianGroup
  import opened Edwards
  import opened Ed25519

  /** The product vanishes modulo P. */
  predicate Annihilates(a: int, b: int) {
    Eq(a * b, 0)
  }

  /** What the primality of P gives. */
  ghost predicate NoZeroDivisors() {
    forall a, b :: Annihilates(a, b) ==> Eq(a, 0) || Eq(b, 0)
  }

  /** The affine curve equation. */
  predicate IsCurvePoint(v: Affine) {
    Eq(v.y * v.y - v.x * v.x, 1 + D * (v.x * v.x * (v.y * v.y)))
  }

  // ---- From encodings to squares -------------------------------------------

  /** One encoding means one y modulo P, and one parity of x. */
  lemma EncodingShows(v: Affine, w: Affine)
    requires Encode(v) == Encode(w)
    ensures v.y % P == w.y % P && v.x % P % 2 == w.x % P % 2
  {
    EncodeReadsBack(v);
    EncodeReadsBack(w);
  }

  lemma EqualRemainders(a: int, b: int)
    requires a % P == b % P
    ensures Eq(a, b)
  {
    C.Reduced(a, P);
    C.Reduced(b, P);
    C.Sym(a % P, a, P);
    C.Trans(a, a % P, b, P);
  }

  /** On the curve, y fixes the square of x, up to the factor 1 + D*y*y. */
  lemma SquaresAgree(s: int, s': int, u: int, u': int)
    requires Eq(u - s, 1 + D * (s * u)) && Eq(u' - s', 1 + D * (s' * u')) && Eq(u, u')
    ensures Annihilates(s - s', 1 + D * u)
  {
    C.Refl(s', P);
    MulEq(s', s', u, u');
    C.Scale(D, s' * u, s' * u', P);
    AddEq(u, u', D * (s' * u), D * (s' * u'));
    AddEq(u - D * (s' * u), u' - D * (s' * u'), s', s');
    AddEq(u' - s', 1 + D * (s' * u'), D * (s' * u'), D * (s' * u')) by {
      C.Refl(D * (s' * u'), P);
    }
    CurveDifference(s, s', u, u');
  }

  lemma CurveDifference(s: int, s': int, u: int, u': int)
    requires Eq(u - s, 1 + D * (s * u))
    requires Eq(u - D * (s' * u) - s', u' - D * (s' * u') - s')
    requires Eq(u' - s' - D * (s' * u'), 1 + D * (s' * u') - D * (s' * u'))
    ensures Annihilates(s - s', 1 + D * u)
  {
    assert u' - D * (s' * u') - s' == u' - s' - D * (s' * u');
    C.Trans(u - D * (s' * u) - s', u' - s' - D * (s' * u'), 1, P);
    C.Refl(D * (s * u), P);
    AddEq(u - s, 1 + D * (s * u), D * (s * u), D * (s * u));
    C.Sub(u - D * (s' * u) - s', 1, u - s - D * (s * u), 1, P);
    Factored(s, s', u, D);
  }

  lemma Factored(s: int, s': int, u: int, d: int)
    ensures (u - d * (s' * u) - s') - (u - s - d * (s * u)) == (s - s') * (1 + d * u)
  {
  }

  // ---- The other factor does not vanish ------------------------------------

  lemma MinusOneIsNotD()
    ensures !Eq(1 + D, 0)
  {
    ConstantDigits();
    if Eq(1 + D, 0) {
      C.SmallIsReduced(1 + D, P);
      assert false;
    }
  }

  lemma FactorIsNotZero(s: int, u: int)
    requires Eq(u - s, 1 + D * (s * u))
    ensures !Eq(1 + D * u, 0)
  {
    if Eq(1 + D * u, 0) {
      VanishingFactor(s, u);
      MinusOneIsNotD();
      assert false;
    }
  }

  /** Were 1 + D*u zero, u would be 1, and so 1 + D zero. */
  lemma VanishingFactor(s: int, u: int)
    requires Eq(u - s, 1 + D * (s * u)) && Eq(1 + D * u, 0)
    ensures Eq(1 + D, 0)
  {
    C.Scale(s, 1 + D * u, 0, P);
    assert s * (1 + D * u) == s + D * (s * u);
    C.Refl(s, P);
    AddEq(u - s, 1 + D * (s * u), s, s);
    C.Refl(1, P);
    AddEq(1, 1, s + D * (s * u), 0);
    assert 1 + D * (s * u) + s == 1 + (s + D * (s * u));
    C.Trans(u, 1 + (s + D * (s * u)), 1, P);
    C.Scale(D, u, 1, P);
    AddEq(1, 1, D * u, D * 1);
    C.Sym(1 + D * u, 1 + D, P);
    C.Trans(1 + D, 1 + D * u, 0, P);
  }

  // ---- From squares to points ----------------------------------------------

  lemma PrimeIsOdd()
    ensures P % 2 == 1
  {
    OddBelowPower(EXPONENT);
  }

  lemma OddBelowPower(e: nat)
    requires e >= 5
    ensures PrimeOf(e) % 2 == 1
  {
    assert B.Pow2(e) == 2 * B.Pow2(e - 1);
  }

  /** Opposite residues of one parity are both zero. */
  lemma OppositesOfOneParity(a: int, b: int)
    requires 0 <= a < P && 0 <= b < P && a % 2 == b % 2 && Eq(a + b, 0)
    ensures a == b
  {
    PrimeIsOdd();
    C.BelowTwice(a + b, P);
    ParityOfSum(a, b, P);
  }

  lemma ParityOfSum(a: int, b: int, p: int)
    requires p % 2 == 1 && a % 2 == b % 2
    ensures a + b != p
  {
  }

  lemma RootsAgree(x: int, x': int)
    requires NoZeroDivisors() && Eq(x * x - x' * x', 0) && x % P % 2 == x' % P % 2
    ensures x % P == x' % P
  {
    assert (x - x') * (x + x') == x * x - x' * x';
    assert Annihilates(x - x', x + x');
    if Eq(x - x', 0) {
      C.SameRemainder(x, x', P);
    } else {
      SumOfResidues(x, x');
      OppositesOfOneParity(x % P, x' % P);
    }
  }

  lemma SumOfResidues(x: int, x': int)
    requires Eq(x + x', 0)
    ensures Eq(x % P + x' % P, 0)
  {
    ReducedPair(x, x');
    C.Trans(x % P + x' % P, x + x', 0, P);
  }

  /** On the curve an encoding stands for one point modulo P. */
  lemma EncodeIsInjective(v: Affine, w: Affine)
    requires NoZeroDivisors() && IsCurvePoint(v) && IsCurvePoint(w) && Encode(v) == Encode(w)
    ensures v.x % P == w.x % P && v.y % P == w.y % P
  {
    EncodingShows(v, w);
    EqualRemainders(v.y, w.y);
    var s, s', u, u' := v.x * v.x, w.x * w.x, v.y * v.y, w.y * w.y;
    MulEq(v.y, w.y, v.y, w.y);
    SquaresAgree(s, s', u, u');
    FactorIsNotZero(s, u);
    assert Eq(s - s', 0);
    RootsAgree(v.x, w.x);
  }

  // ---- Every reading of a signature verifies -------------------------------

  /** The group's elements are reduced points of the curve. */
  ghost predicate HoldsCurvePoints(g: Group<Affine>) {
    forall v :: g.on(v) ==> 0 <= v.x < P && 0 <= v.y < P && IsCurvePoint(v)
  }

  lemma OneReading(g: Group<Affine>, v: Affine, w: Affine)
    requires NoZeroDivisors() && HoldsCurvePoints(g) && g.on(v) && g.on(w) && Encode(v) == Encode(w)
    ensures v == w
  {
    EncodeIsInjective(v, w);
    C.SmallIsReduced(v.x, P);
    C.SmallIsReduced(w.x, P);
    C.SmallIsReduced(v.y, P);
    C.SmallIsReduced(w.y, P);
  }

  /** Whatever points of the group the bytes of a signature and its key are read as, the
      check holds over them: and they are read in one way only. */
  lemma {:induction false} EveryReadingVerifies(
    g: Group<Affine>, hash: Bytes -> Bytes, seed: Bytes, message: Bytes, r: Affine, a: Affine)
    requires IsCurveGroup(g) && g.on(Affine(GX, GY)) && Times(g, Q, Affine(GX, GY)) == g.zero
    requires MultiplesInvert() && NoZeroDivisors() && HoldsCurvePoints(g) && |hash(seed)| == 64
    requires g.on(r) && Encode(r) == Sign(hash, seed, message)[..32]
    requires g.on(a) && Encode(a) == PublicKey(hash, seed)
    ensures var sig, public := Sign(hash, seed, message), PublicKey(hash, seed);
            Times(g, B.FromBytes(sig[32..]), Affine(GX, GY)) ==
              g.op(r, Times(g, HashQ(hash, sig[..32] + public + message), a))
  {
    var sig, public := Sign(hash, seed, message), PublicKey(hash, seed);
    SignatureDecodes(g, hash, seed, message);
    var r', a' :| g.on(r') && g.on(a') && Encode(r') == sig[..32] && Encode(a') == public
      && Times(g, B.FromBytes(sig[32..]), Affine(GX, GY))
      == g.op(r', Times(g, HashQ(hash, sig[..32] + public + message), a'));
    OneReading(g, r, r');
    OneReading(g, a, a');
  }
}
