/** Ed25519 key expansion and signing over the integers (section 5.1 of RFC 8032),
    and the group equation a signature satisfies. The hash is any function to 64
    bytes; the group laws of the curve are hypotheses. */
module Ed25519 {
  import opened Bits
  import opened Edwards
  import opened AbelianGroup
  import C = Congruence

  const Q: nat := 0x1000000000000000000000000000000014def9dea2f79cd65812631a5cf5d3ed

  /** The order of the base point is 2^252 and a tail. */
  lemma OrderDigits()
    ensures Q == Pow2(252) + 27742317777372353535851937790883648493
  {
    Pow2Near256(8, 256);
    FourBelow(252);
  }

  lemma FourBelow(k: nat)
    ensures Pow2(k + 2) == 4 * Pow2(k)
  {
  }

  const TWO_254: nat := 0x4000000000000000000000000000000000000000000000000000000000000000
  const TWO_255: nat := 0x8000000000000000000000000000000000000000000000000000000000000000

  /** Bytes in an encoded point, and in an encoded scalar. */
  const WIDTH: nat := 32

  type Bytes = seq<Byte>

  // ---- Scalar multiplication ----------------------------------------------

  /** The double-and-add loop from any state: accumulator, remaining scalar, doubled point. */
  function MulFrom(out: Point, s: nat, point: Point): Point
    decreases s
  {
    if s == 0 then out
    else MulFrom(if s % 2 == 1 then Add(out, point) else out, s / 2, Add(point, point))
  }

  function MulOf(s: nat, point: Point): Point {
    MulFrom(Neutral, s, point)
  }

  method Mul(scalar: nat, base: Point) returns (out: Point)
    ensures out == MulOf(scalar, base)
  {
    var s, point := scalar, base;
    out := Neutral;
    while s != 0
      invariant MulFrom(out, s, point) == MulOf(scalar, base)
      decreases s
    {
      if s % 2 == 1 {
        out := Add(out, point);
      }
      point := Add(point, point);
      s := s / 2;
    }
  }

  /** A representation of group elements by points that Add respects. */
  ghost predicate Faithful<T(!new)>(g: Group<T>, rep: (Point, T) -> bool) {
    && rep(Neutral, g.zero)
    && forall a, b, x, y {:trigger rep(Add(a, b), g.op(x, y))} ::
         rep(a, x) && rep(b, y) && g.on(x) && g.on(y) ==> rep(Add(a, b), g.op(x, y))
  }

  /** Double-and-add is repeated addition, in every group the points represent. */
  lemma {:induction false} MulFromIsTimes<T(!new)>(
    g: Group<T>, rep: (Point, T) -> bool, out: Point, s: nat, point: Point, x: T, y: T)
    requires IsAbelian(g) && Faithful(g, rep) && g.on(x) && g.on(y)
    requires rep(out, x) && rep(point, y)
    ensures rep(MulFrom(out, s, point), g.op(x, Times(g, s, y)))
    decreases s
  {
    if s == 0 {
      Commutes(g, x, g.zero);
    } else {
      var odd, doubled, y2 := Add(out, point), Add(point, point), g.op(y, y);
      assert g.on(y2) && rep(doubled, y2);
      TimesHalved(g, x, s, y);
      if s % 2 == 1 {
        assert g.on(g.op(x, y)) && rep(odd, g.op(x, y));
        MulFromIsTimes(g, rep, odd, s / 2, doubled, g.op(x, y), y2);
      } else {
        MulFromIsTimes(g, rep, out, s / 2, doubled, x, y2);
      }
    }
  }

  lemma {:induction false} MulIsTimes<T(!new)>(g: Group<T>, rep: (Point, T) -> bool, s: nat, point: Point, x: T)
    requires IsAbelian(g) && Faithful(g, rep) && g.on(x) && rep(point, x)
    ensures rep(MulOf(s, point), Times(g, s, x))
  {
    MulFromIsTimes(g, rep, Neutral, s, point, g.zero, x);
    TimesOn(g, s, x);
  }

  /** The curve's own group: affine points under the Edwards law. */
  ghost predicate IsCurveGroup(g: Group<Affine>) {
    && IsAbelian(g) && g.zero == Affine(0, 1)
    && forall v, w {:trigger g.op(v, w)} :: g.on(v) && g.on(w) ==> IsSum(v, w, g.op(v, w))
  }

  lemma CurveGroupIsRepresented(g: Group<Affine>)
    requires IsCurveGroup(g)
    ensures Faithful(g, Represents)
  {
    C.Refl(0, P);
    C.Refl(1, P);
    forall a, b, v, w | Represents(a, v) && Represents(b, w) && g.on(v) && g.on(w)
      ensures Represents(Add(a, b), g.op(v, w))
    {
      AddRepresentsSum(a, b, v, w, g.op(v, w));
    }
  }

  /** However many additions a multiplication makes, no coordinate outgrows 4*P*P,
      and a point of the curve stays on it. */
  lemma {:induction false} MulFromStays(out: Point, s: nat, point: Point)
    requires Bounded(out) && Extended(out) && OnCurve(out)
    requires Extended(point) && OnCurve(point)
    ensures var r := MulFrom(out, s, point); Bounded(r) && Extended(r) && OnCurve(r)
    decreases s
  {
    if s > 0 {
      AddBounded(out, point);
      AddExtended(out, point);
      AddOnCurve(out, point);
      AddExtended(point, point);
      AddOnCurve(point, point);
      MulFromStays(if s % 2 == 1 then Add(out, point) else out, s / 2, Add(point, point));
    }
  }

  lemma MulBaseStays(s: nat)
    ensures var r := MulOf(s, Base); Bounded(r) && Extended(r) && OnCurve(r)
  {
    BaseOnCurve();
    assert Bounded(Neutral) && Extended(Neutral) && OnCurve(Neutral);
    MulFromStays(Neutral, s, Base);
  }

  // ---- Point encoding ------------------------------------------------------

  function ModPow(b: int, e: nat, m: nat): (r: nat)
    requires m > 0
    ensures r < m
  {
    if e == 0 then 1 % m else (b * ModPow(b, e - 1, m)) % m
  }

  /** The power itself. */
  function Power(b: int, e: nat): int {
    if e == 0 then 1 else b * Power(b, e - 1)
  }

  lemma {:induction false} ModPowMeans(b: int, e: nat, m: nat)
    requires m > 0
    ensures ModPow(b, e, m) == Power(b, e) % m
  {
    if e > 0 {
      ModPowMeans(b, e - 1, m);
      var p := Power(b, e - 1);
      C.Reduced(p, m);
      C.Scale(b, p % m, p, m);
      C.SameRemainder(b * (p % m), b * p, m);
    }
  }

  /** The inverse is the power P - 2, and inverts wherever Fermat's theorem holds. */
  lemma {:induction false} InverseMeans(z: int)
    ensures Inverse(z) == Power(z, P - 2) % P
    ensures Eq(Power(z, P - 1), 1) ==> Eq(z * Inverse(z), 1)
  {
    var e: nat := P - 2;
    ModPowMeans(z, e, P);
    var p := Power(z, e);
    C.Reduced(p, P);
    C.Scale(z, p % P, p, P);
    if Eq(Power(z, e + 1), 1) {
      assert Power(z, e + 1) == z * p;
      C.Trans(z * (p % P), z * p, 1, P);
    }
  }

  function Encode(v: Affine): (b: Bytes)
    ensures |b| == 32
  {
    ToBytes(Or(v.y % P, (v.x % P % 2) * TWO_255), WIDTH)
  }

  function Inverse(z: int): nat {
    var e: nat := P - 2;
    ModPow(z, e, P)
  }

  function Compress(point: Point): (b: Bytes)
    ensures |b| == 32
  {
    var zinv := Inverse(point.z);
    Encode(Affine(point.x * zinv, point.y * zinv))
  }

  /** The encoding of a point depends on the affine point alone, wherever Fermat's
      power inverts Z: every representation of it has one encoding. */
  lemma CompressIsCanonical(a: Point, v: Affine)
    requires Represents(a, v) && Eq(a.z * Inverse(a.z), 1)
    ensures Compress(a) == Encode(v)
  {
    Cancel(a.x, v.x, a.z, Inverse(a.z));
    Cancel(a.y, v.y, a.z, Inverse(a.z));
  }

  lemma Cancel(a: int, v: int, z: int, i: int)
    requires Eq(a, v * z) && Eq(z * i, 1)
    ensures (a * i) % P == v % P
  {
    C.Scale(i, a, v * z, P);
    C.Scale(v, z * i, 1, P);
    assert i * (v * z) == v * (z * i);
    C.Trans(a * i, v * (z * i), v, P);
    C.SameRemainder(a * i, v, P);
  }

  /** The 32 bytes hold y in 255 bits and the parity of x in the top one. */
  lemma EncodeReadsBack(v: Affine)
    ensures FromBytes(Encode(v)) == v.y % P + (v.x % P % 2) * TWO_255
    ensures FromBytes(Encode(v)) % TWO_255 == v.y % P
  {
    Pow2Near256(8, 256);
    SignBitReadsBack(v.y % P, v.x % P % 2, 255, TWO_255, WIDTH);
  }

  lemma {:induction false} SignBitReadsBack(y: nat, sign: nat, k: nat, top: nat, width: nat)
    requires Pow2(k) == top && y < top && sign < 2 && 8 * width == k + 1
    ensures var n := FromBytes(ToBytes(Or(y, sign * top), width)); n == y + sign * top && n % top == y
  {
    var n := y + sign * top;
    assert Or(y, sign * top) == n by {
      if sign == 1 {
        OrTop(y, k);
      }
    }
    BytesRoundTrip(n, width);
    ModUnique(n, sign, y, top);
  }

  // ---- Key expansion -------------------------------------------------------

  function Clamp(n: nat): nat {
    Or(And(n, TWO_254 - 8), TWO_254)
  }

  /** Clamping clears the low three bits, sets bit 254, drops bit 255 and keeps the rest. */
  lemma ClampShape(n: nat)
    ensures Clamp(n) == TWO_254 + n % TWO_254 - n % 8
    ensures TWO_254 <= Clamp(n) < TWO_255
    ensures Clamp(n) % 8 == 0
  {
    Pow2Near256(8, 256);
    ClampAt(n, 254, 3);
  }

  /** The same for the exponents as parameters, so that the powers are not unrolled. */
  lemma {:induction false} ClampAt(n: nat, top: nat, low: nat)
    requires Pow2(top) == TWO_254 && low == 3 && low <= top
    ensures Clamp(n) == TWO_254 + n % TWO_254 - n % 8
    ensures TWO_254 <= Clamp(n) < TWO_255
    ensures Clamp(n) % 8 == 0
  {
    assert Pow2(low) == 8;
    MaskAndSet(n, top, low);
  }

  function Expand(hash: Bytes -> Bytes, seed: Bytes): (nat, Bytes)
    requires |hash(seed)| == 64
  {
    var h := hash(seed);
    (Clamp(FromBytes(h[..32])), h[32..])
  }

  function HashQ(hash: Bytes -> Bytes, data: Bytes): nat {
    FromBytes(hash(data)) % Q
  }

  // ---- Signing -------------------------------------------------------------

  function PublicKey(hash: Bytes -> Bytes, seed: Bytes): Bytes
    requires |hash(seed)| == 64
  {
    Compress(MulOf(Expand(hash, seed).0, Base))
  }

  function Sign(hash: Bytes -> Bytes, seed: Bytes, message: Bytes): (sig: Bytes)
    requires |hash(seed)| == 64
    ensures |sig| == 64
  {
    var (a, prefix) := Expand(hash, seed);
    var r := HashQ(hash, prefix + message);
    SignWith(hash, a, r, Compress(MulOf(r, Base)), Compress(MulOf(a, Base)), message)
  }

  function ResponseOf(r: nat, h: nat, a: nat): (s: nat)
    ensures s < Q
  {
    (r + h * a) % Q
  }

  /** The signature from its scalars and the encodings of their multiples of the base. */
  function SignWith(hash: Bytes -> Bytes, a: nat, r: nat, bigR: Bytes, public: Bytes, message: Bytes): (sig: Bytes)
    ensures |sig| == |bigR| + WIDTH
  {
    bigR + ToBytes(ResponseOf(r, HashQ(hash, bigR + public + message), a), WIDTH)
  }

  /** The key and the signature of a seed and a message, from the hash alone: the secret
      scalar is the low half of the seed's digest, clamped; the nonce hashes the high half
      before the message; the response binds both encodings and the message. */
  lemma SignatureMeans(hash: Bytes -> Bytes, seed: Bytes, message: Bytes)
    requires |hash(seed)| == 64
    ensures var digest := hash(seed);
            var n := FromBytes(digest[..32]);
            var a := TWO_254 + n % TWO_254 - n % 8;
            var r := FromBytes(hash(digest[32..] + message)) % Q;
            var key, sig := PublicKey(hash, seed), Sign(hash, seed, message);
            && a >= 0 && key == Compress(MulOf(a, Base)) && |sig| == 64
            && sig[..32] == Compress(MulOf(r, Base))
            && FromBytes(sig[32..]) == (r + FromBytes(hash(sig[..32] + key + message)) % Q * a) % Q
  {
    hide Compress, MulOf;
    ClampShape(FromBytes(hash(seed)[..32]));
    var (a, prefix) := Expand(hash, seed);
    var r := HashQ(hash, prefix + message);
    var head, key := Compress(MulOf(r, Base)), Compress(MulOf(a, Base));
    var s := ResponseOf(r, HashQ(hash, head + key + message), a);
    ReducedFits(s);
    assert (head + ToBytes(s, WIDTH))[..32] == head && (head + ToBytes(s, WIDTH))[32..] == ToBytes(s, WIDTH);
  }

  /** The check of section 5.1.7 of RFC 8032, over decoded points: S is reduced and
      [S]B == R + [h]A for the points R and A that the signature and key encode. */
  ghost predicate Verifies<T(!new)>(
    g: Group<T>, rep: (Point, T) -> bool, base: T, hash: Bytes -> Bytes,
    public: Bytes, message: Bytes, sig: Bytes)
  {
    && |sig| == 64
    && FromBytes(sig[32..]) < Q
    && exists bigR, bigA, r, a :: rep(bigR, r) && rep(bigA, a)
         && Compress(bigR) == sig[..32] && Compress(bigA) == public
         && Times(g, FromBytes(sig[32..]), base)
         == g.op(r, Times(g, HashQ(hash, sig[..32] + public + message), a))
  }

  /** Every signature verifies under its own key, for every seed, message and hash. */
  lemma {:induction false} SignatureVerifies<T(!new)>(
    g: Group<T>, rep: (Point, T) -> bool, base: T, hash: Bytes -> Bytes, seed: Bytes, message: Bytes)
    requires IsAbelian(g) && Faithful(g, rep) && g.on(base) && rep(Base, base)
    requires Times(g, Q, base) == g.zero
    requires |hash(seed)| == 64
    ensures Verifies(g, rep, base, hash, PublicKey(hash, seed), message, Sign(hash, seed, message))
  {
    var (a, prefix) := Expand(hash, seed);
    var r := HashQ(hash, prefix + message);
    MulIsTimes(g, rep, r, Base, base);
    MulIsTimes(g, rep, a, Base, base);
    var h := HashQ(hash, Compress(MulOf(r, Base)) + Compress(MulOf(a, Base)) + message);
    ReducedFits(ResponseOf(r, h, a));
    SignatureEquation(g, base, r, h, a);
    EquationVerifies(g, rep, base, hash, message, MulOf(r, Base), MulOf(a, Base), Compress(MulOf(r, Base)),
                     Compress(MulOf(a, Base)), Times(g, r, base), Times(g, a, base), ResponseOf(r, h, a));
  }

  /** The equation, for the points whose encodings the bytes are, is the check. */
  lemma {:induction false} EquationVerifies<T(!new)>(
    g: Group<T>, rep: (Point, T) -> bool, base: T, hash: Bytes -> Bytes, message: Bytes,
    bigR: Point, bigA: Point, head: Bytes, public: Bytes, r: T, a: T, s: nat)
    requires rep(bigR, r) && rep(bigA, a) && s < Q && FromBytes(ToBytes(s, WIDTH)) == s
    requires Compress(bigR) == head && Compress(bigA) == public
    requires Times(g, s, base) == g.op(r, Times(g, HashQ(hash, head + public + message), a))
    ensures Verifies(g, rep, base, hash, public, message, head + ToBytes(s, WIDTH))
  {
    var tail := ToBytes(s, WIDTH);
    assert (head + tail)[..32] == head && (head + tail)[32..] == tail;
  }

  lemma {:induction false} ReducedFits(s: nat)
    requires s < Q
    ensures FromBytes(ToBytes(s, WIDTH)) == s
  {
    Pow2Near256(8, 256);
    BytesRoundTrip(s, WIDTH);
  }

  lemma {:induction false} SignatureEquation<T(!new)>(g: Group<T>, base: T, r: nat, h: nat, a: nat)
    requires IsAbelian(g) && g.on(base) && Times(g, Q, base) == g.zero
    ensures Times(g, ResponseOf(r, h, a), base) == g.op(Times(g, r, base), Times(g, h, Times(g, a, base)))
  {
    TimesReduced(g, r + h * a, Q, base);
    TimesSum(g, r, h * a, base);
    TimesProduct(g, h, a, base);
  }

  /** The same in the curve's own group: what section 5.1.7 of RFC 8032 checks. */
  lemma {:induction false} SignatureVerifiesOnCurve(g: Group<Affine>, hash: Bytes -> Bytes, seed: Bytes, message: Bytes)
    requires IsCurveGroup(g) && g.on(Affine(GX, GY)) && Times(g, Q, Affine(GX, GY)) == g.zero
    requires |hash(seed)| == 64
    ensures Verifies(g, Represents, Affine(GX, GY), hash, PublicKey(hash, seed), message, Sign(hash, seed, message))
  {
    CurveGroupIsRepresented(g);
    BaseRepresented();
    SignatureVerifies(g, Represents, Affine(GX, GY), hash, seed, message);
  }

  /** The check over decoded bytes: R and A are the points of the curve's group whose
      encodings the signature and the key are. */
  ghost predicate VerifiesDecoded(
    g: Group<Affine>, base: Affine, hash: Bytes -> Bytes, public: Bytes, message: Bytes, sig: Bytes)
  {
    && |sig| == 64
    && FromBytes(sig[32..]) < Q
    && exists r, a :: g.on(r) && g.on(a) && Encode(r) == sig[..32] && Encode(a) == public
         && Times(g, FromBytes(sig[32..]), base)
         == g.op(r, Times(g, HashQ(hash, sig[..32] + public + message), a))
  }

  /** Fermat's power inverts the Z of every multiple of the base. */
  ghost predicate MultiplesInvert() {
    forall s: nat {:trigger MulOf(s, Base)} :: Eq(MulOf(s, Base).z * Inverse(MulOf(s, Base).z), 1)
  }

  /** Every signature verifies over the points its bytes decode to. */
  lemma {:induction false} SignatureDecodes(g: Group<Affine>, hash: Bytes -> Bytes, seed: Bytes, message: Bytes)
    requires IsCurveGroup(g) && g.on(Affine(GX, GY)) && Times(g, Q, Affine(GX, GY)) == g.zero
    requires MultiplesInvert() && |hash(seed)| == 64
    ensures VerifiesDecoded(g, Affine(GX, GY), hash, PublicKey(hash, seed), message, Sign(hash, seed, message))
  {
    var base := Affine(GX, GY);
    var (a, prefix) := Expand(hash, seed);
    var r := HashQ(hash, prefix + message);
    MultipleEncodes(g, base, r);
    MultipleEncodes(g, base, a);
    var head, public := Compress(MulOf(r, Base)), Compress(MulOf(a, Base));
    var h := HashQ(hash, head + public + message);
    ReducedFits(ResponseOf(r, h, a));
    SignatureEquation(g, base, r, h, a);
    EquationDecodes(g, base, hash, message, head, public, Times(g, r, base), Times(g, a, base), ResponseOf(r, h, a));
  }

  /** A multiple of the base encodes the affine point it stands for. */
  lemma {:induction false} MultipleEncodes(g: Group<Affine>, base: Affine, s: nat)
    requires IsCurveGroup(g) && base == Affine(GX, GY) && g.on(base) && MultiplesInvert()
    ensures g.on(Times(g, s, base)) && Compress(MulOf(s, Base)) == Encode(Times(g, s, base))
  {
    CurveGroupIsRepresented(g);
    BaseRepresented();
    MulIsTimes(g, Represents, s, Base, base);
    TimesOn(g, s, base);
    CompressIsCanonical(MulOf(s, Base), Times(g, s, base));
  }

  lemma {:induction false} EquationDecodes(
    g: Group<Affine>, base: Affine, hash: Bytes -> Bytes, message: Bytes,
    head: Bytes, public: Bytes, r: Affine, a: Affine, s: nat)
    requires g.on(r) && g.on(a) && s < Q && FromBytes(ToBytes(s, WIDTH)) == s
    requires Encode(r) == head && Encode(a) == public
    requires Times(g, s, base) == g.op(r, Times(g, HashQ(hash, head + public + message), a))
    ensures VerifiesDecoded(g, base, hash, public, message, head + ToBytes(s, WIDTH))
  {
    var tail := ToBytes(s, WIDTH);
    assert (head + tail)[..32] == head && (head + tail)[32..] == tail;
  }

  lemma BaseRepresented()
    ensures Represents(Base, Affine(GX, GY))
  {
    C.Refl(GX, P);
    C.Refl(GY, P);
    C.Reduced(GX * GY, P);
  }
}
