/** Abelian groups on a subset of a type, and multiples of their elements. */
module AbelianGroup {

  datatype Group<!T> = Group(zero: T, op: (T, T) -> T, on: T -> bool)

  /** Names the elements a law is applied to, so that a proof picks its instances. */
  predicate At<T>(a: T, b: T, c: T) {
    true
  }

  ghost predicate IsAbelian<T(!new)>(g: Group<T>) {
    && g.on(g.zero)
    && (forall a {:trigger g.op(g.zero, a)} :: g.on(a) ==> g.op(g.zero, a) == a)
    && (forall a, b {:trigger g.on(g.op(a, b))} :: g.on(a) && g.on(b) ==> g.on(g.op(a, b)))
    && (forall a, b {:trigger At(a, b, b)} :: g.on(a) && g.on(b) ==> g.op(a, b) == g.op(b, a))
    && (forall a, b, c {:trigger At(a, b, c)} ::
          g.on(a) && g.on(b) && g.on(c) ==> g.op(g.op(a, b), c) == g.op(a, g.op(b, c)))
  }

  lemma Commutes<T(!new)>(g: Group<T>, a: T, b: T)
    requires IsAbelian(g) && g.on(a) && g.on(b)
    ensures g.op(a, b) == g.op(b, a)
  {
    assert At(a, b, b);
  }

  lemma Associates<T(!new)>(g: Group<T>, a: T, b: T, c: T)
    requires IsAbelian(g) && g.on(a) && g.on(b) && g.on(c)
    ensures g.op(g.op(a, b), c) == g.op(a, g.op(b, c))
  {
    assert At(a, b, c);
  }

  /** The n-fold sum of x. */
  function Times<T>(g: Group<T>, n: nat, x: T): T {
    if n == 0 then g.zero else g.op(Times(g, n - 1, x), x)
  }

  lemma {:induction false} TimesOn<T(!new)>(g: Group<T>, n: nat, x: T)
    requires IsAbelian(g) && g.on(x)
    ensures g.on(Times(g, n, x))
  {
    if n > 0 {
      TimesOn(g, n - 1, x);
    }
  }

  lemma {:induction false} TimesSum<T(!new)>(g: Group<T>, m: nat, n: nat, x: T)
    requires IsAbelian(g) && g.on(x)
    ensures Times(g, m + n, x) == g.op(Times(g, m, x), Times(g, n, x))
  {
    TimesOn(g, m, x);
    if n == 0 {
      Commutes(g, Times(g, m, x), g.zero);
    } else {
      TimesOn(g, n - 1, x);
      TimesSum(g, m, n - 1, x);
      Associates(g, Times(g, m, x), Times(g, n - 1, x), x);
    }
  }

  lemma {:induction false} TimesProduct<T(!new)>(g: Group<T>, m: nat, n: nat, x: T)
    requires IsAbelian(g) && g.on(x)
    ensures Times(g, m * n, x) == Times(g, m, Times(g, n, x))
  {
    if m > 0 {
      TimesProduct(g, m - 1, n, x);
      TimesSum(g, (m - 1) * n, n, x);
      assert (m - 1) * n + n == m * n;
    }
  }

  /** Multiples of an element that q annihilates depend on the multiplier modulo q. */
  lemma {:induction false} TimesReduced<T(!new)>(g: Group<T>, n: nat, q: nat, x: T)
    requires IsAbelian(g) && g.on(x) && q > 0 && Times(g, q, x) == g.zero
    ensures Times(g, n % q, x) == Times(g, n, x)
  {
    var k := n / q;
    assert k * q + n % q == n;
    TimesSum(g, k * q, n % q, x);
    TimesProduct(g, k, q, x);
    TimesZero(g, k);
    TimesOn(g, n % q, x);
  }

  lemma {:induction false} TimesZero<T(!new)>(g: Group<T>, n: nat)
    requires IsAbelian(g)
    ensures Times(g, n, g.zero) == g.zero
  {
    if n > 0 {
      TimesZero(g, n - 1);
    }
  }

  lemma {:induction false} TimesDouble<T(!new)>(g: Group<T>, n: nat, x: T)
    requires IsAbelian(g) && g.on(x)
    ensures Times(g, n, g.op(x, x)) == Times(g, 2 * n, x)
  {
    assert Times(g, 2, x) == g.op(x, x) by {
      assert Times(g, 1, x) == g.op(g.zero, x) == x;
    }
    TimesProduct(g, n, 2, x);
    assert n * 2 == 2 * n;
  }

  /** One round of double-and-add leaves the accumulated total as it was. */
  lemma {:induction false} TimesHalved<T(!new)>(g: Group<T>, x: T, s: nat, y: T)
    requires IsAbelian(g) && g.on(x) && g.on(y)
    ensures g.on(g.op(y, y)) && g.on(g.op(x, y))
    ensures g.op(if s % 2 == 1 then g.op(x, y) else x, Times(g, s / 2, g.op(y, y))) == g.op(x, Times(g, s, y))
  {
    var k := s / 2;
    TimesDouble(g, k, y);
    TimesOn(g, 2 * k, y);
    if s % 2 == 1 {
      Commutes(g, Times(g, 2 * k, y), y);
      Associates(g, x, y, Times(g, 2 * k, y));
    }
  }
}
