// Abelian groups given by their operations, and integer multiples of their elements.

module Groups {

  datatype Group<!P> = Group(add: (P, P) -> P, neg: P -> P, zero: P)

  /** The laws at three elements; callers ask for them where they need them. */
  ghost predicate LawsAt<P>(g: Group<P>, x: P, y: P, z: P) {
    && g.add(x, y) == g.add(y, x)
    && g.add(g.add(x, y), z) == g.add(x, g.add(y, z))
    && g.add(x, g.zero) == x
    && g.add(x, g.neg(x)) == g.zero
  }

  ghost predicate IsAbelian<P(!new)>(g: Group<P>) {
    forall x, y, z :: LawsAt(g, x, y, z)
  }

  lemma Laws<P(!new)>(g: Group<P>, x: P, y: P, z: P)
    requires IsAbelian(g)
    ensures g.add(x, y) == g.add(y, x)
    ensures g.add(g.add(x, y), z) == g.add(x, g.add(y, z))
    ensures g.add(x, g.zero) == x == g.add(g.zero, x)
    ensures g.add(x, g.neg(x)) == g.zero
  {
    assert LawsAt(g, x, y, z);
    assert LawsAt(g, x, g.zero, x);
  }

  /** The sum of four elements regrouped. */
  lemma Regroup<P(!new)>(g: Group<P>, a: P, b: P, c: P, d: P)
    requires IsAbelian(g)
    ensures g.add(g.add(a, b), g.add(c, d)) == g.add(g.add(a, c), g.add(b, d))
  {
    Laws(g, a, b, g.add(c, d));
    Laws(g, b, c, d);
    Laws(g, c, b, d);
    Laws(g, a, c, g.add(b, d));
  }

  lemma SwapLast<P(!new)>(g: Group<P>, a: P, b: P, c: P)
    requires IsAbelian(g)
    ensures g.add(g.add(a, b), c) == g.add(g.add(a, c), b)
  {
    Laws(g, a, b, c);
    Laws(g, b, c, a);
    Laws(g, a, c, b);
  }

  lemma Cancel<P(!new)>(g: Group<P>, a: P, b: P, c: P)
    requires IsAbelian(g) && g.add(a, c) == g.add(b, c)
    ensures a == b
  {
    Laws(g, a, c, g.neg(c));
    Laws(g, b, c, g.neg(c));
    Laws(g, c, a, a);
  }

  /** A sum with n copies of x; for negative n, its inverse. */
  function Times<P>(g: Group<P>, n: int, x: P): P
    decreases if n < 0 then 1 - n else n, g
  {
    if n == 0 then g.zero
    else if n > 0 then g.add(Times(g, n - 1, x), x)
    else g.neg(Times(g, -n, x))
  }

  lemma TimesOne<P(!new)>(g: Group<P>, x: P)
    requires IsAbelian(g)
    ensures Times(g, 1, x) == x
  {
    Laws(g, x, x, x);
  }

  function Minus<P>(g: Group<P>, x: P, y: P): P { g.add(x, g.neg(y)) }

  lemma TimesNext<P(!new)>(g: Group<P>, n: int, x: P)
    requires IsAbelian(g)
    ensures Times(g, n + 1, x) == g.add(Times(g, n, x), x)
  {
    if n < 0 {
      var m := -n - 1;
      var t := Times(g, m, x);
      Laws(g, t, x, x);
      assert Times(g, m + 1, x) == g.add(t, x);
      NegSum(g, t, x);
      Laws(g, g.neg(t), g.neg(x), x);
      Laws(g, x, g.neg(x), x);
      Laws(g, g.neg(t), x, x);
      Laws(g, g.neg(x), x, x);
      if m == 0 {
        NegZero(g);
      }
    }
  }

  lemma NegUnique<P(!new)>(g: Group<P>, a: P, b: P)
    requires IsAbelian(g) && g.add(a, b) == g.zero
    ensures b == g.neg(a)
  {
    Laws(g, b, a, a);
    Laws(g, g.neg(a), a, a);
    Laws(g, a, a, a);
    Cancel(g, b, g.neg(a), a);
  }

  lemma NegZero<P(!new)>(g: Group<P>)
    requires IsAbelian(g)
    ensures g.neg(g.zero) == g.zero
  {
    Laws(g, g.zero, g.zero, g.zero);
    NegUnique(g, g.zero, g.zero);
  }

  lemma NegSum<P(!new)>(g: Group<P>, a: P, b: P)
    requires IsAbelian(g)
    ensures g.neg(g.add(a, b)) == g.add(g.neg(a), g.neg(b))
  {
    Regroup(g, a, b, g.neg(a), g.neg(b));
    Laws(g, a, a, a);
    Laws(g, b, b, b);
    Laws(g, g.zero, a, a);
    NegUnique(g, g.add(a, b), g.add(g.neg(a), g.neg(b)));
  }

  lemma {:induction false} TimesSum<P(!new)>(g: Group<P>, n: int, m: int, x: P)
    requires IsAbelian(g)
    ensures Times(g, n + m, x) == g.add(Times(g, n, x), Times(g, m, x))
    decreases if m < 0 then -m else m
  {
    var s := Times(g, n, x);
    if m == 0 {
      Laws(g, s, s, s);
    } else if m > 0 {
      TimesSum(g, n, m - 1, x);
      TimesNext(g, n + m - 1, x);
      Laws(g, s, Times(g, m - 1, x), x);
    } else {
      TimesSum(g, n, m + 1, x);
      TimesNext(g, n + m, x);
      TimesNext(g, m, x);
      Laws(g, s, Times(g, m, x), x);
      Cancel(g, Times(g, n + m, x), g.add(s, Times(g, m, x)), x);
    }
  }

  lemma TimesNeg<P(!new)>(g: Group<P>, n: int, x: P)
    requires IsAbelian(g)
    ensures Times(g, -n, x) == g.neg(Times(g, n, x))
  {
    TimesSum(g, n, -n, x);
    NegUnique(g, Times(g, n, x), Times(g, -n, x));
  }

  lemma {:induction false} TimesProduct<P(!new)>(g: Group<P>, n: int, m: int, x: P)
    requires IsAbelian(g)
    ensures Times(g, n * m, x) == Times(g, n, Times(g, m, x))
    decreases if n < 0 then -n else n
  {
    var y := Times(g, m, x);
    if n == 0 {
    } else if n > 0 {
      TimesProduct(g, n - 1, m, x);
      Expand(n - 1, m);
      TimesSum(g, (n - 1) * m, m, x);
    } else {
      TimesProduct(g, n + 1, m, x);
      Expand(n, m);
      TimesSum(g, n * m, m, x);
      TimesNext(g, n, y);
      Cancel(g, Times(g, n * m, x), Times(g, n, y), y);
    }
  }

  lemma Expand(n: int, m: int)
    ensures (n + 1) * m == n * m + m
  {
  }

  lemma {:induction false} TimesOfSum<P(!new)>(g: Group<P>, n: int, x: P, y: P)
    requires IsAbelian(g)
    ensures Times(g, n, g.add(x, y)) == g.add(Times(g, n, x), Times(g, n, y))
    decreases if n < 0 then -n else n
  {
    if n == 0 {
      Laws(g, g.zero, x, x);
    } else if n > 0 {
      TimesOfSum(g, n - 1, x, y);
      Regroup(g, Times(g, n - 1, x), Times(g, n - 1, y), x, y);
    } else {
      TimesOfSum(g, n + 1, x, y);
      TimesNext(g, n, x);
      TimesNext(g, n, y);
      TimesNext(g, n, g.add(x, y));
      Regroup(g, Times(g, n, x), Times(g, n, y), x, y);
      Cancel(g, Times(g, n, g.add(x, y)), g.add(Times(g, n, x), Times(g, n, y)), g.add(x, y));
    }
  }

  lemma {:induction false} TimesZero<P(!new)>(g: Group<P>, n: int)
    requires IsAbelian(g)
    ensures Times(g, n, g.zero) == g.zero
    decreases if n < 0 then -n else n
  {
    Laws(g, g.zero, g.zero, g.zero);
    if n > 0 {
      TimesZero(g, n - 1);
    } else if n < 0 {
      TimesZero(g, n + 1);
      TimesNext(g, n, g.zero);
      Laws(g, Times(g, n, g.zero), g.zero, g.zero);
    }
  }

  lemma TimesDouble<P(!new)>(g: Group<P>, n: int, d: int, x: P)
    requires IsAbelian(g)
    ensures g.add(g.add(Times(g, n, x), Times(g, n, x)), Times(g, d, x)) == Times(g, 2 * n + d, x)
  {
    TimesSum(g, n, n, x);
    TimesSum(g, 2 * n, d, x);
  }

  /** k * x + l * y */
  function Sum2<P>(g: Group<P>, k: int, x: P, l: int, y: P): P {
    g.add(Times(g, k, x), Times(g, l, y))
  }

  /** k * x + l * y + m * z */
  function Sum3<P>(g: Group<P>, k: int, x: P, l: int, y: P, m: int, z: P): P {
    g.add(Sum2(g, k, x, l, y), Times(g, m, z))
  }

  lemma SumZero<P(!new)>(g: Group<P>, x: P, y: P, z: P)
    requires IsAbelian(g)
    ensures Sum2(g, 0, x, 0, y) == g.zero == Sum3(g, 0, x, 0, y, 0, z)
  {
    Laws(g, g.zero, g.zero, g.zero);
  }

  lemma Sum2Step<P(!new)>(g: Group<P>, k: int, x: P, l: int, y: P, d: int, e: int)
    requires IsAbelian(g)
    ensures
      var s := Sum2(g, k, x, l, y);
      g.add(g.add(g.add(s, s), Times(g, d, x)), Times(g, e, y)) == Sum2(g, 2 * k + d, x, 2 * l + e, y)
  {
    var kx, ly, dx, ey := Times(g, k, x), Times(g, l, y), Times(g, d, x), Times(g, e, y);
    Regroup(g, kx, ly, kx, ly);
    SwapLast(g, g.add(kx, kx), g.add(ly, ly), dx);
    Laws(g, g.add(g.add(kx, kx), dx), g.add(ly, ly), ey);
    TimesDouble(g, k, d, x);
    TimesDouble(g, l, e, y);
  }

  lemma Sum3Step<P(!new)>(g: Group<P>, k: int, x: P, l: int, y: P, m: int, z: P, d: int, e: int, f: int)
    requires IsAbelian(g)
    ensures
      var s := Sum3(g, k, x, l, y, m, z);
      g.add(g.add(g.add(g.add(s, s), Times(g, d, x)), Times(g, e, y)), Times(g, f, z))
        == Sum3(g, 2 * k + d, x, 2 * l + e, y, 2 * m + f, z)
  {
    var s, mz := Sum2(g, k, x, l, y), Times(g, m, z);
    var dx, ey, fz := Times(g, d, x), Times(g, e, y), Times(g, f, z);
    Regroup(g, s, mz, s, mz);
    SwapLast(g, g.add(s, s), g.add(mz, mz), dx);
    SwapLast(g, g.add(g.add(s, s), dx), g.add(mz, mz), ey);
    Laws(g, g.add(g.add(g.add(s, s), dx), ey), g.add(mz, mz), fz);
    Sum2Step(g, k, x, l, y, d, e);
    TimesDouble(g, m, f, z);
  }
}
