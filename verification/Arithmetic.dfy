// Integer facts shared by the modules: products, quotients and powers of two.

module Arithmetic {

  lemma NonNegative(x: int, y: int)
    requires 0 <= x && 0 <= y
    ensures 0 <= x * y
  {
  }

  lemma Distribute(x: int, y: int, z: int)
    ensures x * (y + z) == x * y + x * z && (y + z) * x == x * y + x * z
  {
  }

  lemma Scale(x: int, c: int, r: int)
    ensures x * (c * r) == c * (x * r)
  {
  }

  lemma DoubledFactor(p: int, d: int)
    ensures 2 * (p * d) == 2 * p * d
  {
  }

  lemma Ordered(p: int, a: int, b: int)
    requires p > 0
    ensures a <= b ==> p * a <= p * b
  {
  }

  lemma Division(x: nat, m: nat, q: nat, r: nat)
    requires r < m && x == m * q + r
    ensures x / m == q && x % m == r
  {
    var d := x / m - q;
    assert m * d == r - x % m;
    Ordered(m, 1, d);
    Ordered(m, d, -1);
  }

  lemma SameResidue(a: int, b: int, q: int, m: int)
    requires m > 0 && b == a + m * q
    ensures a % m == b % m
  {
    var d := b / m - a / m - q;
    assert m * d == a % m - b % m;
    Ordered(m, 1, d);
    Ordered(m, d, -1);
  }

  lemma ModSum(x: int, y: int, m: int)
    requires m > 0
    ensures (x % m + y) % m == (x + y) % m
  {
    assert x == m * (x / m) + x % m;
    SameResidue(x % m + y, x + y, x / m, m);
  }

  lemma TwoDigits(x: int, m: nat, n: nat, q: int, a: nat, b: nat, r: nat)
    requires r < m && b < n && x == m * q + r && q == n * a + b
    ensures x == (n * m) * a + (m * b + r) && 0 <= m * b + r < n * m
  {
    Distribute(m, n * a, b);
    Ordered(m, b, n - 1);
    Distribute(m, n, -1);
    NonNegative(m, b);
  }

  lemma QuotientOfQuotient(x: nat, m: nat, n: nat)
    requires m > 0 && n > 0
    ensures n * m > 0 && x / m / n == x / (n * m)
  {
    var q, r := x / m, x % m;
    var a, b := q / n, q % n;
    TwoDigits(x, m, n, q, a, b, r);
    Division(x, n * m, a, m * b + r);
  }

  lemma HalvedQuotient(x: nat, p: nat)
    requires p > 0
    ensures x / p == x / p % 2 + 2 * (x / (2 * p))
  {
    QuotientOfQuotient(x, p, 2);
  }

  function Pow2(n: nat): (p: nat)
    ensures p > 0
    decreases n
  {
    if n == 0 then 1 else 2 * Pow2(n - 1)
  }

  lemma {:induction false} PowSum(a: nat, b: nat)
    ensures Pow2(a) * Pow2(b) == Pow2(a + b)
    decreases a
  {
    if a > 0 {
      PowSum(a - 1, b);
      Scale(Pow2(b), 2, Pow2(a - 1));
    }
  }

  lemma {:induction false} PowGrows(a: nat, b: nat)
    requires a <= b
    ensures Pow2(a) <= Pow2(b)
    decreases b
  {
    if a < b {
      PowGrows(a, b - 1);
    }
  }

  lemma SmallPowers()
    ensures Pow2(1) == 2 && Pow2(2) == 4 && Pow2(3) == 8 && Pow2(4) == 16 && Pow2(5) == 32 && Pow2(6) == 64
  {
    assert Pow2(3) == 8;
  }
}
