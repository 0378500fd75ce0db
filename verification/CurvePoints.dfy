// Points of the twisted Edwards curve in the representations the group code
// uses, and its addition and doubling formulas over FeMul, FeSq, FeAdd, FeSub.

module CurvePoints {
  import opened Arithmetic
  import FieldBytes
  import opened FieldElements
  import opened FieldProducts

  /** i is the inverse of z modulo p. */
  ghost predicate Inverse(z: int, i: int) { Eq(z * i, 1) }

  /** Invertible modulo p. */
  ghost predicate Unit(z: int) { exists i :: Inverse(z, i) }

  // d and 2d as the limbs fe_d and fe_d2.
  const FE_D: Fe := [-10913610, 13857413, -15372611, 6949391, 114729, -8787816, -6275908, -3247719, -18696448,
    -12055116]
  const FE_D2: Fe := [-21827239, -5839606, -30745221, 13898782, 229458, 15978800, -12551817, -6495438, 29715968,
    9444199]

  const D: int := -20800338683988658368647408995589388737092878452977063003340006470870624536394

  lemma CurveConstants()
    ensures Value(FE_D) == D && Bounded(FE_D, TIGHT)
    ensures Eq(D * 121666, -121665)
    ensures Eq(Value(FE_D2), 2 * D) && Bounded(FE_D2, TIGHT)
  {
    hide Eq;
    Congruence();
    var f := Widened(FE_D);
    assert PairsFrom(f, 8) == f[8] as int + 67108864 * f[9] as int;
    assert PairsFrom(f, 6) == f[6] as int + 67108864 * f[7] as int + 2251799813685248 * PairsFrom(f, 8);
    assert PairsFrom(f, 4) == f[4] as int + 67108864 * f[5] as int + 2251799813685248 * PairsFrom(f, 6);
    assert PairsFrom(f, 2) == f[2] as int + 67108864 * f[3] as int + 2251799813685248 * PairsFrom(f, 4);
  }

  const ONE: Fe := [1, 0, 0, 0, 0, 0, 0, 0, 0, 0]
  const ZERO: Fe := [0, 0, 0, 0, 0, 0, 0, 0, 0, 0]

  lemma SmallConstants()
    ensures Value(ONE) == 1 && Bounded(ONE, TIGHT)
    ensures Value(ZERO) == 0 && Bounded(ZERO, TIGHT)
  {
    ZeroFrom(Widened(ZERO), 0);
    assert PairsFrom(Widened(ONE), 0) == 1 + 2251799813685248 * PairsFrom(Widened(ONE), 2);
    SameFrom(Widened(ONE), Widened(ZERO), 2);
    ZeroFrom(Widened(ZERO), 2);
  }

  // Each representation of the affine point (x, y), with every coordinate read modulo p.

  datatype P2 = P2(X: Fe, Y: Fe, Z: Fe) {
    predicate InBounds() { Bounded(X, TIGHT) && Bounded(Y, TIGHT) && Bounded(Z, TIGHT) }

    ghost predicate Is(x: int, y: int) {
      Eq(Value(X), x * Value(Z)) && Eq(Value(Y), y * Value(Z)) && Unit(Value(Z))
    }
  }

  datatype P3 = P3(X: Fe, Y: Fe, Z: Fe, T: Fe) {
    predicate InBounds() { Bounded(X, TIGHT) && Bounded(Y, TIGHT) && Bounded(Z, TIGHT) && Bounded(T, TIGHT) }

    ghost predicate Is(x: int, y: int) {
      && Eq(Value(X), x * Value(Z)) && Eq(Value(Y), y * Value(Z)) && Eq(Value(T), (x * y) * Value(Z))
      && Unit(Value(Z))
    }
  }

  /** x = X/Z, y = Y/T; the only coordinates that are not fresh products, up to three of them added. */
  datatype P1p1 = P1p1(X: Fe, Y: Fe, Z: Fe, T: Fe) {
    predicate InBounds() {
      Bounded(X, 3 * TIGHT) && Bounded(Y, 3 * TIGHT) && Bounded(Z, 3 * TIGHT) && Bounded(T, 3 * TIGHT)
    }

    ghost predicate Is(x: int, y: int) {
      Eq(Value(X), x * Value(Z)) && Eq(Value(Y), y * Value(T)) && Unit(Value(Z)) && Unit(Value(T))
    }
  }

  datatype Cached = Cached(YplusX: Fe, YminusX: Fe, Z: Fe, T2d: Fe) {
    predicate InBounds() {
      Bounded(YplusX, 2 * TIGHT) && Bounded(YminusX, 2 * TIGHT) && Bounded(Z, TIGHT) && Bounded(T2d, TIGHT)
    }

    ghost predicate Is(x: int, y: int) {
      && Eq(Value(YplusX), (y + x) * Value(Z)) && Eq(Value(YminusX), (y - x) * Value(Z))
      && Eq(Value(T2d), (2 * D * (x * y)) * Value(Z)) && Unit(Value(Z))
    }
  }

  datatype Precomp = Precomp(yplusx: Fe, yminusx: Fe, xy2d: Fe) {
    predicate InBounds() { Bounded(yplusx, TIGHT) && Bounded(yminusx, TIGHT) && Bounded(xy2d, TIGHT) }

    ghost predicate Is(x: int, y: int) {
      Eq(Value(yplusx), y + x) && Eq(Value(yminusx), y - x) && Eq(Value(xy2d), 2 * D * (x * y))
    }
  }

  lemma EqQuotient(a: int, b: int) returns (q: int)
    requires Eq(a, b)
    ensures a == b + P * q
  {
    q :| Apart(a, b, q);
  }

  lemma EqShift(a: int, b: int, q: int)
    requires a == b + P * q
    ensures Eq(a, b)
  {
    assert Apart(a, b, q);
  }

  /** Linear combinations respect equality modulo p. */
  lemma EqLinear(a: int, a': int, b: int, b': int)
    requires Eq(a, a') && Eq(b, b')
    ensures Eq(a + b, a' + b') && Eq(a - b, a' - b') && Eq(2 * a + b, 2 * a' + b') && Eq(2 * a - b, 2 * a' - b')
  {
    var q := EqQuotient(a, a');
    var r := EqQuotient(b, b');
    EqShift(a + b, a' + b', q + r);
    EqShift(a - b, a' - b', q - r);
    EqShift(2 * a + b, 2 * a' + b', 2 * q + r);
    EqShift(2 * a - b, 2 * a' - b', 2 * q - r);
  }

  /** Products respect equality modulo p. */
  lemma EqProduct(a: int, a': int, b: int, b': int)
    requires Eq(a, a') && Eq(b, b')
    ensures Eq(a * b, a' * b')
  {
    var q := EqQuotient(a, a');
    var r := EqQuotient(b, b');
    ProductShift(a', q, b', r);
    EqShift(a * b, a' * b', q * b' + r * a' + P * (q * r));
  }

  lemma ProductShift(a: int, q: int, b: int, r: int)
    ensures (a + P * q) * (b + P * r) == a * b + P * (q * b + r * a + P * (q * r))
  {
    Distribute(a + P * q, b, P * r);
    Distribute(b, a, P * q);
    Distribute(P * r, a, P * q);
    assert (P * q) * b == P * (q * b);
    assert a * (P * r) == P * (r * a);
    assert (P * q) * (P * r) == P * (P * (q * r));
  }

  lemma UnitSame(a: int, b: int)
    requires Eq(a, b) && Unit(b)
    ensures Unit(a)
  {
    hide Eq;
    Congruence();
    var i :| Inverse(b, i);
    EqProduct(a, b, i, i);
    assert Inverse(a, i);
  }

  lemma UnitProduct(a: int, b: int)
    requires Unit(a) && Unit(b)
    ensures Unit(a * b)
  {
    var i :| Inverse(a, i);
    var j :| Inverse(b, j);
    EqProduct(a * i, 1, b * j, 1);
    Regroup(a, i, b, j);
    assert Inverse(a * b, i * j);
  }

  lemma SmallUnits()
    ensures Unit(1) && Unit(2)
  {
    hide Eq;
    Congruence();
    assert Inverse(1, 1);
    assert Inverse(2, (P + 1) / 2);
  }

  /** With an invertible Z, one x modulo p has X = xZ: a representation determines its affine point. */
  lemma AffineUnique(X: int, Z: int, x1: int, x2: int)
    requires Unit(Z) && Eq(X, x1 * Z) && Eq(X, x2 * Z)
    ensures Eq(x1, x2)
  {
    hide Eq;
    Congruence();
    var i :| Inverse(Z, i);
    EqProduct(X, x1 * Z, i, i);
    EqProduct(X, x2 * Z, i, i);
    Unscaled(x1, Z, i);
    Unscaled(x2, Z, i);
  }

  lemma Unscaled(x: int, z: int, i: int)
    requires Inverse(z, i)
    ensures Eq((x * z) * i, x)
  {
    hide Eq;
    Congruence();
    EqProduct(x, x, z * i, 1);
    assert (x * z) * i == x * (z * i);
  }

  /** r = p + q */
  method GeAdd(p: P3, q: Cached) returns (r: P1p1)
    requires p.InBounds() && q.InBounds()
    ensures r.InBounds()
    ensures Added(p, q.YplusX, q.YminusX, Value(q.Z), q.T2d, r)
  {
    hide Value, Eq;
    var X := FeAdd(p.Y, p.X, TIGHT, TIGHT);
    var Y := FeSub(p.Y, p.X, TIGHT, TIGHT);
    var Z := FeMul(X, q.YplusX);
    Y := FeMul(Y, q.YminusX);
    var T := FeMul(q.T2d, p.T);
    X := FeMul(p.Z, q.Z);
    var t0 := FeAdd(X, X, TIGHT, TIGHT);
    EqLinear(Value(Z), (Value(p.Y) + Value(p.X)) * Value(q.YplusX), Value(Y),
      (Value(p.Y) - Value(p.X)) * Value(q.YminusX));
    EqLinear(Value(X), Value(p.Z) * Value(q.Z), Value(T), Value(q.T2d) * Value(p.T));
    X := FeSub(Z, Y, TIGHT, TIGHT);
    Y := FeAdd(Z, Y, TIGHT, TIGHT);
    Z := FeAdd(t0, T, 2 * TIGHT, TIGHT);
    T := FeSub(t0, T, 2 * TIGHT, TIGHT);
    r := P1p1(X, Y, Z, T);
  }

  /** The coordinates of p plus a point given by Y + X, Y - X, Z and 2dT, modulo p. */
  ghost predicate Added(p: P3, yplusx: Fe, yminusx: Fe, z: int, t2d: Fe, r: P1p1) {
    && Eq(Value(r.X), (Value(p.Y) + Value(p.X)) * Value(yplusx) - (Value(p.Y) - Value(p.X)) * Value(yminusx))
    && Eq(Value(r.Y), (Value(p.Y) + Value(p.X)) * Value(yplusx) + (Value(p.Y) - Value(p.X)) * Value(yminusx))
    && Eq(Value(r.Z), 2 * (Value(p.Z) * z) + Value(t2d) * Value(p.T))
    && Eq(Value(r.T), 2 * (Value(p.Z) * z) - Value(t2d) * Value(p.T))
  }

  /** r = p - q: the roles of Y + X and Y - X, and of Z and T, are exchanged. */
  method GeSub(p: P3, q: Cached) returns (r: P1p1)
    requires p.InBounds() && q.InBounds()
    ensures r.InBounds()
    ensures Added(p, q.YminusX, q.YplusX, Value(q.Z), q.T2d, r.(Z := r.T, T := r.Z))
  {
    hide Value, Eq;
    var X := FeAdd(p.Y, p.X, TIGHT, TIGHT);
    var Y := FeSub(p.Y, p.X, TIGHT, TIGHT);
    var Z := FeMul(X, q.YminusX);
    Y := FeMul(Y, q.YplusX);
    var T := FeMul(q.T2d, p.T);
    X := FeMul(p.Z, q.Z);
    var t0 := FeAdd(X, X, TIGHT, TIGHT);
    EqLinear(Value(Z), (Value(p.Y) + Value(p.X)) * Value(q.YminusX), Value(Y),
      (Value(p.Y) - Value(p.X)) * Value(q.YplusX));
    EqLinear(Value(X), Value(p.Z) * Value(q.Z), Value(T), Value(q.T2d) * Value(p.T));
    X := FeSub(Z, Y, TIGHT, TIGHT);
    Y := FeAdd(Z, Y, TIGHT, TIGHT);
    Z := FeSub(t0, T, 2 * TIGHT, TIGHT);
    T := FeAdd(t0, T, 2 * TIGHT, TIGHT);
    r := P1p1(X, Y, Z, T);
  }

  /** r = p + q for an affine q */
  method GeMadd(p: P3, q: Precomp) returns (r: P1p1)
    requires p.InBounds() && q.InBounds()
    ensures r.InBounds()
    ensures Added(p, q.yplusx, q.yminusx, 1, q.xy2d, r)
  {
    hide Value, Eq;
    Congruence();
    var X := FeAdd(p.Y, p.X, TIGHT, TIGHT);
    var Y := FeSub(p.Y, p.X, TIGHT, TIGHT);
    var Z := FeMul(X, q.yplusx);
    Y := FeMul(Y, q.yminusx);
    var T := FeMul(q.xy2d, p.T);
    var t0 := FeAdd(p.Z, p.Z, TIGHT, TIGHT);
    EqLinear(Value(Z), (Value(p.Y) + Value(p.X)) * Value(q.yplusx), Value(Y),
      (Value(p.Y) - Value(p.X)) * Value(q.yminusx));
    EqLinear(Value(p.Z), Value(p.Z) * 1, Value(T), Value(q.xy2d) * Value(p.T));
    X := FeSub(Z, Y, TIGHT, TIGHT);
    Y := FeAdd(Z, Y, TIGHT, TIGHT);
    Z := FeAdd(t0, T, 2 * TIGHT, TIGHT);
    T := FeSub(t0, T, 2 * TIGHT, TIGHT);
    r := P1p1(X, Y, Z, T);
  }

  /** r = p - q for an affine q */
  method GeMsub(p: P3, q: Precomp) returns (r: P1p1)
    requires p.InBounds() && q.InBounds()
    ensures r.InBounds()
    ensures Added(p, q.yminusx, q.yplusx, 1, q.xy2d, r.(Z := r.T, T := r.Z))
  {
    hide Value, Eq;
    Congruence();
    var X := FeAdd(p.Y, p.X, TIGHT, TIGHT);
    var Y := FeSub(p.Y, p.X, TIGHT, TIGHT);
    var Z := FeMul(X, q.yminusx);
    Y := FeMul(Y, q.yplusx);
    var T := FeMul(q.xy2d, p.T);
    var t0 := FeAdd(p.Z, p.Z, TIGHT, TIGHT);
    EqLinear(Value(Z), (Value(p.Y) + Value(p.X)) * Value(q.yminusx), Value(Y),
      (Value(p.Y) - Value(p.X)) * Value(q.yplusx));
    EqLinear(Value(p.Z), Value(p.Z) * 1, Value(T), Value(q.xy2d) * Value(p.T));
    X := FeSub(Z, Y, TIGHT, TIGHT);
    Y := FeAdd(Z, Y, TIGHT, TIGHT);
    Z := FeSub(t0, T, 2 * TIGHT, TIGHT);
    T := FeAdd(t0, T, 2 * TIGHT, TIGHT);
    r := P1p1(X, Y, Z, T);
  }

  /** r = 2 p: X = 2XY, Y = Y^2 + X^2, Z = Y^2 - X^2, T = 2Z^2 - Z. The subtrahends reach 1.01 2^26 on
      even limbs, above the 1.1 2^25 that fe_sub's comment asks for, and the results 1.52 2^26. */
  method GeP2Dbl(p: P2) returns (r: P1p1)
    requires p.InBounds()
    ensures r.InBounds()
    ensures Doubled(p, r)
  {
    hide Value, Eq;
    var X := FeSq(p.X);
    var Z := FeSq(p.Y);
    var T := FeSq2(p.Z);
    var Y := FeAdd(p.X, p.Y, TIGHT, TIGHT);
    var t0 := FeSq(Y);
    ghost var x, y := Value(p.X), Value(p.Y);
    EqLinear(Value(Z), y * y, Value(X), x * x);
    Y := FeAdd(Z, X, TIGHT, TIGHT);
    Z := FeSub(Z, X, TIGHT, TIGHT);
    EqLinear(Value(t0), (x + y) * (x + y), Value(Y), y * y + x * x);
    EqLinear(Value(T), 2 * (Value(p.Z) * Value(p.Z)), Value(Z), y * y - x * x);
    SquareOfSum(x, y);
    X := FeSub(t0, Y, TIGHT, 2 * TIGHT);
    T := FeSub(T, Z, TIGHT, 2 * TIGHT);
    r := P1p1(X, Y, Z, T);
  }

  /** X and Y of 5760 take ge_p2_dbl there: whatever limbs its squares have, the sum it subtracts exceeds 1.1 2^25. */
  lemma DoublingExceedsComment(x: Fe, xx: Fe, yy: Fe)
    requires x == [5760, 0, 0, 0, 0, 0, 0, 0, 0, 0]
    requires Bounded(xx, TIGHT) && Eq(Value(xx), Value(x) * Value(x))
    requires Bounded(yy, TIGHT) && Eq(Value(yy), Value(x) * Value(x))
    ensures Bounded(x, TIGHT) && FeAdd(yy, xx, TIGHT, TIGHT)[0] == 66355200 > 36909875
  {
    FieldBytes.ExplicitValue(x);
    LowestLimb(xx, 33177600);
    LowestLimb(yy, 33177600);
  }

  /** A value below 2^25 - 2^18 has one lowest limb within the bounds of a product. */
  lemma LowestLimb(h: Fe, v: int)
    requires Bounded(h, TIGHT) && Eq(Value(h), v) && 0 <= v <= 33218887
    ensures h[0] as int == v
  {
    hide Value, Eq, Bounded;
    var q := EqQuotient(Value(h), v);
    var rest := ProductRange(h);
    OnlyLimb(h[0] as int, rest, v, q);
  }

  /** The value of a product's limbs is well below p in size. */
  lemma ProductRange(h: Fe) returns (rest: int)
    requires Bounded(h, TIGHT)
    ensures -33889976 <= h[0] as int <= 33889976
    ensures Value(h) == h[0] as int + 67108864 * rest && -(P / 67108864 - 2) <= rest <= P / 67108864 - 2
  {
    FieldBytes.ExplicitValue(h);
    rest := h[1] as int
      + 33554432 * h[2] as int
      + 2251799813685248 * h[3] as int
      + 75557863725914323419136 * h[4] as int
      + 5070602400912917605986812821504 * h[5] as int
      + 170141183460469231731687303715884105728 * h[6] as int
      + 11417981541647679048466287755595961091061972992 * h[7] as int
      + 383123885216472214589586756787577295904684780545900544 * h[8] as int
      + 25711008708143844408671393477458601640355247900524685364822016 * h[9] as int;
  }

  lemma OnlyLimb(low: int, rest: int, v: int, q: int)
    requires -33889976 <= low <= 33889976 && 0 <= v <= 33218887
    requires -(P / 67108864 - 2) <= rest <= P / 67108864 - 2 && low + 67108864 * rest == v + P * q
    ensures low == v
  {
    assert q == 0;
    assert rest == 0;
  }

  lemma SquareOfSum(x: int, y: int)
    ensures (x + y) * (x + y) - (y * y + x * x) == 2 * (x * y)
  {
    Distribute(x + y, x, y);
    Distribute(x, x, y);
    Distribute(y, x, y);
  }

  method GeP1p1ToP2(p: P1p1) returns (r: P2)
    requires p.InBounds()
    ensures r.InBounds()
    ensures forall x, y :: p.Is(x, y) ==> r.Is(x, y)
  {
    var X := FeMul(p.X, p.T);
    var Y := FeMul(p.Y, p.Z);
    var Z := FeMul(p.Z, p.T);
    r := P2(X, Y, Z);
    forall x, y | p.Is(x, y) ensures r.Is(x, y) {
      Completed(Value(p.X), Value(p.Z), Value(p.T), x, Value(X), Value(Z));
      Completed(Value(p.Y), Value(p.T), Value(p.Z), y, Value(Y), Value(Z));
      UnitProduct(Value(p.Z), Value(p.T));
      UnitSame(Value(Z), Value(p.Z) * Value(p.T));
    }
  }

  method GeP1p1ToP3(p: P1p1) returns (r: P3)
    requires p.InBounds()
    ensures r.InBounds()
    ensures forall x, y :: p.Is(x, y) ==> r.Is(x, y)
  {
    hide Eq;
    Congruence();
    var X := FeMul(p.X, p.T);
    var Y := FeMul(p.Y, p.Z);
    var Z := FeMul(p.Z, p.T);
    var T := FeMul(p.X, p.Y);
    r := P3(X, Y, Z, T);
    forall x, y | p.Is(x, y) ensures r.Is(x, y) {
      Completed(Value(p.X), Value(p.Z), Value(p.T), x, Value(X), Value(Z));
      Completed(Value(p.Y), Value(p.T), Value(p.Z), y, Value(Y), Value(Z));
      EqProduct(Value(p.X), x * Value(p.Z), Value(p.Y), y * Value(p.T));
      EqProduct(x * y, x * y, Value(Z), Value(p.Z) * Value(p.T));
      Regroup(x, Value(p.Z), y, Value(p.T));
      UnitProduct(Value(p.Z), Value(p.T));
      UnitSame(Value(Z), Value(p.Z) * Value(p.T));
    }
  }

  /** From u = x z: u t = x (z t), for the products the code computes. */
  lemma Completed(u: int, z: int, t: int, x: int, ut: int, zt: int)
    requires Eq(u, x * z) && Eq(ut, u * t) && Eq(zt, z * t)
    ensures Eq(ut, x * zt)
  {
    hide Eq;
    Congruence();
    EqProduct(u, x * z, t, t);
    EqProduct(x, x, zt, z * t);
    assert (x * z) * t == x * (z * t);
  }

  method GeP3ToCached(p: P3) returns (r: Cached)
    requires p.InBounds()
    ensures r.InBounds() && r.Z == p.Z
    ensures forall x, y :: p.Is(x, y) ==> r.Is(x, y)
  {
    hide Value;
    CurveConstants();
    var YplusX := FeAdd(p.Y, p.X, TIGHT, TIGHT);
    var YminusX := FeSub(p.Y, p.X, TIGHT, TIGHT);
    var T2d := FeMul(p.T, FE_D2);
    r := Cached(YplusX, YminusX, p.Z, T2d);
    forall x, y | p.Is(x, y) ensures r.Is(x, y) {
      var z := Value(p.Z);
      ScaledSums(Value(p.Y), y, Value(p.X), x, z);
      TwiceTerm(Value(T2d), Value(p.T), Value(FE_D2), x * y, z);
    }
  }

  lemma TwiceTerm(t2d: int, t: int, d2: int, xy: int, z: int)
    requires Eq(t2d, t * d2) && Eq(t, xy * z) && Eq(d2, 2 * D)
    ensures Eq(t2d, (2 * D * xy) * z)
  {
    hide Eq;
    Congruence();
    EqProduct(t, xy * z, d2, 2 * D);
    assert (xy * z) * (2 * D) == (2 * D * xy) * z;
  }

  function GeP3ToP2(p: P3): (r: P2)
    ensures p.InBounds() ==> r.InBounds()
    ensures forall x, y :: p.Is(x, y) ==> r.Is(x, y)
  {
    P2(p.X, p.Y, p.Z)
  }

  // The addition law of the curve, section 5.1.4 of RFC 8032, in affine coordinates modulo p:
  // x3 (1 + k) = x1 y2 + x2 y1 and y3 (1 - k) = y1 y2 + x1 x2, for k = d x1 x2 y1 y2.

  function Cross(x1: int, y1: int, x2: int, y2: int): int { D * ((x1 * y1) * (x2 * y2)) }

  ghost predicate SumOf(x1: int, y1: int, x2: int, y2: int, x3: int, y3: int) {
    && Eq(x3 * (1 + Cross(x1, y1, x2, y2)), x1 * y2 + x2 * y1)
    && Eq(y3 * (1 - Cross(x1, y1, x2, y2)), y1 * y2 + x1 * x2)
  }

  /** The denominators of the sum are invertible, as they are for any two points of the curve. */
  ghost predicate Complete(x1: int, y1: int, x2: int, y2: int) {
    Unit(1 + Cross(x1, y1, x2, y2)) && Unit(1 - Cross(x1, y1, x2, y2))
  }

  /** A denominator over a scale is invertible with both. */
  lemma ScaledUnit(z: int, d: int, w: int)
    requires Eq(z, (2 * d) * w) && Unit(d) && Unit(w)
    ensures Unit(z)
  {
    SmallUnits();
    UnitProduct(2, d);
    UnitProduct(2 * d, w);
    UnitSame(z, (2 * d) * w);
  }

  ghost predicate OnCurve(x: int, y: int) { Eq(y * y - x * x, 1 + D * ((x * y) * (x * y))) }

  /** (u1 z1) (u2 z2), for coordinates scaled by z1 and z2. */
  lemma ScaledProduct(a: int, u1: int, z1: int, b: int, u2: int, z2: int)
    requires Eq(a, u1 * z1) && Eq(b, u2 * z2)
    ensures Eq(a * b, (u1 * u2) * (z1 * z2))
  {
    EqProduct(a, u1 * z1, b, u2 * z2);
    Regroup(u1, z1, u2, z2);
  }

  lemma ScaledSums(b: int, v: int, a: int, u: int, z: int)
    requires Eq(b, v * z) && Eq(a, u * z)
    ensures Eq(b + a, (v + u) * z) && Eq(b - a, (v - u) * z)
  {
    EqLinear(b, v * z, a, u * z);
    Differences(v, u, z);
  }

  lemma Differences(v: int, u: int, z: int)
    ensures (v + u) * z == v * z + u * z && (v - u) * z == v * z - u * z
  {
  }

  /** The two products of sums and differences, in affine coordinates. */
  lemma AffineXY(X: int, Y: int, z1: int, x1: int, y1: int, u: int, v: int, z2: int, x2: int, y2: int, w: int)
    requires Eq(X, x1 * z1) && Eq(Y, y1 * z1) && Eq(u, (y2 + x2) * z2) && Eq(v, (y2 - x2) * z2) && w == z1 * z2
    ensures Eq((Y + X) * u - (Y - X) * v, (2 * (x1 * y2 + x2 * y1)) * w)
    ensures Eq((Y + X) * u + (Y - X) * v, (2 * (y1 * y2 + x1 * x2)) * w)
  {
    ScaledSums(Y, y1, X, x1, z1);
    ScaledProduct(Y + X, y1 + x1, z1, u, y2 + x2, z2);
    ScaledProduct(Y - X, y1 - x1, z1, v, y2 - x2, z2);
    ScaledSums((Y + X) * u, (y1 + x1) * (y2 + x2), (Y - X) * v, (y1 - x1) * (y2 - x2), w);
    SumsAndDifferences(x1, y1, x2, y2);
  }

  lemma SumsAndDifferences(x1: int, y1: int, x2: int, y2: int)
    ensures (y1 + x1) * (y2 + x2) - (y1 - x1) * (y2 - x2) == 2 * (x1 * y2 + x2 * y1)
    ensures (y1 + x1) * (y2 + x2) + (y1 - x1) * (y2 - x2) == 2 * (y1 * y2 + x1 * x2)
  {
  }

  /** The two products of Z and T coordinates, in affine coordinates. */
  lemma AffineZT(T: int, z1: int, x1: int, y1: int, t2d: int, z2: int, x2: int, y2: int, w: int)
    requires Eq(T, (x1 * y1) * z1) && Eq(t2d, (2 * D * (x2 * y2)) * z2) && w == z1 * z2
    ensures Eq(2 * w + t2d * T, (2 * (1 + Cross(x1, y1, x2, y2))) * w)
    ensures Eq(2 * w - t2d * T, (2 * (1 - Cross(x1, y1, x2, y2))) * w)
  {
    hide Eq;
    Congruence();
    ScaledProduct(t2d, 2 * D * (x2 * y2), z2, T, x1 * y1, z1);
    var k := 2 * D * (x2 * y2) * (x1 * y1);
    CrossTwice(x1 * y1, x2 * y2);
    ScaledSums(2 * w, 2, t2d * T, k, w);
  }

  lemma CrossTwice(u: int, v: int)
    ensures 2 * D * v * u == 2 * (D * (u * v))
  {
  }

  /** Every coordinate of a sum, in affine coordinates. */
  lemma AddedAffine(p: P3, x1: int, y1: int, yplusx: Fe, yminusx: Fe, z2: int, t2d: Fe, x2: int, y2: int, r: P1p1)
    requires p.Is(x1, y1) && Added(p, yplusx, yminusx, z2, t2d, r)
    requires Eq(Value(yplusx), (y2 + x2) * z2) && Eq(Value(yminusx), (y2 - x2) * z2)
    requires Eq(Value(t2d), (2 * D * (x2 * y2)) * z2)
    ensures var w := Value(p.Z) * z2;
      && Eq(Value(r.X), (2 * (x1 * y2 + x2 * y1)) * w) && Eq(Value(r.Z), (2 * (1 + Cross(x1, y1, x2, y2))) * w)
      && Eq(Value(r.Y), (2 * (y1 * y2 + x1 * x2)) * w) && Eq(Value(r.T), (2 * (1 - Cross(x1, y1, x2, y2))) * w)
  {
    hide Eq;
    Congruence();
    var z1 := Value(p.Z);
    var w := z1 * z2;
    AffineXY(Value(p.X), Value(p.Y), z1, x1, y1, Value(yplusx), Value(yminusx), z2, x2, y2, w);
    AffineZT(Value(p.T), z1, x1, y1, Value(t2d), z2, x2, y2, w);
  }

  /** A completed point with scaled numerator and denominator of x3 has x3 = X/Z. */
  lemma Quotient(u: int, n: int, z: int, d: int, w: int, x3: int)
    requires Eq(u, (2 * n) * w) && Eq(z, (2 * d) * w) && Eq(x3 * d, n)
    ensures Eq(u, x3 * z)
  {
    hide Eq;
    Congruence();
    EqProduct(x3 * d, n, 2 * w, 2 * w);
    EqProduct(x3, x3, z, (2 * d) * w);
    assert (x3 * d) * (2 * w) == x3 * ((2 * d) * w);
    assert n * (2 * w) == (2 * n) * w;
  }

  /** ge_add and ge_madd return the sum the curve's addition law gives. */
  lemma AdditionLaw(p: P3, x1: int, y1: int, q: Cached, x2: int, y2: int, r: P1p1, x3: int, y3: int)
    requires p.Is(x1, y1) && q.Is(x2, y2) && Added(p, q.YplusX, q.YminusX, Value(q.Z), q.T2d, r)
    requires SumOf(x1, y1, x2, y2, x3, y3) && Complete(x1, y1, x2, y2)
    ensures r.Is(x3, y3)
  {
    AddedAffine(p, x1, y1, q.YplusX, q.YminusX, Value(q.Z), q.T2d, x2, y2, r);
    var w, k := Value(p.Z) * Value(q.Z), Cross(x1, y1, x2, y2);
    Quotient(Value(r.X), x1 * y2 + x2 * y1, Value(r.Z), 1 + k, w, x3);
    Quotient(Value(r.Y), y1 * y2 + x1 * x2, Value(r.T), 1 - k, w, y3);
    UnitProduct(Value(p.Z), Value(q.Z));
    ScaledUnit(Value(r.Z), 1 + k, w);
    ScaledUnit(Value(r.T), 1 - k, w);
  }

  /** ge_sub and ge_msub return the sum with (-x2, y2), the negative of (x2, y2). */
  lemma SubtractionLaw(p: P3, x1: int, y1: int, q: Cached, x2: int, y2: int, r: P1p1, x3: int, y3: int)
    requires p.Is(x1, y1) && q.Is(x2, y2)
    requires Added(p, q.YminusX, q.YplusX, Value(q.Z), q.T2d, r.(Z := r.T, T := r.Z))
    requires SumOf(x1, y1, -x2, y2, x3, y3) && Complete(x1, y1, -x2, y2)
    ensures r.Is(x3, y3)
  {
    hide Eq;
    Congruence();
    var w, k := Value(p.Z) * Value(q.Z), Cross(x1, y1, x2, y2);
    AffineXY(Value(p.X), Value(p.Y), Value(p.Z), x1, y1, Value(q.YminusX), Value(q.YplusX), Value(q.Z), -x2, y2, w);
    AffineZT(Value(p.T), Value(p.Z), x1, y1, Value(q.T2d), Value(q.Z), x2, y2, w);
    assert Cross(x1, y1, -x2, y2) == -k by { NegatedCross(x1 * y1, x2, y2); }
    Quotient(Value(r.X), x1 * y2 + -x2 * y1, Value(r.Z), 1 - k, w, x3);
    Quotient(Value(r.Y), y1 * y2 + x1 * -x2, Value(r.T), 1 + k, w, y3);
    UnitProduct(Value(p.Z), Value(q.Z));
    ScaledUnit(Value(r.Z), 1 - k, w);
    ScaledUnit(Value(r.T), 1 + k, w);
  }

  lemma NegatedCross(u: int, x: int, y: int)
    ensures D * (u * (-x * y)) == -(D * (u * (x * y)))
  {
    assert -x * y == -(x * y);
    assert u * -(x * y) == -(u * (x * y));
  }

  /** A table entry is a cached point with Z = 1. */
  lemma AdditionLawAffine(p: P3, x1: int, y1: int, q: Precomp, x2: int, y2: int, r: P1p1, x3: int, y3: int)
    requires p.Is(x1, y1) && q.Is(x2, y2) && Added(p, q.yplusx, q.yminusx, 1, q.xy2d, r)
    requires SumOf(x1, y1, x2, y2, x3, y3) && Complete(x1, y1, x2, y2)
    ensures r.Is(x3, y3)
  {
    SmallConstants();
    SmallUnits();
    AdditionLaw(p, x1, y1, Cached(q.yplusx, q.yminusx, ONE, q.xy2d), x2, y2, r, x3, y3);
  }

  lemma SubtractionLawAffine(p: P3, x1: int, y1: int, q: Precomp, x2: int, y2: int, r: P1p1, x3: int, y3: int)
    requires p.Is(x1, y1) && q.Is(x2, y2)
    requires Added(p, q.yminusx, q.yplusx, 1, q.xy2d, r.(Z := r.T, T := r.Z))
    requires SumOf(x1, y1, -x2, y2, x3, y3) && Complete(x1, y1, -x2, y2)
    ensures r.Is(x3, y3)
  {
    SmallConstants();
    SmallUnits();
    SubtractionLaw(p, x1, y1, Cached(q.yplusx, q.yminusx, ONE, q.xy2d), x2, y2, r, x3, y3);
  }

  ghost predicate Doubled(p: P2, r: P1p1) {
    && Eq(Value(r.X), 2 * (Value(p.X) * Value(p.Y)))
    && Eq(Value(r.Y), Value(p.Y) * Value(p.Y) + Value(p.X) * Value(p.X))
    && Eq(Value(r.Z), Value(p.Y) * Value(p.Y) - Value(p.X) * Value(p.X))
    && Eq(Value(r.T), 2 * (Value(p.Z) * Value(p.Z)) - (Value(p.Y) * Value(p.Y) - Value(p.X) * Value(p.X)))
  }

  /** On the curve, ge_p2_dbl returns the sum of the point with itself. */
  lemma DoublingLaw(p: P2, x: int, y: int, r: P1p1, x3: int, y3: int)
    requires p.Is(x, y) && OnCurve(x, y) && Doubled(p, r) && SumOf(x, y, x, y, x3, y3) && Complete(x, y, x, y)
    ensures r.Is(x3, y3)
  {
    hide Eq;
    Congruence();
    var z := Value(p.Z);
    var w, k := z * z, Cross(x, y, x, y);
    ScaledProduct(Value(p.X), x, z, Value(p.Y), y, z);
    ScaledProduct(Value(p.X), x, z, Value(p.X), x, z);
    ScaledProduct(Value(p.Y), y, z, Value(p.Y), y, z);
    DoubledAffine(x, y, w, k, Value(p.X) * Value(p.Y), Value(p.X) * Value(p.X), Value(p.Y) * Value(p.Y));
    ExactQuotient(Value(r.X), x * y + x * y, Value(r.Z), 1 + k, w, x3);
    ExactQuotient(Value(r.Y), y * y + x * x, Value(r.T), 1 - k, w, y3);
    UnitProduct(z, z);
    UnitProduct(1 + k, w);
    UnitProduct(1 - k, w);
    UnitSame(Value(r.Z), (1 + k) * w);
    UnitSame(Value(r.T), (1 - k) * w);
  }

  lemma DoubledAffine(x: int, y: int, w: int, k: int, xy: int, xx: int, yy: int)
    requires Eq(xy, (x * y) * w) && Eq(xx, (x * x) * w) && Eq(yy, (y * y) * w)
    requires Eq(y * y - x * x, 1 + k)
    ensures Eq(2 * xy, (x * y + x * y) * w) && Eq(yy + xx, (y * y + x * x) * w)
    ensures Eq(yy - xx, (1 + k) * w) && Eq(2 * w - (yy - xx), (1 - k) * w)
  {
    hide Eq;
    Congruence();
    ScaledSums(xy, x * y, xy, x * y, w);
    ScaledSums(yy, y * y, xx, x * x, w);
    EqProduct(y * y - x * x, 1 + k, w, w);
    ScaledSums(2 * w, 2, yy - xx, 1 + k, w);
  }

  lemma ExactQuotient(u: int, n: int, z: int, d: int, w: int, x3: int)
    requires Eq(u, n * w) && Eq(z, d * w) && Eq(x3 * d, n)
    ensures Eq(u, x3 * z)
  {
    hide Eq;
    Congruence();
    EqProduct(x3 * d, n, w, w);
    EqProduct(x3, x3, z, d * w);
    assert (x3 * d) * w == x3 * (d * w);
  }

  lemma NegatedTerm(t: int, x: int, y: int, z: int)
    requires Eq(t, (2 * D * (x * y)) * z)
    ensures Eq(-t, (2 * D * (-x * y)) * z)
  {
    hide Eq;
    Congruence();
    EqLinear(0, 0, t, (2 * D * (x * y)) * z);
    assert -x * y == -(x * y);
    assert 2 * D * -(x * y) == -(2 * D * (x * y));
    assert -(2 * D * (x * y)) * z == -((2 * D * (x * y)) * z);
  }

  /** minust in select: the sum and difference exchanged and the product negated stand for the negative of the point. */
  method MinusPrecomp(q: Precomp) returns (m: Precomp)
    requires q.InBounds()
    ensures m.InBounds()
    ensures forall x, y :: q.Is(x, y) ==> m.Is(-x, y)
  {
    m := Precomp(q.yminusx, q.yplusx, FeNeg(q.xy2d, TIGHT));
    forall x, y | q.Is(x, y) ensures m.Is(-x, y) {
      NegatedTerm(Value(q.xy2d), x, y, 1);
    }
  }

  /** minuscur in ge_scalarmult. */
  method MinusCached(q: Cached) returns (m: Cached)
    requires q.InBounds()
    ensures m.InBounds() && m.Z == q.Z
    ensures forall x, y :: q.Is(x, y) ==> m.Is(-x, y)
  {
    m := Cached(q.YminusX, q.YplusX, q.Z, FeNeg(q.T2d, TIGHT));
    forall x, y | q.Is(x, y) ensures m.Is(-x, y) {
      NegatedTerm(Value(q.T2d), x, y, Value(q.Z));
    }
  }
}
