// ge_double_scalarmult_base_vartime on limbs: the loop of ScalarMult with the point operations of CurvePoints in it.

module PointLoops {
  import opened ByteStrings
  import opened CurvePoints
  import opened FieldElements
  import opened Groups
  import opened ScalarMult
  import opened SlidingWindow

  // ---- The group as the points of the curve ----

  // Affine coordinates of each element, as integers read modulo p.
  datatype Chart<!P> = Chart(x: P -> int, y: P -> int)

  /** The group's sum of a and b is the curve's, with invertible denominators. */
  ghost predicate AddsAt<P>(g: Group<P>, c: Chart<P>, a: P, b: P) {
    var s := g.add(a, b);
    && SumOf(c.x(a), c.y(a), c.x(b), c.y(b), c.x(s), c.y(s))
    && Complete(c.x(a), c.y(a), c.x(b), c.y(b))
  }

  ghost predicate PointAt<P>(g: Group<P>, c: Chart<P>, a: P) {
    OnCurve(c.x(a), c.y(a)) && c.x(g.neg(a)) == -c.x(a) && c.y(g.neg(a)) == c.y(a)
  }

  /** The premise: the group is the curve under its complete addition law. */
  ghost predicate Charts<P(!new)>(g: Group<P>, c: Chart<P>) {
    && (forall a, b :: AddsAt(g, c, a, b)) && (forall a :: PointAt(g, c, a))
    && c.x(g.zero) == 0 && c.y(g.zero) == 1
  }

  /** It holds of the two points (0, 1) and (0, -1), so it is no contradiction. */
  lemma ChartsHold()
    ensures Charts(Group((a: bool, b: bool) => a != b, (a: bool) => a, false),
      Chart((a: bool) => 0, (a: bool) => if a then -1 else 1))
  {
    hide Eq;
    Congruence();
    SmallUnits();
  }

  // ---- Representations of an element ----

  ghost predicate StandsP2<P>(c: Chart<P>, r: P2, a: P) { r.InBounds() && r.Is(c.x(a), c.y(a)) }

  ghost predicate StandsP3<P>(c: Chart<P>, r: P3, a: P) { r.InBounds() && r.Is(c.x(a), c.y(a)) }

  ghost predicate StandsP1p1<P>(c: Chart<P>, r: P1p1, a: P) { r.InBounds() && r.Is(c.x(a), c.y(a)) }

  ghost predicate StandsCached<P>(c: Chart<P>, r: Cached, a: P) { r.InBounds() && r.Is(c.x(a), c.y(a)) }

  ghost predicate StandsPrecomp<P>(c: Chart<P>, r: Precomp, a: P) { r.InBounds() && r.Is(c.x(a), c.y(a)) }

  /** Tables of x, 3x, .., 15x in cached and in affine form. */
  ghost predicate CachedOdds<P>(g: Group<P>, c: Chart<P>, table: seq<Cached>, x: P) {
    |table| == 8 && forall j :: 0 <= j < 8 ==> StandsCached(c, table[j], Times(g, 2 * j + 1, x))
  }

  ghost predicate AffineOdds<P>(g: Group<P>, c: Chart<P>, table: seq<Precomp>, x: P) {
    |table| == 8 && forall j :: 0 <= j < 8 ==> StandsPrecomp(c, table[j], Times(g, 2 * j + 1, x))
  }

  // ---- One operation each ----

  method AddCached<P(!new)>(ghost g: Group<P>, ghost c: Chart<P>, u: P3, q: Cached, ghost a: P, ghost b: P)
    returns (t: P1p1)
    requires Charts(g, c) && StandsP3(c, u, a) && StandsCached(c, q, b)
    ensures StandsP1p1(c, t, g.add(a, b))
  {
    hide Added, SumOf, Complete, Value, Eq, Bounded;
    t := GeAdd(u, q);
    assert AddsAt(g, c, a, b);
    AdditionLaw(u, c.x(a), c.y(a), q, c.x(b), c.y(b), t, c.x(g.add(a, b)), c.y(g.add(a, b)));
  }

  method SubCached<P(!new)>(ghost g: Group<P>, ghost c: Chart<P>, u: P3, q: Cached, ghost a: P, ghost b: P)
    returns (t: P1p1)
    requires Charts(g, c) && StandsP3(c, u, a) && StandsCached(c, q, b)
    ensures StandsP1p1(c, t, Minus(g, a, b))
  {
    hide Added, SumOf, Complete, Value, Eq, Bounded;
    t := GeSub(u, q);
    assert AddsAt(g, c, a, g.neg(b)) && PointAt(g, c, b);
    SubtractionLaw(u, c.x(a), c.y(a), q, c.x(b), c.y(b), t, c.x(Minus(g, a, b)), c.y(Minus(g, a, b)));
  }

  method AddPrecomp<P(!new)>(ghost g: Group<P>, ghost c: Chart<P>, u: P3, q: Precomp, ghost a: P, ghost b: P)
    returns (t: P1p1)
    requires Charts(g, c) && StandsP3(c, u, a) && StandsPrecomp(c, q, b)
    ensures StandsP1p1(c, t, g.add(a, b))
  {
    hide Added, SumOf, Complete, Value, Eq, Bounded;
    t := GeMadd(u, q);
    assert AddsAt(g, c, a, b);
    AdditionLawAffine(u, c.x(a), c.y(a), q, c.x(b), c.y(b), t, c.x(g.add(a, b)), c.y(g.add(a, b)));
  }

  method SubPrecomp<P(!new)>(ghost g: Group<P>, ghost c: Chart<P>, u: P3, q: Precomp, ghost a: P, ghost b: P)
    returns (t: P1p1)
    requires Charts(g, c) && StandsP3(c, u, a) && StandsPrecomp(c, q, b)
    ensures StandsP1p1(c, t, Minus(g, a, b))
  {
    hide Added, SumOf, Complete, Value, Eq, Bounded;
    t := GeMsub(u, q);
    assert AddsAt(g, c, a, g.neg(b)) && PointAt(g, c, b);
    SubtractionLawAffine(u, c.x(a), c.y(a), q, c.x(b), c.y(b), t, c.x(Minus(g, a, b)), c.y(Minus(g, a, b)));
  }

  method DoubleP2<P(!new)>(ghost g: Group<P>, ghost c: Chart<P>, r: P2, ghost a: P) returns (t: P1p1)
    requires Charts(g, c) && StandsP2(c, r, a)
    ensures StandsP1p1(c, t, g.add(a, a))
  {
    hide Doubled, SumOf, Complete, OnCurve, Value, Eq, Bounded;
    t := GeP2Dbl(r);
    assert AddsAt(g, c, a, a) && PointAt(g, c, a);
    DoublingLaw(r, c.x(a), c.y(a), t, c.x(g.add(a, a)), c.y(g.add(a, a)));
  }

  // ---- The table and the loop ----

  /** ge_dsm_precomp */
  method CachedTable<P(!new)>(ghost g: Group<P>, ghost c: Chart<P>, s: P3, ghost x: P) returns (table: seq<Cached>)
    requires IsAbelian(g) && Charts(g, c) && StandsP3(c, s, x)
    ensures CachedOdds(g, c, table, x)
  {
    hide Times, IsAbelian, Charts, Value, Bounded, Eq, Unit;
    NextOdd(g, 0, x);
    var first := GeP3ToCached(s);
    table := [first];
    var t := DoubleP2(g, c, GeP3ToP2(s), x);
    var s2 := GeP1p1ToP3(t);
    for i := 0 to 7
      invariant |table| == i + 1
      invariant forall j :: 0 <= j <= i ==> StandsCached(c, table[j], Times(g, 2 * j + 1, x))
    {
      t := AddCached(g, c, s2, table[i], g.add(x, x), Times(g, 2 * i + 1, x));
      NextOdd(g, i, x);
      var u := GeP1p1ToP3(t);
      var next := GeP3ToCached(u);
      table := table + [next];
    }
  }

  /** The branches on a digit of the first scalar. */
  method AddCachedDigit<P(!new)>(ghost g: Group<P>, ghost c: Chart<P>, t: P1p1, d: int8, table: seq<Cached>,
      ghost a: P, ghost x: P) returns (t': P1p1)
    requires IsAbelian(g) && Charts(g, c) && OddDigit(d) && CachedOdds(g, c, table, x) && StandsP1p1(c, t, a)
    ensures StandsP1p1(c, t', g.add(a, Times(g, d as int, x)))
  {
    hide Times, IsAbelian, Charts, Value, Bounded, Eq, Unit;
    t' := t;
    if d > 0 {
      assert 2 * (d / 2) + 1 == d;
      var u := GeP1p1ToP3(t);
      t' := AddCached(g, c, u, table[d / 2], a, Times(g, d as int, x));
    } else if d < 0 {
      assert 2 * (-d / 2) + 1 == -d;
      var u := GeP1p1ToP3(t);
      t' := SubCached(g, c, u, table[-d / 2], a, Times(g, -d as int, x));
      TimesNeg(g, -d as int, x);
    } else {
      NoDigit(g, a, x);
    }
  }

  /** The branches on a digit of the second scalar. */
  method AddAffineDigit<P(!new)>(ghost g: Group<P>, ghost c: Chart<P>, t: P1p1, d: int8, table: seq<Precomp>,
      ghost a: P, ghost x: P) returns (t': P1p1)
    requires IsAbelian(g) && Charts(g, c) && OddDigit(d) && AffineOdds(g, c, table, x) && StandsP1p1(c, t, a)
    ensures StandsP1p1(c, t', g.add(a, Times(g, d as int, x)))
  {
    hide Times, IsAbelian, Charts, Value, Bounded, Eq, Unit;
    t' := t;
    if d > 0 {
      assert 2 * (d / 2) + 1 == d;
      var u := GeP1p1ToP3(t);
      t' := AddPrecomp(g, c, u, table[d / 2], a, Times(g, d as int, x));
    } else if d < 0 {
      assert 2 * (-d / 2) + 1 == -d;
      var u := GeP1p1ToP3(t);
      t' := SubPrecomp(g, c, u, table[-d / 2], a, Times(g, -d as int, x));
      TimesNeg(g, -d as int, x);
    } else {
      NoDigit(g, a, x);
    }
  }

  lemma NoDigit<P(!new)>(g: Group<P>, a: P, x: P)
    requires IsAbelian(g)
    ensures g.add(a, Times(g, 0, x)) == a
  {
    Laws(g, a, a, a);
  }

  /** One position: doubled, then each digit's multiple added. */
  method LimbStep<P(!new)>(ghost g: Group<P>, ghost c: Chart<P>, r: P2, d: int8, ai: seq<Cached>, e: int8,
      bi: seq<Precomp>, ghost k: int, ghost x: P, ghost l: int, ghost y: P) returns (r': P2)
    requires IsAbelian(g) && Charts(g, c) && OddDigit(d) && OddDigit(e)
    requires CachedOdds(g, c, ai, x) && AffineOdds(g, c, bi, y) && StandsP2(c, r, Sum2(g, k, x, l, y))
    ensures StandsP2(c, r', Sum2(g, 2 * k + d as int, x, 2 * l + e as int, y))
  {
    hide Times, Sum2, IsAbelian, Charts, OddDigit, CachedOdds, AffineOdds, Value, Bounded, Eq, Unit;
    ghost var s := Sum2(g, k, x, l, y);
    var t := DoubleP2(g, c, r, s);
    t := AddCachedDigit(g, c, t, d, ai, g.add(s, s), x);
    t := AddAffineDigit(g, c, t, e, bi, g.add(g.add(s, s), Times(g, d as int, x)), y);
    Sum2Step(g, k, x, l, y, d as int, e as int);
    r' := GeP1p1ToP2(t);
  }

  /** ge_p2_0 */
  method Neutral<P(!new)>(ghost g: Group<P>, ghost c: Chart<P>) returns (r: P2)
    requires Charts(g, c)
    ensures StandsP2(c, r, g.zero)
  {
    hide Eq;
    Congruence();
    SmallConstants();
    SmallUnits();
    r := P2(ZERO, ONE, ONE);
  }

  /** The loop, on limbs: within bounds at every step, and standing for the sum of both multiples at the end. */
  method LimbLoop<P(!new)>(ghost g: Group<P>, ghost c: Chart<P>, aslide: seq<int8>, ai: seq<Cached>, bslide: seq<int8>,
      bi: seq<Precomp>, ghost x: P, ghost y: P) returns (r: P2)
    requires IsAbelian(g) && Charts(g, c) && Slides(aslide) && Slides(bslide)
    requires CachedOdds(g, c, ai, x) && AffineOdds(g, c, bi, y)
    ensures StandsP2(c, r, Sum2(g, DigitsFrom(aslide, 0), x, DigitsFrom(bslide, 0), y))
  {
    hide Times, Naf, DigitsFrom, Sum2, Sum3, IsAbelian, Charts, CachedOdds, AffineOdds, StandsP2;
    r := Neutral(g, c);
    SumZero(g, x, y, x);
    NoDigits(aslide);
    NoDigits(bslide);
    var i := 255;
    while i >= 0 && aslide[i] == 0 && bslide[i] == 0
      invariant -1 <= i < 256 && DigitsFrom(aslide, i + 1) == 0 == DigitsFrom(bslide, i + 1)
    {
      DigitFits(aslide, i);
      DigitFits(bslide, i);
      i := i - 1;
    }
    while i >= 0
      invariant -1 <= i < 256
      invariant StandsP2(c, r, Sum2(g, DigitsFrom(aslide, i + 1), x, DigitsFrom(bslide, i + 1), y))
    {
      DigitFits(aslide, i);
      DigitFits(bslide, i);
      r := LimbStep(g, c, r, aslide[i], ai, bslide[i], bi, DigitsFrom(aslide, i + 1), x, DigitsFrom(bslide, i + 1), y);
      i := i - 1;
    }
  }

  /** ge_double_scalarmult_base_vartime, from the limbs of A to the limbs of aA + bB. */
  method LimbDoubleScalarmultBase<P(!new)>(ghost g: Group<P>, ghost c: Chart<P>, a: seq<byte>, A: P3, b: seq<byte>,
      bi: seq<Precomp>, ghost x: P, ghost base: P) returns (r: P2)
    requires IsAbelian(g) && Charts(g, c) && |a| == 32 == |b| && StandsP3(c, A, x) && AffineOdds(g, c, bi, base)
    ensures StandsP2(c, r, Sum2(g, Slid(a), x, Slid(b), base))
    ensures a[31] <= 127 && b[31] <= 127 ==>
      var sum := Sum2(g, Le(a), x, Le(b), base); r.InBounds() && r.Is(c.x(sum), c.y(sum))
  {
    hide Times, Sum2, IsAbelian, Charts, StandsP3;
    var aslide := SlidDigits(a);
    var bslide := SlidDigits(b);
    var ai := CachedTable(g, c, A, x);
    r := LimbLoop(g, c, aslide, ai, bslide, bi, x, base);
  }
}
