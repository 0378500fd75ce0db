// The multi-scalar loops over an abstract abelian group of points.
// add and neg stand for the curve operations whose formulas and limb bounds are proved in CurvePoints.

module ScalarMult {
  import opened Wrappers
  import opened ByteStrings
  import opened Groups
  import opened SlidingWindow

  /** A table of x, 3x, .., 15x. */
  ghost predicate OddMultiples<P(!new)>(g: Group<P>, table: seq<P>, x: P) {
    |table| == 8 && forall j :: 0 <= j < 8 ==> table[j] == Times(g, 2 * j + 1, x)
  }

  lemma NextOdd<P(!new)>(g: Group<P>, j: nat, x: P)
    requires IsAbelian(g)
    ensures g.add(g.add(x, x), Times(g, 2 * j + 1, x)) == Times(g, 2 * j + 3, x)
    ensures Times(g, 1, x) == x
  {
    TimesOne(g, x);
    TimesSum(g, 1, 1, x);
    TimesSum(g, 2, 2 * j + 1, x);
  }

  /** Zero, or odd and small enough for a table of odd multiples. */
  predicate OddDigit(d: int8) { d != 0 ==> d % 2 == 1 && -15 <= d <= 15 }

  /** ge_dsm_precomp: each entry is twice s plus the one before. */
  method DsmPrecomp<P(!new)>(g: Group<P>, r: array<P>, s: P)
    requires IsAbelian(g) && r.Length == 8
    modifies r
    ensures OddMultiples(g, r[..], s)
  {
    NextOdd(g, 0, s);
    r[0] := s;
    var s2 := g.add(s, s);
    for j := 0 to 7
      invariant forall k :: 0 <= k <= j ==> r[k] == Times(g, 2 * k + 1, s)
    {
      NextOdd(g, j, s);
      r[j + 1] := g.add(s2, r[j]);
    }
  }

  /** The branches on one digit: the table entry |d| / 2 added, subtracted or left out. */
  method AddDigit<P(!new)>(g: Group<P>, t: P, d: int8, table: seq<P>, ghost x: P) returns (u: P)
    requires IsAbelian(g) && OddMultiples(g, table, x)
    requires OddDigit(d)
    ensures u == g.add(t, Times(g, d as int, x))
  {
    if d > 0 {
      assert 2 * (d / 2) + 1 == d;
      u := g.add(t, table[d / 2]);
    } else if d < 0 {
      assert 2 * (-d / 2) + 1 == -d;
      u := Minus(g, t, table[-d / 2]);
      TimesNeg(g, -d as int, x);
    } else {
      u := t;
      Laws(g, t, t, t);
    }
  }

  /** Digits usable with a table of odd multiples: what slide writes. */
  predicate Slides(s: seq<int8>) { |s| == 256 && Naf(s) }

  lemma NoDigits(s: seq<int8>)
    requires Slides(s)
    ensures DigitsFrom(s, 256) == 0
  {
  }

  lemma DigitFits(s: seq<int8>, i: nat)
    requires Slides(s) && i < 256
    ensures OddDigit(s[i])
    ensures DigitsFrom(s, i) == 2 * DigitsFrom(s, i + 1) + s[i] as int
  {
    assert NafDigit(s, i);
  }

  /** One position of a double-scalar loop: double, then add each digit's multiple. */
  method DoubleStep<P(!new)>(g: Group<P>, r: P, d: int8, ai: seq<P>, e: int8, bi: seq<P>,
      ghost k: int, ghost x: P, ghost l: int, ghost y: P) returns (t: P)
    requires IsAbelian(g) && OddDigit(d) && OddDigit(e) && OddMultiples(g, ai, x) && OddMultiples(g, bi, y)
    requires r == Sum2(g, k, x, l, y)
    ensures t == Sum2(g, 2 * k + d as int, x, 2 * l + e as int, y)
  {
    t := g.add(r, r);
    t := AddDigit(g, t, d, ai, x);
    t := AddDigit(g, t, e, bi, y);
    Sum2Step(g, k, x, l, y, d as int, e as int);
  }

  /** One position of a triple-scalar loop. */
  method TripleStep<P(!new)>(g: Group<P>, r: P, d: int8, ai: seq<P>, e: int8, bi: seq<P>, f: int8, ci: seq<P>,
      ghost k: int, ghost x: P, ghost l: int, ghost y: P, ghost m: int, ghost z: P) returns (t: P)
    requires IsAbelian(g) && OddDigit(d) && OddDigit(e) && OddDigit(f)
    requires OddMultiples(g, ai, x) && OddMultiples(g, bi, y) && OddMultiples(g, ci, z)
    requires r == Sum3(g, k, x, l, y, m, z)
    ensures t == Sum3(g, 2 * k + d as int, x, 2 * l + e as int, y, 2 * m + f as int, z)
  {
    t := g.add(r, r);
    t := AddDigit(g, t, d, ai, x);
    t := AddDigit(g, t, e, bi, y);
    t := AddDigit(g, t, f, ci, z);
    Sum3Step(g, k, x, l, y, m, z, d as int, e as int, f as int);
  }

  /** The loop of ge_double_scalarmult_base_vartime and ge_double_scalarmult_precomp_vartime2. */
  method DoubleLoop<P(!new)>(g: Group<P>, aslide: seq<int8>, ai: seq<P>, bslide: seq<int8>, bi: seq<P>,
      ghost x: P, ghost y: P) returns (r: P)
    requires IsAbelian(g) && Slides(aslide) && Slides(bslide)
    requires OddMultiples(g, ai, x) && OddMultiples(g, bi, y)
    ensures r == Sum2(g, DigitsFrom(aslide, 0), x, DigitsFrom(bslide, 0), y)
  {
    hide Times, Naf, DigitsFrom, Sum2, Sum3, OddMultiples, IsAbelian;
    r := g.zero;
    SumZero(g, x, y, x);
    NoDigits(aslide);
    NoDigits(bslide);
    var i := 255;
    while i >= 0 && aslide[i] == 0 && bslide[i] == 0
      invariant -1 <= i < 256 && DigitsFrom(aslide, i + 1) == 0 == DigitsFrom(bslide, i + 1)
    {
      DigitFits(aslide, i);
      DigitFits(bslide, i);
      i := i - 1;
    }
    while i >= 0
      invariant -1 <= i < 256
      invariant r == Sum2(g, DigitsFrom(aslide, i + 1), x, DigitsFrom(bslide, i + 1), y)
    {
      DigitFits(aslide, i);
      DigitFits(bslide, i);
      r := DoubleStep(g, r, aslide[i], ai, bslide[i], bi,
        DigitsFrom(aslide, i + 1), x, DigitsFrom(bslide, i + 1), y);
      i := i - 1;
    }
  }

  /**
    The loop of the two _p3 variants, which write their result only at position 0: None is a result left unwritten,
    and that happens exactly when every digit is zero.
    */
  method DoubleLoopP3<P(!new)>(g: Group<P>, aslide: seq<int8>, ai: seq<P>, bslide: seq<int8>, bi: seq<P>,
      ghost x: P, ghost y: P) returns (r3: Option<P>)
    requires IsAbelian(g) && Slides(aslide) && Slides(bslide)
    requires OddMultiples(g, ai, x) && OddMultiples(g, bi, y)
    ensures r3.None? <==> Zeros(aslide, 0, 256) && Zeros(bslide, 0, 256)
    ensures r3.Some? ==> r3.value == Sum2(g, DigitsFrom(aslide, 0), x, DigitsFrom(bslide, 0), y)
  {
    hide Times, Naf, DigitsFrom, Sum2, Sum3, OddMultiples, IsAbelian;
    r3 := None;
    var r := g.zero;
    SumZero(g, x, y, x);
    NoDigits(aslide);
    NoDigits(bslide);
    var i := 255;
    while i >= 0 && aslide[i] == 0 && bslide[i] == 0
      invariant -1 <= i < 256 && DigitsFrom(aslide, i + 1) == 0 == DigitsFrom(bslide, i + 1)
      invariant forall k :: i < k < 256 ==> aslide[k] == 0 == bslide[k]
    {
      DigitFits(aslide, i);
      DigitFits(bslide, i);
      i := i - 1;
    }
    ghost var top := i;
    while i >= 0
      invariant -1 <= i <= top
      invariant i >= 0 ==> r3 == None && r == Sum2(g, DigitsFrom(aslide, i + 1), x, DigitsFrom(bslide, i + 1), y)
      invariant i < 0 <= top ==> r3 == Some(Sum2(g, DigitsFrom(aslide, 0), x, DigitsFrom(bslide, 0), y))
      invariant top < 0 ==> r3 == None
    {
      DigitFits(aslide, i);
      DigitFits(bslide, i);
      var t := DoubleStep(g, r, aslide[i], ai, bslide[i], bi,
        DigitsFrom(aslide, i + 1), x, DigitsFrom(bslide, i + 1), y);
      if i == 0 {
        r3 := Some(t);
      } else {
        r := t;
      }
      i := i - 1;
    }
  }

  /** The loop of ge_triple_scalarmult_base_vartime and ge_triple_scalarmult_precomp_vartime. */
  method TripleLoop<P(!new)>(g: Group<P>, aslide: seq<int8>, ai: seq<P>, bslide: seq<int8>, bi: seq<P>,
      cslide: seq<int8>, ci: seq<P>, ghost x: P, ghost y: P, ghost z: P) returns (r: P)
    requires IsAbelian(g) && Slides(aslide) && Slides(bslide) && Slides(cslide)
    requires OddMultiples(g, ai, x) && OddMultiples(g, bi, y) && OddMultiples(g, ci, z)
    ensures r == Sum3(g, DigitsFrom(aslide, 0), x, DigitsFrom(bslide, 0), y, DigitsFrom(cslide, 0), z)
  {
    hide Times, Naf, DigitsFrom, Sum2, Sum3, OddMultiples, IsAbelian;
    r := g.zero;
    SumZero(g, x, y, z);
    NoDigits(aslide);
    NoDigits(bslide);
    NoDigits(cslide);
    var i := 255;
    while i >= 0 && aslide[i] == 0 && bslide[i] == 0 && cslide[i] == 0
      invariant -1 <= i < 256
      invariant DigitsFrom(aslide, i + 1) == 0 == DigitsFrom(bslide, i + 1) && DigitsFrom(cslide, i + 1) == 0
    {
      DigitFits(aslide, i);
      DigitFits(bslide, i);
      DigitFits(cslide, i);
      i := i - 1;
    }
    while i >= 0
      invariant -1 <= i < 256
      invariant r == Sum3(g, DigitsFrom(aslide, i + 1), x, DigitsFrom(bslide, i + 1), y, DigitsFrom(cslide, i + 1), z)
    {
      DigitFits(aslide, i);
      DigitFits(bslide, i);
      DigitFits(cslide, i);
      r := TripleStep(g, r, aslide[i], ai, bslide[i], bi, cslide[i], ci,
        DigitsFrom(aslide, i + 1), x, DigitsFrom(bslide, i + 1), y, DigitsFrom(cslide, i + 1), z);
      i := i - 1;
    }
  }

  /** A slid scalar on the heap, as the loops read it. */
  method SlidDigits(a: seq<byte>) returns (s: seq<int8>)
    requires |a| == 32
    ensures Slides(s) && DigitsFrom(s, 0) == Slid(a) && (a[31] <= 127 ==> Slid(a) == Le(a))
  {
    var r := new int8[256];
    Slide(r, a);
    s := r[..];
  }

  /** ge_double_scalarmult_base_vartime: aA + bB, where bi is the table of B. */
  method DoubleScalarmultBase<P(!new)>(g: Group<P>, a: seq<byte>, x: P, b: seq<byte>, bi: seq<P>, ghost base: P)
    returns (r: P)
    requires IsAbelian(g) && |a| == 32 == |b| && OddMultiples(g, bi, base)
    ensures r == Sum2(g, Slid(a), x, Slid(b), base)
    ensures a[31] <= 127 && b[31] <= 127 ==> r == Sum2(g, Le(a), x, Le(b), base)
  {
    var aslide := SlidDigits(a);
    var bslide := SlidDigits(b);
    var ai := new P[8](_ => x);
    DsmPrecomp(g, ai, x);
    r := DoubleLoop(g, aslide, ai[..], bslide, bi, x, base);
  }

  /** ge_double_scalarmult_base_vartime_p3: the result is left unwritten exactly when both scalars are zero. */
  method DoubleScalarmultBaseP3<P(!new)>(g: Group<P>, a: seq<byte>, x: P, b: seq<byte>, bi: seq<P>, ghost base: P)
    returns (r3: Option<P>)
    requires IsAbelian(g) && |a| == 32 == |b| && OddMultiples(g, bi, base)
    ensures r3.None? <==> Le(a) == 0 == Le(b)
    ensures r3.Some? ==> r3.value == Sum2(g, Slid(a), x, Slid(b), base)
    ensures a[31] <= 127 ==> Slid(a) == Le(a)
    ensures b[31] <= 127 ==> Slid(b) == Le(b)
  {
    var aslide := SlidDigits(a);
    var bslide := SlidDigits(b);
    SlidZero(aslide, a);
    SlidZero(bslide, b);
    var ai := new P[8](_ => x);
    DsmPrecomp(g, ai, x);
    r3 := DoubleLoopP3(g, aslide, ai[..], bslide, bi, x, base);
  }

  /** ge_double_scalarmult_precomp_vartime2: aX + bY with both tables precomputed. */
  method DoubleScalarmultPrecomp2<P(!new)>(g: Group<P>, a: seq<byte>, ai: seq<P>, b: seq<byte>, bi: seq<P>,
      ghost x: P, ghost y: P) returns (r: P)
    requires IsAbelian(g) && |a| == 32 == |b| && OddMultiples(g, ai, x) && OddMultiples(g, bi, y)
    ensures r == Sum2(g, Slid(a), x, Slid(b), y)
    ensures a[31] <= 127 && b[31] <= 127 ==> r == Sum2(g, Le(a), x, Le(b), y)
  {
    var aslide := SlidDigits(a);
    var bslide := SlidDigits(b);
    r := DoubleLoop(g, aslide, ai, bslide, bi, x, y);
  }

  /** ge_double_scalarmult_precomp_vartime2_p3, which leaves its result unwritten exactly for two zero scalars. */
  method DoubleScalarmultPrecomp2P3<P(!new)>(g: Group<P>, a: seq<byte>, ai: seq<P>, b: seq<byte>, bi: seq<P>,
      ghost x: P, ghost y: P) returns (r3: Option<P>)
    requires IsAbelian(g) && |a| == 32 == |b| && OddMultiples(g, ai, x) && OddMultiples(g, bi, y)
    ensures r3.None? <==> Le(a) == 0 == Le(b)
    ensures r3.Some? ==> r3.value == Sum2(g, Slid(a), x, Slid(b), y)
    ensures a[31] <= 127 ==> Slid(a) == Le(a)
    ensures b[31] <= 127 ==> Slid(b) == Le(b)
  {
    var aslide := SlidDigits(a);
    var bslide := SlidDigits(b);
    SlidZero(aslide, a);
    SlidZero(bslide, b);
    r3 := DoubleLoopP3(g, aslide, ai, bslide, bi, x, y);
  }

  /** ge_double_scalarmult_precomp_vartime: as above, with the table of x made here. */
  method DoubleScalarmultPrecomp<P(!new)>(g: Group<P>, a: seq<byte>, x: P, b: seq<byte>, bi: seq<P>, ghost y: P)
    returns (r: P)
    requires IsAbelian(g) && |a| == 32 == |b| && OddMultiples(g, bi, y)
    ensures r == Sum2(g, Slid(a), x, Slid(b), y)
    ensures a[31] <= 127 && b[31] <= 127 ==> r == Sum2(g, Le(a), x, Le(b), y)
  {
    var ai := new P[8](_ => x);
    DsmPrecomp(g, ai, x);
    r := DoubleScalarmultPrecomp2(g, a, ai[..], b, bi, x, y);
  }

  /** ge_triple_scalarmult_base_vartime (x the base point) and ge_triple_scalarmult_precomp_vartime: aX + bY + cZ. */
  method TripleScalarmult<P(!new)>(g: Group<P>, a: seq<byte>, ai: seq<P>, b: seq<byte>, bi: seq<P>,
      c: seq<byte>, ci: seq<P>, ghost x: P, ghost y: P, ghost z: P) returns (r: P)
    requires IsAbelian(g) && |a| == |b| == |c| == 32
    requires OddMultiples(g, ai, x) && OddMultiples(g, bi, y) && OddMultiples(g, ci, z)
    ensures r == Sum3(g, Slid(a), x, Slid(b), y, Slid(c), z)
    ensures a[31] <= 127 && b[31] <= 127 && c[31] <= 127 ==> r == Sum3(g, Le(a), x, Le(b), y, Le(c), z)
  {
    var aslide := SlidDigits(a);
    var bslide := SlidDigits(b);
    var cslide := SlidDigits(c);
    r := TripleLoop(g, aslide, ai, bslide, bi, cslide, ci, x, y, z);
  }
}
