// ge_scalarmult and ge_scalarmult_base: fixed radix-16 windows with tables of the multiples 1 to 8.

module WindowedMult {
  import opened ByteStrings
  import opened Groups
  import opened Radix16
  import opened SlidingWindow

  /** A table of x, 2x, .., 8x. */
  ghost predicate Multiples<P(!new)>(g: Group<P>, table: seq<P>, x: P) {
    |table| == 8 && forall j :: 0 <= j < 8 ==> table[j] == Times(g, j + 1, x)
  }

  function Cmov<P>(t: P, u: P, b: bool): P { if b then u else t }

  /** The constant-time lookup of select and of the body of ge_scalarmult: the multiple b of the table's element. */
  method Select<P(!new)>(g: Group<P>, table: seq<P>, b: int8, ghost x: P) returns (t: P)
    requires IsAbelian(g) && Multiples(g, table, x) && -8 <= b <= 8
    ensures t == Times(g, b as int, x)
  {
    var negative := b < 0;
    var babs := if negative then -b else b;
    t := g.zero;
    t := Cmov(t, table[0], babs == 1);
    t := Cmov(t, table[1], babs == 2);
    t := Cmov(t, table[2], babs == 3);
    t := Cmov(t, table[3], babs == 4);
    t := Cmov(t, table[4], babs == 5);
    t := Cmov(t, table[5], babs == 6);
    t := Cmov(t, table[6], babs == 7);
    t := Cmov(t, table[7], babs == 8);
    assert t == Times(g, babs as int, x);
    t := Cmov(t, g.neg(t), negative);
    TimesNeg(g, babs as int, x);
  }

  lemma Double<P(!new)>(g: Group<P>, k: int, x: P)
    requires IsAbelian(g)
    ensures g.add(Times(g, k, x), Times(g, k, x)) == Times(g, 2 * k, x)
  {
    TimesSum(g, k, k, x);
  }

  /** The four doublings between digits. */
  method TimesSixteen<P(!new)>(g: Group<P>, r: P, ghost k: int, ghost x: P) returns (s: P)
    requires IsAbelian(g) && r == Times(g, k, x)
    ensures s == Times(g, 16 * k, x)
  {
    hide Times;
    s := g.add(r, r);
    s := g.add(s, s);
    s := g.add(s, s);
    s := g.add(s, s);
    Double(g, k, x);
    Double(g, 2 * k, x);
    Double(g, 4 * k, x);
    Double(g, 8 * k, x);
  }

  /** The table of ge_scalarmult, each entry x plus the one before. */
  method MultiplesOf<P(!new)>(g: Group<P>, x: P) returns (table: seq<P>)
    requires IsAbelian(g)
    ensures Multiples(g, table, x)
  {
    hide Times;
    var ai := new P[8](_ => x);
    TimesOne(g, x);
    for i := 0 to 7
      invariant forall k :: 0 <= k <= i ==> ai[k] == Times(g, k + 1, x)
    {
      ai[i + 1] := g.add(x, ai[i]);
      TimesNext(g, i + 1, x);
      Laws(g, x, Times(g, i + 1, x), x);
    }
    table := ai[..];
  }

  /** One window: sixteen times what was read so far, plus the digit's multiple. */
  method Window<P(!new)>(g: Group<P>, r: P, b: int8, table: seq<P>, ghost k: int, ghost x: P) returns (s: P)
    requires IsAbelian(g) && Multiples(g, table, x) && -8 <= b <= 8 && r == Times(g, k, x)
    ensures s == Times(g, b as int + 16 * k, x)
  {
    hide Times;
    var u := TimesSixteen(g, r, k, x);
    var cur := Select(g, table, b, x);
    s := g.add(u, cur);
    TimesSum(g, 16 * k, b as int, x);
  }

  /** ge_scalarmult, and ge_scalarmult_p3, whose loop always reaches position 0: a times x. */
  method Scalarmult<P(!new)>(g: Group<P>, a: seq<byte>, x: P) returns (r: P)
    requires IsAbelian(g) && |a| == 32 && a[31] <= 127
    ensures r == Times(g, Le(a), x)
  {
    var e := new int8[64];
    RecodeBytes(e, a);
    var digits := e[..];
    var table := MultiplesOf(g, x);
    r := g.zero;
    var i := 63;
    while i >= 0
      invariant -1 <= i < 64 && r == Times(g, DigitsTo(digits, i + 1, 64, 0), x)
    {
      r := Window(g, r, digits[i], table, DigitsTo(digits, i + 1, 64, 0), x);
      i := i - 1;
    }
  }

  /** The first n digits at positions i, i + 2, .., in base 256. */
  function Alternate(s: seq<int8>, i: nat, n: nat): int
    requires n == 0 || i + 2 * n <= |s| + 1
    decreases n, |s|
  {
    if n == 0 then 0 else Alternate(s, i, n - 1) + s[i + 2 * (n - 1)] as int * Pow256(n - 1)
  }

  lemma {:induction false} AlternateSplit(s: seq<int8>, n: nat)
    requires 2 * n <= |s|
    ensures Alternate(s, 0, n) + 16 * Alternate(s, 1, n) + Pow256(n) * DigitsTo(s, 2 * n, |s|, 0) == Hex(s)
    decreases n
  {
    if n > 0 {
      AlternateSplit(s, n - 1);
      TwoDigits(Pow256(n - 1), s[2 * n - 2] as int, s[2 * n - 1] as int, DigitsTo(s, 2 * n, |s|, 0));
    }
  }

  lemma TwoDigits(p: int, d: int, e: int, x: int)
    ensures p * (d + 16 * (e + 16 * x)) == d * p + 16 * (e * p) + 256 * p * x
  {
    assert p * (d + 16 * (e + 16 * x)) == p * d + p * (16 * (e + 16 * x));
    assert p * (16 * (e + 16 * x)) == 16 * (p * (e + 16 * x));
    assert p * (e + 16 * x) == p * e + 16 * (p * x);
  }

  /** ge_base: row i holds the multiples 1 to 8 of 256^i times the base point. */
  ghost predicate BaseTable<P(!new)>(g: Group<P>, rows: seq<seq<P>>, base: P) {
    |rows| == 32 && forall i :: 0 <= i < 32 ==> Multiples(g, rows[i], Times(g, Pow256(i), base))
  }

  lemma BothHalves(s: seq<int8>)
    requires |s| == 64
    ensures Alternate(s, 0, 32) + 16 * Alternate(s, 1, 32) == Hex(s)
  {
    var n := |s| / 2;
    AlternateSplit(s, n);
    assert DigitsTo(s, 2 * n, |s|, 0) == 0;
  }

  /** The recoded digits of ge_scalarmult_base, split into the two halves it sums. */
  method Nibbles(a: seq<byte>) returns (digits: seq<int8>)
    requires |a| == 32 && a[31] <= 127
    ensures |digits| == 64 && forall k :: 0 <= k < 64 ==> -8 <= digits[k] <= 8
    ensures 16 * Alternate(digits, 1, 32) + Alternate(digits, 0, 32) == Le(a)
  {
    var e := new int8[64];
    RecodeNibbles(e, a);
    digits := e[..];
    BothHalves(digits);
  }

  /** One digit of ge_scalarmult_base, looked up in the row of w times the base point. */
  method AddRow<P(!new)>(g: Group<P>, h: P, b: int8, row: seq<P>, ghost k: int, ghost w: int, ghost base: P)
    returns (s: P)
    requires IsAbelian(g) && Multiples(g, row, Times(g, w, base)) && -8 <= b <= 8 && h == Times(g, k, base)
    ensures s == Times(g, k + b as int * w, base)
  {
    var t := Select(g, row, b, Times(g, w, base));
    s := g.add(h, t);
    TimesProduct(g, b as int, w, base);
    TimesSum(g, k, b as int * w, base);
  }

  /** Either half of ge_scalarmult_base: the digits at positions first, first + 2, .. added on with their rows. */
  method AddAlternate<P(!new)>(g: Group<P>, start: P, e: seq<int8>, first: nat, rows: seq<seq<P>>,
      ghost k: int, ghost base: P) returns (h: P)
    requires IsAbelian(g) && BaseTable(g, rows, base) && |e| == 64 && first <= 1 && start == Times(g, k, base)
    requires forall i :: 0 <= i < 64 ==> -8 <= e[i] <= 8
    ensures h == Times(g, k + Alternate(e, first, 32), base)
  {
    hide Times;
    h := start;
    var i := first;
    ghost var n := 0;
    while i < 64
      invariant 0 <= n <= 32 && i == first + 2 * n
      invariant h == Times(g, k + Alternate(e, first, n), base)
    {
      assert i / 2 == n;
      h := AddRow(g, h, e[i], rows[i / 2], k + Alternate(e, first, n), Pow256(n), base);
      i := i + 2;
      n := n + 1;
    }
    assert n == 32;
  }

  /** The first half of ge_scalarmult_base: the odd digits, times sixteen. */
  method OddHalf<P(!new)>(g: Group<P>, digits: seq<int8>, rows: seq<seq<P>>, ghost base: P) returns (h: P)
    requires IsAbelian(g) && BaseTable(g, rows, base) && |digits| == 64
    requires forall i :: 0 <= i < 64 ==> -8 <= digits[i] <= 8
    ensures h == Times(g, 16 * Alternate(digits, 1, 32), base)
  {
    assert Times(g, 0, base) == g.zero;
    h := AddAlternate(g, g.zero, digits, 1, rows, 0, base);
    hide *;
    h := TimesSixteen(g, h, 0 + Alternate(digits, 1, 32), base);
  }

  /** ge_scalarmult_base: the odd digits, times sixteen, then the even ones give a times the base point. */
  method ScalarmultBase<P(!new)>(g: Group<P>, a: seq<byte>, rows: seq<seq<P>>, ghost base: P) returns (h: P)
    requires IsAbelian(g) && BaseTable(g, rows, base) && |a| == 32 && a[31] <= 127
    ensures h == Times(g, Le(a), base)
  {
    hide *;
    var digits := Nibbles(a);
    h := OddHalf(g, digits, rows, base);
    h := AddAlternate(g, h, digits, 0, rows, 16 * Alternate(digits, 1, 32), base);
  }
}
