// fe_mul, fe_sq and fe_sq2: the columns of a product in radix 2^25.5 with the
// wrap 2^255 = 19, and why they stand for the product modulo p.

module FieldProducts {
  import opened Arithmetic
  import opened ByteStrings
  import opened FieldElements

  function Weight(i: nat): (w: nat)
    ensures w > 0
  {
    if i == 0 then 1 else if i % 2 == 1 then 67108864 * Weight(i - 1) else 33554432 * Weight(i - 1)
  }

  /** 2 when limbs i and j are both odd: the half bits of their weights add up. */
  function HalfBits(i: nat, j: nat): (c: int) { if i % 2 == 1 && j % 2 == 1 then 2 else 1 }

  lemma {:induction false} WeightProduct(i: nat, j: nat)
    ensures Weight(i) * Weight(j) == HalfBits(i, j) * Weight(i + j)
    decreases j
  {
    if j > 0 {
      WeightProduct(i, j - 1);
      if j % 2 == 1 {
        Scale(Weight(i), 67108864, Weight(j - 1));
      } else {
        Scale(Weight(i), 33554432, Weight(j - 1));
      }
      HalfBitsStep(i, j);
    }
  }

  /** The factor of the next weight, over that of the next limb, is the ratio of the half bits. */
  lemma HalfBitsStep(i: nat, j: nat)
    requires j > 0
    ensures (if j % 2 == 1 then 67108864 else 33554432) * HalfBits(i, j - 1) * Weight(i + j - 1)
         == HalfBits(i, j) * Weight(i + j)
  {
  }

  lemma {:induction false} WeightWrap(r: nat)
    ensures Weight(r + 10) == TWO255 * Weight(r)
  {
    if r == 0 {
      WeightTen();
    } else {
      WeightWrap(r - 1);
    }
  }

  lemma WeightTen()
    ensures Weight(10) == TWO255
  {
  }

  /** The partial product f[i] g[j] in column k = (i + j) mod 10; the factor 2 goes to f, 19 to g. */
  function Term(f: Fe, g: Fe, i: nat, k: nat): (t: int64)
    requires Bounded(f, MULTIPLIABLE) && Bounded(g, MULTIPLIABLE) && i < 10 && k < 10
    ensures -232959942992446144 <= t <= 232959942992446144
  {
    var j := if i <= k then k - i else k + 10 - i;
    var x: int32 := if i % 2 == 1 && j % 2 == 1 then 2 * f[i] else f[i];
    var y: int32 := if i > k then 19 * g[j] else g[j];
    ProductBound(x as int, y as int);
    x as int64 * y as int64
  }

  lemma ProductBound(x: int, y: int)
    requires -110729624 <= x <= 110729624 && -2103862856 <= y <= 2103862856
    ensures -232959942992446144 <= x * y <= 232959942992446144
  {
    NonNegative(110729624 - x, 2103862856 - y);
    NonNegative(110729624 + x, 2103862856 + y);
    NonNegative(110729624 - x, 2103862856 + y);
    NonNegative(110729624 + x, 2103862856 - y);
  }

  /** Column k over the first n rows, added from the left. */
  function Column(f: Fe, g: Fe, k: nat, n: nat): (c: int64)
    requires Bounded(f, MULTIPLIABLE) && Bounded(g, MULTIPLIABLE) && k < 10 && n <= 10
    ensures -232959942992446144 * n <= c as int <= 232959942992446144 * n
    decreases n, |f|
  {
    if n == 0 then 0 else Column(f, g, k, n - 1) + Term(f, g, n - 1, k)
  }

  function Columns(f: Fe, g: Fe): (h: WideFe)
    requires Bounded(f, MULTIPLIABLE) && Bounded(g, MULTIPLIABLE)
    ensures WideBounded(h, 2329599429924461440)
    ensures forall k :: 0 <= k < 10 ==> h[k] == Column(f, g, k, 10)
  {
    seq(10, k requires 0 <= k < 10 => Column(f, g, k, 10))
  }

  // Row i of the product: its ten terms by column, and by partner limb of g.

  function SumTo(c: seq<int>, n: nat): int
    requires n <= |c|
    decreases n, |c|
  {
    if n == 0 then 0 else SumTo(c, n - 1) + c[n - 1]
  }

  lemma {:induction false} SumPrefix(c: seq<int>, d: seq<int>, n: nat)
    requires n <= |c| && n <= |d| && c[..n] == d[..n]
    ensures SumTo(c, n) == SumTo(d, n)
  {
    if n > 0 {
      assert c[n - 1] == c[..n][n - 1] == d[..n][n - 1] == d[n - 1];
      assert c[..n - 1] == c[..n][..n - 1] == d[..n][..n - 1] == d[..n - 1];
      SumPrefix(c, d, n - 1);
    }
  }

  lemma {:induction false} SumConcat(a: seq<int>, b: seq<int>, n: nat)
    requires n <= |b|
    ensures SumTo(a + b, |a| + n) == SumTo(a, |a|) + SumTo(b, n)
  {
    if n == 0 {
      SumPrefix(a + b, a, |a|);
    } else {
      SumConcat(a, b, n - 1);
    }
  }

  /** A rotation keeps the sum. */
  lemma SumRotated(c: seq<int>, i: nat)
    requires i <= |c|
    ensures SumTo(c[i..] + c[..i], |c|) == SumTo(c, |c|)
  {
    SumConcat(c[i..], c[..i], i);
    SumConcat(c[..i], c[i..], |c| - i);
    assert c == c[..i] + c[i..];
  }

  function RowTerms(f: Fe, g: Fe, i: nat): (c: seq<int>)
    requires Bounded(f, MULTIPLIABLE) && Bounded(g, MULTIPLIABLE) && i < 10
    ensures |c| == 10 && forall k :: 0 <= k < 10 ==> c[k] == Term(f, g, i, k) as int * Weight(k)
  {
    seq(10, k requires 0 <= k < 10 => Term(f, g, i, k) as int * Weight(k))
  }

  /** The first n limbs. */
  function ValueTo(f: Fe, n: nat): int
    requires n <= 10
    decreases n, |f|
  {
    if n == 0 then 0 else ValueTo(f, n - 1) + f[n - 1] as int * Weight(n - 1)
  }

  /** How often p the product of limbs i and j drops by wrapping past 2^255. */
  function Wraps(f: Fe, g: Fe, i: nat, j: nat): int
    requires i < 10 && j < 10
  {
    if i + j < 10 then 0 else HalfBits(i, j) * (f[i] as int * g[j] as int) * Weight(i + j - 10)
  }

  function RowWraps(f: Fe, g: Fe, i: nat, m: nat): int
    requires i < 10 && m <= 10
    decreases m, |f|
  {
    if m == 0 then 0 else RowWraps(f, g, i, m - 1) + Wraps(f, g, i, m - 1)
  }

  lemma PartnerTerm(f: Fe, g: Fe, i: nat, j: nat)
    requires Bounded(f, MULTIPLIABLE) && Bounded(g, MULTIPLIABLE) && i < 10 && j < 10
    ensures (RowTerms(f, g, i)[i..] + RowTerms(f, g, i)[..i])[j]
         == (f[i] as int * Weight(i)) * (g[j] as int * Weight(j)) - P * Wraps(f, g, i, j)
  {
    var k := if i + j < 10 then i + j else i + j - 10;
    var x, y, c := f[i] as int, g[j] as int, HalfBits(i, j);
    WeightProduct(i, j);
    TermValue(f, g, i, j, k);
    Regroup(x, Weight(i), y, Weight(j));
    if i + j < 10 {
      PlainStep(x * y, c, Weight(k));
    } else {
      WeightWrap(k);
      WrapStep(x * y, c, Weight(k));
    }
  }

  lemma Regroup(x: int, w: int, y: int, v: int)
    ensures (x * w) * (y * v) == (x * y) * (w * v)
  {
  }

  lemma PlainStep(z: int, c: int, w: int)
    ensures (c * z) * w == z * (c * w)
  {
  }

  lemma WrapStep(z: int, c: int, w: int)
    ensures 19 * (c * z) * w == z * (c * (TWO255 * w)) - P * (c * z * w)
  {
    var y := c * z * w;
    assert 19 * (c * z) * w == 19 * y;
    assert z * (c * (TWO255 * w)) == TWO255 * y;
  }

  lemma TermValue(f: Fe, g: Fe, i: nat, j: nat, k: nat)
    requires Bounded(f, MULTIPLIABLE) && Bounded(g, MULTIPLIABLE) && i < 10 && j < 10
    requires k == if i + j < 10 then i + j else i + j - 10
    ensures Term(f, g, i, k) as int == (if i + j < 10 then 1 else 19) * (HalfBits(i, j) * (f[i] as int * g[j] as int))
  {
  }

  lemma {:induction false} RowValue(f: Fe, g: Fe, i: nat, m: nat)
    requires Bounded(f, MULTIPLIABLE) && Bounded(g, MULTIPLIABLE) && i < 10 && m <= 10
    ensures var c := RowTerms(f, g, i);
      SumTo(c[i..] + c[..i], m) == (f[i] as int * Weight(i)) * ValueTo(g, m) - P * RowWraps(f, g, i, m)
    decreases m
  {
    hide Weight, RowTerms;
    if m > 0 {
      RowValue(f, g, i, m - 1);
      PartnerTerm(f, g, i, m - 1);
      Distribute(f[i] as int * Weight(i), ValueTo(g, m - 1), g[m - 1] as int * Weight(m - 1));
    }
  }

  // All rows together.

  function ColumnsTo(f: Fe, g: Fe, n: nat, m: nat): int
    requires Bounded(f, MULTIPLIABLE) && Bounded(g, MULTIPLIABLE) && n <= 10 && m <= 10
    decreases m, |f|
  {
    if m == 0 then 0 else ColumnsTo(f, g, n, m - 1) + Column(f, g, m - 1, n) as int * Weight(m - 1)
  }

  lemma {:induction false} AddRow(f: Fe, g: Fe, n: nat, m: nat)
    requires Bounded(f, MULTIPLIABLE) && Bounded(g, MULTIPLIABLE) && 0 < n <= 10 && m <= 10
    ensures ColumnsTo(f, g, n, m) == ColumnsTo(f, g, n - 1, m) + SumTo(RowTerms(f, g, n - 1), m)
    decreases m
  {
    if m > 0 {
      AddRow(f, g, n, m - 1);
      AddTimes(Column(f, g, m - 1, n) as int, Column(f, g, m - 1, n - 1) as int, Term(f, g, n - 1, m - 1) as int,
        Weight(m - 1), RowTerms(f, g, n - 1)[m - 1]);
    }
  }

  lemma AddTimes(c: int, x: int, y: int, w: int, t: int)
    requires c == x + y && t == y * w
    ensures c * w == x * w + t
  {
    Distribute(w, x, y);
  }

  function AllWraps(f: Fe, g: Fe, n: nat): int
    requires n <= 10
    decreases n, |f|
  {
    if n == 0 then 0 else AllWraps(f, g, n - 1) + RowWraps(f, g, n - 1, 10)
  }

  lemma {:induction false} ColumnsValue(f: Fe, g: Fe, n: nat)
    requires Bounded(f, MULTIPLIABLE) && Bounded(g, MULTIPLIABLE) && n <= 10
    ensures ColumnsTo(f, g, n, 10) == ValueTo(f, n) * ValueTo(g, 10) - P * AllWraps(f, g, n)
    decreases n
  {
    if n == 0 {
      NoRows(f, g, 10);
    } else {
      ColumnsValue(f, g, n - 1);
      AddRow(f, g, n, 10);
      SumRotated(RowTerms(f, g, n - 1), n - 1);
      RowValue(f, g, n - 1, 10);
      AddProduct(ValueTo(f, n - 1), f[n - 1] as int * Weight(n - 1), ValueTo(g, 10), ValueTo(f, n),
        AllWraps(f, g, n - 1), RowWraps(f, g, n - 1, 10), AllWraps(f, g, n));
    }
  }

  lemma AddProduct(u: int, x: int, v: int, t: int, q: int, r: int, s: int)
    requires t == u + x && s == q + r
    ensures (u * v - P * q) + (x * v - P * r) == t * v - P * s
  {
    Distribute(v, u, x);
  }

  lemma {:induction false} NoRows(f: Fe, g: Fe, m: nat)
    requires Bounded(f, MULTIPLIABLE) && Bounded(g, MULTIPLIABLE) && m <= 10
    ensures ColumnsTo(f, g, 0, m) == 0
    decreases m
  {
    if m > 0 {
      NoRows(f, g, m - 1);
    }
  }

  function WideTo(h: WideFe, n: nat): int
    requires n <= 10
    decreases n, |h|
  {
    if n == 0 then 0 else WideTo(h, n - 1) + h[n - 1] as int * Weight(n - 1)
  }

  lemma PairWeights(i: nat)
    requires i % 2 == 0
    ensures Weight(i + 1) == 67108864 * Weight(i) && Weight(i + 2) == 33554432 * Weight(i + 1)
  {
  }

  lemma PairOfLimbs(h: WideFe, i: nat)
    requires i <= 8 && i % 2 == 0
    ensures WideTo(h, i + 2) == WideTo(h, i) + h[i] as int * Weight(i) + h[i + 1] as int * Weight(i + 1)
    ensures PairsFrom(h, i) == h[i] as int + 67108864 * h[i + 1] as int + 2251799813685248 * PairsFrom(h, i + 2)
  {
    hide Weight;
  }

  lemma {:induction false} WideSplit(h: WideFe, i: nat)
    requires i <= 10 && i % 2 == 0
    ensures WideValue(h) == WideTo(h, i) + Weight(i) * PairsFrom(h, i)
  {
    hide Weight, WideTo, PairsFrom;
    if i == 0 {
      NoLimbs(h);
    } else {
      WideSplit(h, i - 2);
      PairWeights(i - 2);
      PairOfLimbs(h, i - 2);
      PairStep(h[i - 2] as int, h[i - 1] as int, PairsFrom(h, i), Weight(i - 2));
    }
  }

  lemma NoLimbs(h: WideFe)
    ensures Weight(0) == 1 && WideTo(h, 0) == 0
  {
  }

  lemma PairStep(x: int, y: int, r: int, w: int)
    ensures w * (x + 67108864 * y + 2251799813685248 * r) == x * w + y * (67108864 * w)
      + (33554432 * (67108864 * w)) * r
  {
    Distribute(w, x + 67108864 * y, 2251799813685248 * r);
    Distribute(w, x, 67108864 * y);
  }

  lemma {:induction false} NarrowTo(f: Fe, n: nat)
    requires n <= 10
    ensures ValueTo(f, n) == WideTo(Widened(f), n)
    decreases n
  {
    if n > 0 {
      NarrowTo(f, n - 1);
    }
  }

  lemma {:induction false} ColumnsWide(f: Fe, g: Fe, m: nat)
    requires Bounded(f, MULTIPLIABLE) && Bounded(g, MULTIPLIABLE) && m <= 10
    ensures ColumnsTo(f, g, 10, m) == WideTo(Columns(f, g), m)
    decreases m
  {
    if m > 0 {
      ColumnsWide(f, g, m - 1);
    }
  }

  /** The columns of f g stand for the product modulo p. */
  lemma ColumnsProduct(f: Fe, g: Fe)
    requires Bounded(f, MULTIPLIABLE) && Bounded(g, MULTIPLIABLE)
    ensures WideValue(Columns(f, g)) == Value(f) * Value(g) - P * AllWraps(f, g, 10)
  {
    ColumnsValue(f, g, 10);
    ColumnsWide(f, g, 10);
    WideSplit(Columns(f, g), 10);
    WideSplit(Widened(f), 10);
    WideSplit(Widened(g), 10);
    NarrowTo(f, 10);
    NarrowTo(g, 10);
  }

  method FeMul(f: Fe, g: Fe) returns (h: Fe)
    requires Bounded(f, MULTIPLIABLE) && Bounded(g, MULTIPLIABLE)
    ensures Eq(Value(h), Value(f) * Value(g)) && Bounded(h, TIGHT)
  {
    ColumnsProduct(f, g);
    ModP(Value(f) * Value(g), AllWraps(f, g, 10));
    h := FeReduce(Columns(f, g));
    Congruence();
  }

  function Times(x: int32, y: int32): (p: int64)
    requires -221459248 <= x <= 221459248 && -2103862856 <= y <= 2103862856
    ensures -465919885984892288 <= p <= 465919885984892288
  {
    ProductBound2(x as int, y as int);
    x as int64 * y as int64
  }

  lemma ProductBound2(x: int, y: int)
    requires -221459248 <= x <= 221459248 && -2103862856 <= y <= 2103862856
    ensures -465919885984892288 <= x * y <= 465919885984892288
  {
    NonNegative(221459248 - x, 2103862856 - y);
    NonNegative(221459248 + x, 2103862856 + y);
    NonNegative(221459248 - x, 2103862856 + y);
    NonNegative(221459248 + x, 2103862856 - y);
  }

  /** The columns of a square, with equal cross products taken once and doubled. */
  function SquareColumn(f: Fe, k: nat): (c: int64)
    requires Bounded(f, MULTIPLIABLE) && k < 10
  {
    match k
    case 0 =>
      Times(f[0], f[0]) + Times(2 * f[1], 38 * f[9]) + Times(2 * f[2], 19 * f[8])
      + Times(2 * f[3], 38 * f[7]) + Times(2 * f[4], 19 * f[6]) + Times(f[5], 38 * f[5])
    case 1 =>
      Times(2 * f[0], f[1]) + Times(f[2], 38 * f[9]) + Times(2 * f[3], 19 * f[8])
      + Times(f[4], 38 * f[7]) + Times(2 * f[5], 19 * f[6])
    case 2 =>
      Times(2 * f[0], f[2]) + Times(2 * f[1], f[1]) + Times(2 * f[3], 38 * f[9])
      + Times(2 * f[4], 19 * f[8]) + Times(2 * f[5], 38 * f[7]) + Times(f[6], 19 * f[6])
    case 3 =>
      Times(2 * f[0], f[3]) + Times(2 * f[1], f[2]) + Times(f[4], 38 * f[9])
      + Times(2 * f[5], 19 * f[8]) + Times(f[6], 38 * f[7])
    case 4 =>
      Times(2 * f[0], f[4]) + Times(2 * f[1], 2 * f[3]) + Times(f[2], f[2])
      + Times(2 * f[5], 38 * f[9]) + Times(2 * f[6], 19 * f[8]) + Times(f[7], 38 * f[7])
    case 5 =>
      Times(2 * f[0], f[5]) + Times(2 * f[1], f[4]) + Times(2 * f[2], f[3])
      + Times(f[6], 38 * f[9]) + Times(2 * f[7], 19 * f[8])
    case 6 =>
      Times(2 * f[0], f[6]) + Times(2 * f[1], 2 * f[5]) + Times(2 * f[2], f[4])
      + Times(2 * f[3], f[3]) + Times(2 * f[7], 38 * f[9]) + Times(f[8], 19 * f[8])
    case 7 =>
      Times(2 * f[0], f[7]) + Times(2 * f[1], f[6]) + Times(2 * f[2], f[5])
      + Times(2 * f[3], f[4]) + Times(f[8], 38 * f[9])
    case 8 =>
      Times(2 * f[0], f[8]) + Times(2 * f[1], 2 * f[7]) + Times(2 * f[2], f[6])
      + Times(2 * f[3], 2 * f[5]) + Times(f[4], f[4]) + Times(f[9], 38 * f[9])
    case _ =>
      Times(2 * f[0], f[9]) + Times(2 * f[1], f[8]) + Times(2 * f[2], f[7])
      + Times(2 * f[3], f[6]) + Times(2 * f[4], f[5])
  }

  lemma ColumnSum(f: Fe, g: Fe, k: nat)
    requires Bounded(f, MULTIPLIABLE) && Bounded(g, MULTIPLIABLE) && k < 10
    ensures Column(f, g, k, 10) as int
         == Term(f, g, 0, k) as int + Term(f, g, 1, k) as int + Term(f, g, 2, k) as int + Term(f, g, 3, k) as int
            + Term(f, g, 4, k) as int + Term(f, g, 5, k) as int + Term(f, g, 6, k) as int + Term(f, g, 7, k) as int
            + Term(f, g, 8, k) as int + Term(f, g, 9, k) as int
  {
    assert Column(f, g, k, 2) as int == Term(f, g, 0, k) as int + Term(f, g, 1, k) as int;
    assert Column(f, g, k, 4) as int == Column(f, g, k, 2) as int + Term(f, g, 2, k) as int + Term(f, g, 3, k) as int;
    assert Column(f, g, k, 6) as int == Column(f, g, k, 4) as int + Term(f, g, 4, k) as int + Term(f, g, 5, k) as int;
    assert Column(f, g, k, 8) as int == Column(f, g, k, 6) as int + Term(f, g, 6, k) as int + Term(f, g, 7, k) as int;
  }

  lemma Square0(f: Fe)
    requires Bounded(f, MULTIPLIABLE)
    ensures SquareColumn(f, 0) == Column(f, f, 0, 10)
  {
    ColumnSum(f, f, 0);
  }

  lemma Square1(f: Fe)
    requires Bounded(f, MULTIPLIABLE)
    ensures SquareColumn(f, 1) == Column(f, f, 1, 10)
  {
    ColumnSum(f, f, 1);
  }

  lemma Square2(f: Fe)
    requires Bounded(f, MULTIPLIABLE)
    ensures SquareColumn(f, 2) == Column(f, f, 2, 10)
  {
    ColumnSum(f, f, 2);
  }

  lemma Square3(f: Fe)
    requires Bounded(f, MULTIPLIABLE)
    ensures SquareColumn(f, 3) == Column(f, f, 3, 10)
  {
    ColumnSum(f, f, 3);
  }

  lemma Square4(f: Fe)
    requires Bounded(f, MULTIPLIABLE)
    ensures SquareColumn(f, 4) == Column(f, f, 4, 10)
  {
    ColumnSum(f, f, 4);
  }

  lemma Square5(f: Fe)
    requires Bounded(f, MULTIPLIABLE)
    ensures SquareColumn(f, 5) == Column(f, f, 5, 10)
  {
    ColumnSum(f, f, 5);
  }

  lemma Square6(f: Fe)
    requires Bounded(f, MULTIPLIABLE)
    ensures SquareColumn(f, 6) == Column(f, f, 6, 10)
  {
    ColumnSum(f, f, 6);
  }

  lemma Square7(f: Fe)
    requires Bounded(f, MULTIPLIABLE)
    ensures SquareColumn(f, 7) == Column(f, f, 7, 10)
  {
    ColumnSum(f, f, 7);
  }

  lemma Square8(f: Fe)
    requires Bounded(f, MULTIPLIABLE)
    ensures SquareColumn(f, 8) == Column(f, f, 8, 10)
  {
    ColumnSum(f, f, 8);
  }

  lemma Square9(f: Fe)
    requires Bounded(f, MULTIPLIABLE)
    ensures SquareColumn(f, 9) == Column(f, f, 9, 10)
  {
    ColumnSum(f, f, 9);
  }

  method SquareColumns(f: Fe) returns (h: WideFe)
    requires Bounded(f, MULTIPLIABLE)
    ensures h == Columns(f, f)
  {
    h := seq(10, k requires 0 <= k < 10 => SquareColumn(f, k));
    Square0(f);
    Square1(f);
    Square2(f);
    Square3(f);
    Square4(f);
    Square5(f);
    Square6(f);
    Square7(f);
    Square8(f);
    Square9(f);
  }

  method FeSq(f: Fe) returns (h: Fe)
    requires Bounded(f, MULTIPLIABLE)
    ensures Eq(Value(h), Value(f) * Value(f)) && Bounded(h, TIGHT)
  {
    ColumnsProduct(f, f);
    ModP(Value(f) * Value(f), AllWraps(f, f, 10));
    var c := SquareColumns(f);
    h := FeReduce(c);
    Congruence();
  }

  /** 2 f^2: the columns are doubled before the carries. */
  method FeSq2(f: Fe) returns (h: Fe)
    requires Bounded(f, MULTIPLIABLE)
    ensures Eq(Value(h), 2 * (Value(f) * Value(f))) && Bounded(h, TIGHT)
  {
    var c := SquareColumns(f);
    var d := seq(10, k requires 0 <= k < 10 => c[k] + c[k]);
    DoubledFrom(c, d, 0);
    ColumnsProduct(f, f);
    ModP(2 * (Value(f) * Value(f)), 2 * AllWraps(f, f, 10));
    h := FeReduce(d);
    Congruence();
  }

  lemma {:induction false} DoubledFrom(c: WideFe, d: WideFe, i: nat)
    requires forall k :: 0 <= k < 10 ==> d[k] as int == 2 * c[k] as int
    ensures PairsFrom(d, i) == 2 * PairsFrom(c, i)
    decreases 10 - i
  {
    if i <= 8 {
      DoubledFrom(c, d, i + 2);
    }
  }
}
