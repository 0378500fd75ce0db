// The scalar routines as callers see them: they write the canonical residue in
// [0, L) over their first argument, which may overlap the others.

module ScalarOps {
  import opened Arithmetic
  import opened ByteStrings
  import opened ScalarLimbs
  import opened Scalars

  /** Loaded limbs of a 32-byte string. */
  predicate Loaded(l: seq<int64>) {
    |l| == 12 && forall i :: 0 <= i < 12 ==> 0 <= l[i] < 33554432
  }

  /** Column k of a product over the first n rows: a[0]*b[k] + a[1]*b[k-1] + .., added from the left. */
  function Column(a: seq<int64>, b: seq<int64>, k: nat, n: nat): (c: int64)
    requires Loaded(a) && Loaded(b) && n <= 12
    ensures 0 <= c as int <= 0x4_0000_0000_0000 * n
  {
    if n == 0 then 0
    else if n - 1 <= k < n + 11 then
      ProductBound(a[n - 1], b[k - n + 1]);
      Column(a, b, k, n - 1) + a[n - 1] * b[k - n + 1]
    else Column(a, b, k, n - 1)
  }

  lemma ProductBound(x: int64, y: int64)
    requires 0 <= x < 33554432 && 0 <= y < 33554432
    ensures 0 <= x as int * y as int <= 0x4_0000_0000_0000
  {
    Mono(x as int, y as int);
  }

  lemma Mono(x: int, y: int)
    requires 0 <= x < 33554432 && 0 <= y < 33554432
    ensures 0 <= x * y <= 33554432 * y
  {
    NonNegative(x, y);
    NonNegative(33554432 - x, y);
    Distribute(y, 33554432, -x);
  }

  lemma AddRow(u: int, x: int, w: int, v: int, t: int, c: int)
    requires t == u + x * w && c == u * v + x * (w * v)
    ensures c == t * v
  {
    Distribute(v, u, x * w);
  }

  /** Columns k, k + 1, .., 23 over the first n rows, with column k as the units. */
  function ColumnsFrom(a: seq<int64>, b: seq<int64>, n: nat, k: nat): int
    requires Loaded(a) && Loaded(b) && n <= 12 && k <= 24
    decreases 24 - k
  {
    if k == 24 then 0 else Column(a, b, k, n) as int + 2097152 * ColumnsFrom(a, b, n, k + 1)
  }

  /** b shifted up by i limbs, read from limb k on. */
  function ShiftedFrom(b: seq<int64>, i: nat, k: nat): int
    requires Loaded(b)
  {
    if k < i then Weight(i - k) * Value(b) else if k - i <= 12 then ValueFrom(b, k - i) else 0
  }

  lemma {:induction false} RowFrom(a: seq<int64>, b: seq<int64>, n: nat, k: nat)
    requires Loaded(a) && Loaded(b) && 0 < n <= 12 && k <= 24
    ensures ColumnsFrom(a, b, n, k) == ColumnsFrom(a, b, n - 1, k) + a[n - 1] as int * ShiftedFrom(b, n - 1, k)
    decreases 24 - k
  {
    if k < 24 {
      RowFrom(a, b, n, k + 1);
      var x, r := a[n - 1] as int, ShiftedFrom(b, n - 1, k + 1);
      if k < n - 1 {
        assert ShiftedFrom(b, n - 1, k) == 2097152 * r by { ShiftStep(b, n - 1, k); }
        Scale(x, 2097152, r);
      } else if k < n + 11 {
        var y := b[k - n + 1] as int;
        assert ShiftedFrom(b, n - 1, k) == y + 2097152 * r;
        Distribute(x, y, 2097152 * r);
        Scale(x, 2097152, r);
      }
    }
  }

  lemma ShiftStep(b: seq<int64>, i: nat, k: nat)
    requires Loaded(b) && k < i
    ensures ShiftedFrom(b, i, k) == 2097152 * ShiftedFrom(b, i, k + 1)
  {
    assert 2097152 * Weight(i - k - 1) * Value(b) == 2097152 * (Weight(i - k - 1) * Value(b));
  }

  /** The first n limbs. */
  function ValueTo(a: seq<int64>, n: nat): int
    requires n <= |a|
  {
    if n == 0 then 0 else ValueTo(a, n - 1) + a[n - 1] as int * Weight(n - 1)
  }

  lemma {:induction false} SplitValue(a: seq<int64>, n: nat)
    requires n <= |a|
    ensures Value(a) == ValueTo(a, n) + Weight(n) * ValueFrom(a, n)
  {
    if n > 0 {
      SplitValue(a, n - 1);
      var w, x, r := Weight(n - 1), a[n - 1] as int, ValueFrom(a, n);
      Distribute(w, x, 2097152 * r);
      Scale(w, 2097152, r);
    }
  }

  lemma {:induction false} ColumnsValue(a: seq<int64>, b: seq<int64>, n: nat)
    requires Loaded(a) && Loaded(b) && n <= 12
    ensures ColumnsFrom(a, b, n, 0) == ValueTo(a, n) * Value(b)
  {
    if n == 0 {
      NoColumns(a, b, 0);
    } else {
      ColumnsValue(a, b, n - 1);
      RowFrom(a, b, n, 0);
      assert ShiftedFrom(b, n - 1, 0) == Weight(n - 1) * Value(b);
      AddRow(ValueTo(a, n - 1), a[n - 1] as int, Weight(n - 1), Value(b), ValueTo(a, n), ColumnsFrom(a, b, n, 0));
    }
  }

  lemma {:induction false} NoColumns(a: seq<int64>, b: seq<int64>, k: nat)
    requires Loaded(a) && Loaded(b) && k <= 24
    ensures ColumnsFrom(a, b, 0, k) == 0
    decreases 24 - k
  {
    if k < 24 {
      NoColumns(a, b, k + 1);
    }
  }

  /** s0..s22 of a product, and s23 = 0. */
  method Products(a: seq<int64>, b: seq<int64>) returns (p: Limbs)
    requires Loaded(a) && Loaded(b)
    ensures Value(p) == Value(a) * Value(b)
    ensures forall k :: 0 <= k < 24 ==> 0 <= p[k] <= 0x30_0000_0000_0000
    ensures p[23] == 0
  {
    p := seq(24, k requires 0 <= k => Column(a, b, k, 12));
    NoColumn23(a, b, 12);
    ColumnsAsLimbs(a, b, p, 0);
    ColumnsValue(a, b, 12);
    SplitValue(a, 12);
  }

  lemma {:induction false} NoColumn23(a: seq<int64>, b: seq<int64>, n: nat)
    requires Loaded(a) && Loaded(b) && n <= 12
    ensures Column(a, b, 23, n) == 0
  {
    if n > 0 {
      NoColumn23(a, b, n - 1);
    }
  }

  lemma {:induction false} ColumnsAsLimbs(a: seq<int64>, b: seq<int64>, p: Limbs, k: nat)
    requires Loaded(a) && Loaded(b) && k <= 24
    requires forall j :: 0 <= j < 24 ==> p[j] == Column(a, b, j, 12)
    ensures ValueFrom(p, k) == ColumnsFrom(a, b, 12, k)
    decreases 24 - k
  {
    if k < 24 {
      ColumnsAsLimbs(a, b, p, k + 1);
    }
  }

  /** Limbwise c + m p over 24 limbs, for m = 1 or -1; c has 12 limbs. */
  function Combined(c: seq<int64>, p: Limbs, m: int64): (s: Limbs)
    requires |c| == 12 && (forall i :: 0 <= i < 12 ==> 0 <= c[i] < 33554432)
    requires (forall k :: 0 <= k < 24 ==> 0 <= p[k] <= 0x30_0000_0000_0000) && (m == 1 || m == -1)
  {
    seq(24, k requires 0 <= k < 24 => (if k < 12 then c[k] else 0) + m * p[k])
  }

  lemma {:induction false} CombinedValue(c: seq<int64>, p: Limbs, m: int64, k: nat)
    requires |c| == 12 && (forall i :: 0 <= i < 12 ==> 0 <= c[i] < 33554432) && k <= 24
    requires (forall j :: 0 <= j < 24 ==> 0 <= p[j] <= 0x30_0000_0000_0000) && (m == 1 || m == -1)
    ensures ValueFrom(Combined(c, p, m), k) == (if k < 12 then ValueFrom(c, k) else 0) + m as int * ValueFrom(p, k)
    decreases 24 - k
  {
    if k < 24 {
      CombinedValue(c, p, m, k + 1);
    }
  }

  /** The limbs of a product after its first carries and up to its residue. */
  method ReduceProduct(p: Limbs) returns (r: seq<byte>)
    requires Within(p, 0, 24, 0x40_0000_0000_0000) && p[23] == 0
    ensures |r| == 32 && Le(r) == Value(p) % L
  {
    var t := RoundProductEvens(p);
    t := RoundProductOdds(t);
    r := ReduceWide(t);
  }

  /** sc_mul: s = ab mod L */
  method ScMul(s: array<byte>, a: array<byte>, b: array<byte>)
    requires s.Length == a.Length == b.Length == 32
    modifies s
    ensures Le(s[..]) == (old(Le(a[..])) * old(Le(b[..]))) % L
  {
    var x, y := LoadLimbs(a[..]), LoadLimbs(b[..]);
    LoadLimbsValue(a[..]);
    LoadLimbsValue(b[..]);
    var p := Products(x, y);
    var r := ReduceProduct(p);
    Overwrite(s, r);
  }

  /** sc_muladd (m = 1): s = c + ab mod L; sc_mulsub (m = -1): s = c - ab mod L */
  method ScMulCombine(s: array<byte>, a: array<byte>, b: array<byte>, c: array<byte>, m: int64)
    requires s.Length == a.Length == b.Length == c.Length == 32 && (m == 1 || m == -1)
    modifies s
    ensures Le(s[..]) == (old(Le(c[..])) + m as int * (old(Le(a[..])) * old(Le(b[..])))) % L
  {
    var x, y, z := LoadLimbs(a[..]), LoadLimbs(b[..]), LoadLimbs(c[..]);
    LoadLimbsValue(a[..]);
    LoadLimbsValue(b[..]);
    LoadLimbsValue(c[..]);
    var p := Products(x, y);
    CombinedValue(z, p, m, 0);
    var r := ReduceProduct(Combined(z, p, m));
    Overwrite(s, r);
  }

  method ScMulAdd(s: array<byte>, a: array<byte>, b: array<byte>, c: array<byte>)
    requires s.Length == a.Length == b.Length == c.Length == 32
    modifies s
    ensures Le(s[..]) == (old(Le(c[..])) + old(Le(a[..])) * old(Le(b[..]))) % L
  {
    ScMulCombine(s, a, b, c, 1);
  }

  method ScMulSub(s: array<byte>, a: array<byte>, b: array<byte>, c: array<byte>)
    requires s.Length == a.Length == b.Length == c.Length == 32
    modifies s
    ensures Le(s[..]) == (old(Le(c[..])) - old(Le(a[..])) * old(Le(b[..]))) % L
  {
    ScMulCombine(s, a, b, c, -1);
  }

  /** Twelve limbs followed by zeros. */
  function Extended(b: seq<int64>): (p: Limbs)
    requires |b| == 12
  {
    seq(24, i requires 0 <= i < 24 => if i < 12 then b[i] else 0)
  }

  lemma {:induction false} ExtendedValue(b: seq<int64>, k: nat)
    requires |b| == 12 && k <= 12
    ensures ValueFrom(Extended(b), k) == ValueFrom(b, k)
    decreases 12 - k
  {
    if k < 12 {
      ExtendedValue(b, k + 1);
    } else {
      ZeroFrom(Extended(b), 12);
    }
  }

  method ScAdd(s: array<byte>, a: array<byte>, b: array<byte>)
    requires s.Length == a.Length == b.Length == 32
    modifies s
    ensures Le(s[..]) == (old(Le(a[..])) + old(Le(b[..]))) % L
  {
    ScCombine(s, a, b, 1);
  }

  method ScSub(s: array<byte>, a: array<byte>, b: array<byte>)
    requires s.Length == a.Length == b.Length == 32
    modifies s
    ensures Le(s[..]) == (old(Le(a[..])) - old(Le(b[..]))) % L
  {
    ScCombine(s, a, b, -1);
  }

  /** sc_add (m = 1) and sc_sub (m = -1): s[i] = a[i] + m b[i] in every limb, then the common last steps. */
  method ScCombine(s: array<byte>, a: array<byte>, b: array<byte>, m: int64)
    requires s.Length == a.Length == b.Length == 32 && (m == 1 || m == -1)
    modifies s
    ensures Le(s[..]) == (old(Le(a[..])) + m as int * old(Le(b[..]))) % L
  {
    var x, y := LoadLimbs(a[..]), LoadLimbs(b[..]);
    LoadLimbsValue(a[..]);
    LoadLimbsValue(b[..]);
    var p := Extended(y);
    ExtendedValue(y, 0);
    CombinedValue(x, p, m, 0);
    var r := Finish(Combined(x, p, m));
    Overwrite(s, r);
  }

  method ScReduce32(s: array<byte>)
    requires s.Length == 32
    modifies s
    ensures Le(s[..]) == old(Le(s[..])) % L
  {
    var x := LoadLimbs(s[..]);
    LoadLimbsValue(s[..]);
    ExtendedValue(x, 0);
    var r := Finish(Extended(x));
    Overwrite(s, r);
  }

  /** sc_reduce: 64 bytes in, the residue in the first 32 out; the other 32 are left as they were. */
  method ScReduce(s: array<byte>)
    requires s.Length == 64
    modifies s
    ensures Le(s[..32]) == old(Le(s[..])) % L && s[32..] == old(s[32..])
  {
    var x := LoadWide(s[..]);
    LoadWideValue(s[..]);
    var r := ReduceWide(x);
    for i := 0 to 32
      invariant s[..i] == r[..i] && s[32..] == old(s[32..])
    {
      s[i] := r[i];
    }
    assert r == r[..32];
  }

  /** s[i] = r[i] for every byte of the result. */
  method Overwrite(s: array<byte>, r: seq<byte>)
    requires s.Length == |r|
    modifies s
    ensures s[..] == r
  {
    for i := 0 to s.Length
      invariant s[..i] == r[..i]
    {
      s[i] := r[i];
    }
    assert s[..] == s[..s.Length] && r == r[..|r|];
  }
}
