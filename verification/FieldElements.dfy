// Field elements as ten signed limbs in radix 2^25.5: values modulo p = 2^255 - 19,
// limb bounds, products and squares with their carry chain.

module FieldElements {
  import opened ByteStrings

  // p, section 5.1 of RFC 8032.
  const P: int := 0x7fffffffffffffffffffffffffffffffffffffffffffffffffffffffffffffed

  const TWO255: int := 0x8000000000000000000000000000000000000000000000000000000000000000

  /** h[0], .., h[9] with weights 1, 2^26, 2^51, 2^77, .., 2^230. */
  type Fe = f: seq<int32> | |f| == 10 witness seq(10, _ => 0)

  /** The same limbs before they fit 32 bits. */
  type WideFe = h: seq<int64> | |h| == 10 witness seq(10, _ => 0)

  /** Value of limbs i, i + 1, .., for an even i, with limb i as the units: 2^26 to the odd limb,
      2^51 to the next pair. */
  function PairsFrom(h: WideFe, i: nat): int
    decreases |h| - i
  {
    if i > 8 then 0 else h[i] as int + 67108864 * h[i + 1] as int + 2251799813685248 * PairsFrom(h, i + 2)
  }

  function WideValue(h: WideFe): int { PairsFrom(h, 0) }

  function Widened(f: Fe): (h: WideFe)
    ensures forall i :: 0 <= i < 10 ==> h[i] as int == f[i] as int
  {
    seq(10, i requires 0 <= i < 10 => f[i] as int64)
  }

  function Value(f: Fe): int { WideValue(Widened(f)) }

  /** Odd limbs within a, even limbs within 2a. */
  predicate Bounded(f: Fe, a: int) {
    forall i :: 0 <= i < 10 ==> if i % 2 == 0 then -2 * a <= f[i] as int <= 2 * a else -a <= f[i] as int <= a
  }

  // 1.01 2^24, what products give; 1.1 2^25, what fe_tobytes takes; 1.65 2^25, what products take.
  const TIGHT: int := 16944988
  const STORABLE: int := 36909875
  const MULTIPLIABLE: int := 55364812

  lemma {:induction false} SameFrom(h: WideFe, g: WideFe, i: nat)
    requires forall j :: i <= j < 10 ==> h[j] == g[j]
    ensures PairsFrom(h, i) == PairsFrom(g, i)
    decreases 10 - i
  {
    if i <= 8 {
      SameFrom(h, g, i + 2);
    }
  }

  /** A carry from an even limb to the odd one above it keeps the value. */
  lemma {:induction false} Keeps26(h: WideFe, i: nat, x: int64, y: int64, k: nat)
    requires k <= i < 9 && (i - k) % 2 == 0
    requires x as int + 67108864 * y as int == h[i] as int + 67108864 * h[i + 1] as int
    ensures PairsFrom(h[i := x][i + 1 := y], k) == PairsFrom(h, k)
    decreases i - k
  {
    if k < i {
      Keeps26(h, i, x, y, k + 2);
    } else {
      SameFrom(h, h[i := x][i + 1 := y], i + 2);
    }
  }

  /** A carry from an odd limb to the even one above it keeps the value. */
  lemma {:induction false} Keeps25(h: WideFe, i: nat, x: int64, y: int64, k: nat)
    requires k < i < 8 && (i - k) % 2 == 1
    requires x as int + 33554432 * y as int == h[i] as int + 33554432 * h[i + 1] as int
    ensures PairsFrom(h[i := x][i + 1 := y], k) == PairsFrom(h, k)
    decreases i - k
  {
    var g := h[i := x][i + 1 := y];
    if k + 1 < i {
      Keeps25(h, i, x, y, k + 2);
    } else {
      SameFrom(h, g, i + 3);
      assert PairsFrom(g, i + 1) == PairsFrom(h, i + 1) + y as int - h[i + 1] as int;
    }
  }

  /** Carrying c out of limb 9 adds 19 c to limb 0: the value drops by c p. */
  lemma WrapValue(h: WideFe, x0: int64, x9: int64, c: int)
    requires x0 as int == h[0] as int + 19 * c && x9 as int == h[9] as int - c * 33554432
    ensures WideValue(h[0 := x0][9 := x9]) == WideValue(h) - P * c
  {
    var g := h[0 := x0][9 := x9];
    assert PairsFrom(g, 8) == PairsFrom(h, 8) - 0x8000000000000 * c;
    assert PairsFrom(g, 6) == PairsFrom(h, 6) - 0x40000000000000000000000000 * c;
    assert PairsFrom(g, 4) == PairsFrom(h, 4) - 0x200000000000000000000000000000000000000 * c;
    assert PairsFrom(g, 2) == PairsFrom(h, 2) - 0x1000000000000000000000000000000000000000000000000000 * c;
  }

  /** carry = (h[i] + (1 << 25)) >> 26; h[i + 1] += carry; h[i] -= carry << 26, for an even i
      and limbs within b and d. */
  method FeCarry26(h: WideFe, i: nat, ghost b: int, ghost d: int) returns (g: WideFe)
    requires i < 9 && i % 2 == 0
    requires -b <= h[i] as int <= b <= 0x6000_0000_0000_0000
    requires -d <= h[i + 1] as int <= d <= 0x6000_0000_0000_0000
    ensures WideValue(g) == WideValue(h)
    ensures -33554432 <= g[i] <= 33554432
    ensures -b - 67108864 * d - 33554432 <= 67108864 * g[i + 1] as int <= b + 67108864 * d + 33554432
    ensures forall j :: 0 <= j < 10 && j != i && j != i + 1 ==> g[j] == h[j]
  {
    var x, y := CarryPair26(h[i], h[i + 1]);
    Keeps26(h, i, x, y, 0);
    g := h[i := x][i + 1 := y];
  }

  method CarryPair26(lo: int64, hi: int64) returns (lo': int64, hi': int64)
    requires -0x6000_0000_0000_0000 <= lo <= 0x6000_0000_0000_0000
    requires -0x6000_0000_0000_0000 <= hi <= 0x6000_0000_0000_0000
    ensures -33554432 <= lo' <= 33554432
    ensures lo' as int + 67108864 * hi' as int == lo as int + 67108864 * hi as int
  {
    var carry := (lo + 33554432) / 67108864;
    hi' := hi + carry;
    lo' := lo - carry * 67108864;
  }

  /** carry = (h[i] + (1 << 24)) >> 25; h[i + 1] += carry; h[i] -= carry << 25, for an odd i
      and limbs within b and d. */
  method FeCarry25(h: WideFe, i: nat, ghost b: int, ghost d: int) returns (g: WideFe)
    requires i < 9 && i % 2 == 1
    requires -b <= h[i] as int <= b <= 0x6000_0000_0000_0000
    requires -d <= h[i + 1] as int <= d <= 0x6000_0000_0000_0000
    ensures WideValue(g) == WideValue(h)
    ensures -16777216 <= g[i] <= 16777216
    ensures -b - 33554432 * d - 16777216 <= 33554432 * g[i + 1] as int <= b + 33554432 * d + 16777216
    ensures forall j :: 0 <= j < 10 && j != i && j != i + 1 ==> g[j] == h[j]
  {
    var x, y := CarryPair25(h[i], h[i + 1]);
    Keeps25(h, i, x, y, 0);
    g := h[i := x][i + 1 := y];
  }

  method CarryPair25(lo: int64, hi: int64) returns (lo': int64, hi': int64)
    requires -0x6000_0000_0000_0000 <= lo <= 0x6000_0000_0000_0000
    requires -0x6000_0000_0000_0000 <= hi <= 0x6000_0000_0000_0000
    ensures -16777216 <= lo' <= 16777216
    ensures lo' as int + 33554432 * hi' as int == lo as int + 33554432 * hi as int
  {
    var carry := (lo + 16777216) / 33554432;
    hi' := hi + carry;
    lo' := lo - carry * 33554432;
  }

  /** carry = (h[9] + (1 << 24)) >> 25; h[0] += carry * 19; h[9] -= carry << 25 */
  method FeWrap(h: WideFe, ghost b: int, ghost d: int) returns (g: WideFe)
    requires -33554432 * (b / 19) + 33554432 <= h[9] as int <= 33554432 * (b / 19) - 33554432
    requires 0 <= b <= 0x300_0000_0000
    requires -d <= h[0] as int <= d <= 0x4000_0000_0000_0000
    ensures WideValue(g) % P == WideValue(h) % P
    ensures -16777216 <= g[9] <= 16777216
    ensures -d - b <= g[0] as int <= d + b
    ensures forall j :: 1 <= j < 9 ==> g[j] == h[j]
  {
    var carry := (h[9] + 16777216) / 33554432;
    var x0, x9 := h[0] + carry * 19, h[9] - carry * 33554432;
    WrapValue(h, x0, x9, carry as int);
    ModP(WideValue(h), carry as int);
    g := h[0 := x0][9 := x9];
  }

  lemma ModP(v: int, q: int)
    ensures (v - P * q) % P == v % P
  {
  }

  predicate Apart(a: int, b: int, q: int) { a == b + P * q }

  /** Equal modulo p: apart by a multiple of p. */
  ghost predicate Eq(a: int, b: int) { exists q :: Apart(a, b, q) }

  /** Equality modulo p is equality of remainders. */
  lemma Congruence()
    ensures forall a, b :: Eq(a, b) <==> a % P == b % P
  {
    forall a, b ensures Eq(a, b) <==> a % P == b % P {
      if a % P == b % P {
        assert Apart(a, b, a / P - b / P);
      } else if Eq(a, b) {
        var q :| Apart(a, b, q);
        ModP(a, q);
      }
    }
  }

  predicate WideBounded(h: WideFe, b: int) {
    forall i :: 0 <= i < 10 ==> -b <= h[i] as int <= b
  }

  /** The twelve carries after a product. */
  method FeReduce(h: WideFe) returns (g: Fe)
    requires WideBounded(h, 0x5000_0000_0000_0000)
    ensures Value(g) % P == WideValue(h) % P && Bounded(g, TIGHT)
  {
    var t := FeCarry26(h, 0, 5764607523034234880, 5764607523034234880);
    t := FeCarry26(t, 4, 5764607523034234880, 5764607523034234880);
    t := FeCarry25(t, 1, 5764607608933580801, 5764607523034234880);
    t := FeCarry25(t, 5, 5764607608933580801, 5764607523034234880);
    t := FeCarry26(t, 2, 5764607694832929281, 5764607523034234880);
    t := FeCarry26(t, 6, 5764607694832929281, 5764607523034234880);
    t := FeReduceEnd(t);
    g := Narrowed(t);
  }

  /** The last six carries; limbs 0, 1, 2, 4, 5, 6 are balanced already. */
  method FeReduceEnd(h: WideFe) returns (g: WideFe)
    requires -33554432 <= h[0] <= 33554432 && -16777216 <= h[1] <= 16777216 && -33554432 <= h[2] <= 33554432
        && -5764607608933583361 <= h[3] <= 5764607608933583361 && -33554432 <= h[4] <= 33554432
    requires -16777216 <= h[5] <= 16777216 && -33554432 <= h[6] <= 33554432
        && -5764607608933583361 <= h[7] <= 5764607608933583361
        && -5764607523034234880 <= h[8] <= 5764607523034234880
        && -5764607523034234880 <= h[9] <= 5764607523034234880
    ensures WideValue(g) % P == WideValue(h) % P
    ensures forall i :: 0 <= i < 10 ==>
      if i % 2 == 0 then -2 * TIGHT <= g[i] as int <= 2 * TIGHT else -TIGHT <= g[i] as int <= TIGHT
  {
    g := FeCarry25(h, 3, 5764607608933583361, 33554432);
    g := FeCarry25(g, 7, 5764607608933583361, 5764607523034234880);
    g := FeCarry26(g, 4, 171832248833, 16777216);
    g := FeCarry26(g, 8, 5764607694832929281, 5764607523034234880);
    g := FeWrap(g, 3264175193638, 33554432);
    g := FeCarry26(g, 0, 3264208748070, 16777216);
  }

  /** The casts back to 32 bits. */
  method Narrowed(h: WideFe) returns (f: Fe)
    requires WideBounded(h, 0x7fff_ffff)
    ensures Widened(f) == h
    ensures forall i :: 0 <= i < 10 ==> f[i] as int == h[i] as int
  {
    f := seq(10, i requires 0 <= i < 10 => h[i] as int32);
  }

  lemma {:induction false} CombinedFrom(f: WideFe, g: WideFe, h: WideFe, m: int, i: nat)
    requires m == 1 || m == -1
    requires forall k :: 0 <= k < 10 ==> h[k] as int == f[k] as int + m * g[k] as int
    ensures PairsFrom(h, i) == PairsFrom(f, i) + m * PairsFrom(g, i)
    decreases 10 - i
  {
    if i <= 8 {
      CombinedFrom(f, g, h, m, i + 2);
    }
  }

  function FeAdd(f: Fe, g: Fe, ghost a: int, ghost b: int): (h: Fe)
    requires Bounded(f, a) && Bounded(g, b) && a >= 0 && b >= 0 && a + b <= 0x3fff_ffff
    ensures Value(h) == Value(f) + Value(g) && Bounded(h, a + b)
  {
    var h := seq(10, i requires 0 <= i < 10 => f[i] + g[i]);
    CombinedFrom(Widened(f), Widened(g), Widened(h), 1, 0);
    h
  }

  function FeSub(f: Fe, g: Fe, ghost a: int, ghost b: int): (h: Fe)
    requires Bounded(f, a) && Bounded(g, b) && a >= 0 && b >= 0 && a + b <= 0x3fff_ffff
    ensures Value(h) == Value(f) - Value(g) && Bounded(h, a + b)
  {
    var h := seq(10, i requires 0 <= i < 10 => f[i] - g[i]);
    CombinedFrom(Widened(f), Widened(g), Widened(h), -1, 0);
    h
  }

  function FeNeg(f: Fe, ghost a: int): (h: Fe)
    requires Bounded(f, a) && 0 <= a <= 0x3fff_ffff
    ensures Value(h) == -Value(f) && Bounded(h, a)
  {
    var h := seq(10, i requires 0 <= i < 10 => -f[i]);
    var z := seq(10, i requires 0 <= i < 10 => 0 as int64);
    CombinedFrom(z, Widened(f), Widened(h), -1, 0);
    ZeroFrom(z, 0);
    h
  }

  lemma {:induction false} ZeroFrom(z: WideFe, i: nat)
    requires forall k :: 0 <= k < 10 ==> z[k] == 0
    ensures PairsFrom(z, i) == 0
    decreases 10 - i
  {
    if i <= 8 {
      ZeroFrom(z, i + 2);
    }
  }
}
