// The scalar routines modulo the group order. Every routine keeps its limbs in
// s[0..24] (the 32-byte ones leave s[13..] at zero) and is a straight line of
// carries and folds; each step keeps the value modulo L.

module Scalars {
  import opened ByteStrings
  import opened ScalarLimbs

  // The order of the base point, section 5.1 of RFC 8032: 2^252 + 27742317777372353535851937790883648493.
  const L: int := 7237005577332262213973186563042994240857116359379907606001950938285454250989

  const TWO252: int := 7237005577332262213973186563042994240829374041602535252466099000494570602496

  /** The locals s0..s23. */
  type Limbs = s: seq<int64> | |s| == 24 witness seq(24, _ => 0)

  predicate Within(s: Limbs, lo: nat, hi: nat, b: int) {
    forall j :: lo <= j < hi && j < 24 ==> -b <= s[j] as int <= b
  }

  function Weight(i: nat): (w: nat)
    ensures w > 0
  {
    if i == 0 then 1 else 2097152 * Weight(i - 1)
  }

  lemma {:induction false} AddFrom(s: seq<int64>, i: nat, x: int64, d: int, k: nat)
    requires k <= i < |s| && x as int == s[i] as int + d
    ensures ValueFrom(s[i := x], k) == ValueFrom(s, k) + d * Weight(i - k)
    decreases i - k
  {
    if k == i {
      SameFrom(s, s[i := x], i + 1);
    } else {
      AddFrom(s, i, x, d, k + 1);
      assert 2097152 * (d * Weight(i - k - 1)) == d * (2097152 * Weight(i - k - 1));
    }
  }

  lemma {:induction false} SameFrom(s: seq<int64>, t: seq<int64>, i: nat)
    requires i <= |s| == |t|
    requires forall j :: i <= j < |s| ==> s[j] == t[j]
    ensures ValueFrom(s, i) == ValueFrom(t, i)
    decreases |s| - i
  {
    if i < |s| {
      SameFrom(s, t, i + 1);
    }
  }

  /** Adding d to limb i adds d times its weight. */
  lemma AddToLimb(s: seq<int64>, i: nat, x: int64, d: int)
    requires i < |s| && x as int == s[i] as int + d
    ensures Value(s[i := x]) == Value(s) + d * Weight(i)
  {
    AddFrom(s, i, x, d, 0);
  }

  /** A carry moves c units of limb i + 1 out of limb i. */
  lemma CarryKeeps(s: Limbs, i: nat, x: int64, y: int64, c: int)
    requires i < 23
    requires x as int == s[i] as int - c * 2097152
    requires y as int == s[i + 1] as int + c
    ensures Value(s[i + 1 := y][i := x]) == Value(s)
  {
    AddToLimb(s, i + 1, y, c);
    AddToLimb(s[i + 1 := y], i, x, -(c * 2097152));
    assert c * (2097152 * Weight(i)) == (c * 2097152) * Weight(i);
  }

  /** carry = (s[i] + (1 << 20)) >> 21; s[i + 1] += carry; s[i] -= carry << 21 */
  method CarryRound(s: Limbs, i: nat) returns (t: Limbs)
    requires i < 23
    requires Within(s, i, i + 2, 0x4000_0000_0000_0000)
    ensures Value(t) == Value(s)
    ensures -1048576 <= t[i] < 1048576
    ensures t[i] as int + 2097152 * t[i + 1] as int == s[i] as int + 2097152 * s[i + 1] as int
    ensures forall j :: 0 <= j < 24 && j != i && j != i + 1 ==> t[j] == s[j]
  {
    var carry := (s[i] + 1048576) / 2097152;
    var x, y := s[i] - carry * 2097152, s[i + 1] + carry;
    CarryKeeps(s, i, x, y, carry as int);
    t := s[i + 1 := y][i := x];
  }

  /** carry = s[i] >> 21; s[i + 1] += carry; s[i] -= carry << 21 */
  method Carry(s: Limbs, i: nat) returns (t: Limbs)
    requires i < 23
    requires Within(s, i, i + 2, 0x4000_0000_0000_0000)
    ensures Value(t) == Value(s)
    ensures 0 <= t[i] < 2097152
    ensures t[i] as int + 2097152 * t[i + 1] as int == s[i] as int + 2097152 * s[i + 1] as int
    ensures forall j :: 0 <= j < 24 && j != i && j != i + 1 ==> t[j] == s[j]
  {
    var carry := s[i] / 2097152;
    var x, y := s[i] - carry * 2097152, s[i + 1] + carry;
    CarryKeeps(s, i, x, y, carry as int);
    t := s[i + 1 := y][i := x];
  }

  lemma WeightTwelve(i: nat)
    ensures Weight(i + 1) == 2097152 * Weight(i)
    ensures Weight(i + 2) == 4398046511104 * Weight(i)
    ensures Weight(i + 3) == 9223372036854775808 * Weight(i)
    ensures Weight(i + 4) == 19342813113834066795298816 * Weight(i)
    ensures Weight(i + 5) == 40564819207303340847894502572032 * Weight(i)
    ensures Weight(i + 12) == TWO252 * Weight(i)
  {
    assert Weight(i + 2) == 2097152 * Weight(i + 1);
    assert Weight(i + 4) == 2097152 * Weight(i + 3);
    assert Weight(i + 6) == 2097152 * Weight(i + 5);
    assert Weight(i + 8) == 2097152 * Weight(i + 7);
    assert Weight(i + 10) == 2097152 * Weight(i + 9);
    assert Weight(i + 12) == 2097152 * Weight(i + 11);
  }

  /** 666643 + 470296 2^21 + 654183 2^42 - 997805 2^63 + 136657 2^84 - 683901 2^105 is 2^252 - L. */
  lemma FoldArithmetic(x: int, i: nat)
    ensures x * 666643 * Weight(i) + x * 470296 * Weight(i + 1) + x * 654183 * Weight(i + 2)
            + (-(x * 997805)) * Weight(i + 3) + x * 136657 * Weight(i + 4) + (-(x * 683901)) * Weight(i + 5)
            + (-x) * Weight(i + 12) == -(x * Weight(i) * L)
  {
    WeightTwelve(i);
    FoldSum(x, Weight(i));
  }

  lemma FoldSum(x: int, w: int)
    ensures x * 666643 * w + x * 470296 * (2097152 * w) + x * 654183 * (4398046511104 * w)
            + (-(x * 997805)) * (9223372036854775808 * w) + x * 136657 * (19342813113834066795298816 * w)
            + (-(x * 683901)) * (40564819207303340847894502572032 * w)
            + (-x) * (TWO252 * w) == -(x * w * L)
  {
  }

  lemma FoldKeeps(s: Limbs, i: nat, y0: int64, y1: int64, y2: int64, y3: int64, y4: int64, y5: int64)
    requires i < 12
    requires var x := s[i + 12] as int;
      && y0 as int == s[i] as int + x * 666643
      && y1 as int == s[i + 1] as int + x * 470296
      && y2 as int == s[i + 2] as int + x * 654183
      && y3 as int == s[i + 3] as int - x * 997805
      && y4 as int == s[i + 4] as int + x * 136657
      && y5 as int == s[i + 5] as int - x * 683901
    ensures Value(s[i := y0][i + 1 := y1][i + 2 := y2][i + 3 := y3][i + 4 := y4][i + 5 := y5][i + 12 := 0])
         == Value(s) - s[i + 12] as int * Weight(i) * L
  {
    var x := s[i + 12] as int;
    var s1 := s[i := y0];
    var s2 := s1[i + 1 := y1];
    var s3 := s2[i + 2 := y2];
    var s4 := s3[i + 3 := y3];
    var s5 := s4[i + 4 := y4];
    var s6 := s5[i + 5 := y5];
    AddToLimb(s, i, y0, x * 666643);
    AddToLimb(s1, i + 1, y1, x * 470296);
    AddToLimb(s2, i + 2, y2, x * 654183);
    AddToLimb(s3, i + 3, y3, -(x * 997805));
    AddToLimb(s4, i + 4, y4, x * 136657);
    AddToLimb(s5, i + 5, y5, -(x * 683901));
    AddToLimb(s6, i + 12, 0, -x);
    FoldArithmetic(x, i);
  }

  /** Folds limb k into the six limbs from k - 12 on. The source zeroes only s12; the other folded limbs are dead.
      Limbs below n are within b before and within b + 10^6 c after, when limb k is within c. */
  method Fold(s: Limbs, k: nat, ghost n: nat, ghost b: int, ghost c: int) returns (t: Limbs)
    requires 12 <= k < 24 && k - 6 <= n <= k
    requires Within(s, 0, n, b) && Within(s, k, k + 1, c)
    requires b >= 0 && c >= 0 && b + 1000000 * c <= 0x4000_0000_0000_0000
    ensures Value(t) % L == Value(s) % L
    ensures k == 12 ==> Value(t) == Value(s) - L * s[12] as int
    ensures Within(t, 0, n, b + 1000000 * c) && t[k] == 0
    ensures forall j :: 0 <= j < 24 && j != k && !(k - 12 <= j < k - 6) ==> t[j] == s[j]
  {
    hide Value, Weight;
    WeightZero();
    var x, i := s[k], k - 12;
    var y0, y1, y2 := s[i] + x * 666643, s[i + 1] + x * 470296, s[i + 2] + x * 654183;
    var y3, y4, y5 := s[i + 3] - x * 997805, s[i + 4] + x * 136657, s[i + 5] - x * 683901;
    FoldKeeps(s, i, y0, y1, y2, y3, y4, y5);
    ModL(Value(s), x as int * Weight(i));
    t := s[i := y0][i + 1 := y1][i + 2 := y2][i + 3 := y3][i + 4 := y4][i + 5 := y5][k := 0];
  }

  lemma WeightZero()
    ensures Weight(0) == 1
  {
  }

  lemma ModL(v: int, q: int)
    ensures (v - q * L) % L == v % L
  {
  }

  /** Even limbs are within e and odd ones within o; from lo up to i they are within e1 and o1. */
  predicate Pass(s: Limbs, lo: nat, i: nat, e: int, o: int, e1: int, o1: int) {
    forall j :: 0 <= j < 24 ==>
      var b := if lo <= j < i then (if j % 2 == 0 then e1 else o1) else (if j % 2 == 0 then e else o);
      -b <= s[j] as int <= b
  }

  /** A rounded carry out of an even limb, within a pass over even limbs. */
  method RoundEven(s: Limbs, i: nat, ghost lo: nat, ghost e: int, ghost o: int) returns (t: Limbs)
    requires lo <= i < 23 && i % 2 == 0 && lo % 2 == 0
    requires 0 <= e <= 0x1000_0000_0000_0000 && 0 <= o <= 0x1000_0000_0000_0000
    requires Pass(s, lo, i, e, o, 1048576, o + e / 2097152 + 1)
    ensures Pass(t, lo, i + 2, e, o, 1048576, o + e / 2097152 + 1)
    ensures Value(t) == Value(s)
    ensures forall j :: 0 <= j < 24 && j != i && j != i + 1 ==> t[j] == s[j]
    ensures -(e / 2097152) - 1 <= t[i + 1] as int - s[i + 1] as int <= e / 2097152 + 1
  {
    t := CarryRound(s, i);
  }

  /** A rounded carry out of an odd limb, within a pass over odd limbs. */
  method RoundOdd(s: Limbs, i: nat, ghost lo: nat, ghost e: int, ghost o: int) returns (t: Limbs)
    requires lo <= i < 23 && i % 2 == 1 && lo % 2 == 1
    requires 0 <= e <= 0x1000_0000_0000_0000 && 0 <= o <= 0x1000_0000_1000_0000
    requires Pass(s, lo, i, e, o, e + o / 2097152 + 1, 1048576)
    ensures Pass(t, lo, i + 2, e, o, e + o / 2097152 + 1, 1048576)
    ensures Value(t) == Value(s)
    ensures forall j :: 0 <= j < 24 && j != i && j != i + 1 ==> t[j] == s[j]
  {
    t := CarryRound(s, i);
  }

  /** Carries out of the even limbs of a product. */
  method RoundProductEvens(s: Limbs) returns (t: Limbs)
    requires Within(s, 0, 24, 0x40_0000_0000_0000) && s[23] == 0
    ensures Value(t) == Value(s)
    ensures Pass(t, 1, 1, 1048576, 0x40_0002_0000_0001, 0, 0)
    ensures -0x2_0000_0001 <= t[23] <= 0x2_0000_0001
  {
    ghost var b := 0x40_0000_0000_0000;
    t := RoundEven(s, 0, 0, b, b);
    t := RoundEven(t, 2, 0, b, b);
    t := RoundEven(t, 4, 0, b, b);
    t := RoundEven(t, 6, 0, b, b);
    t := RoundEven(t, 8, 0, b, b);
    t := RoundEven(t, 10, 0, b, b);
    t := RoundProductEvensHigh(t);
  }

  method RoundProductEvensHigh(s: Limbs) returns (t: Limbs)
    requires Pass(s, 0, 12, 0x40_0000_0000_0000, 0x40_0000_0000_0000, 1048576, 0x40_0002_0000_0001) && s[23] == 0
    ensures Value(t) == Value(s)
    ensures Pass(t, 1, 1, 1048576, 0x40_0002_0000_0001, 0, 0)
    ensures -0x2_0000_0001 <= t[23] <= 0x2_0000_0001
  {
    ghost var b := 0x40_0000_0000_0000;
    t := RoundEven(s, 12, 0, b, b);
    t := RoundEven(t, 14, 0, b, b);
    t := RoundEven(t, 16, 0, b, b);
    t := RoundEven(t, 18, 0, b, b);
    t := RoundEven(t, 20, 0, b, b);
    t := RoundEven(t, 22, 0, b, b);
  }

  /** Carries out of the odd limbs of a product. */
  method RoundProductOdds(s: Limbs) returns (t: Limbs)
    requires Pass(s, 1, 1, 1048576, 0x40_0002_0000_0001, 0, 0)
    requires -0x2_0000_0001 <= s[23] <= 0x2_0000_0001
    ensures Value(t) == Value(s)
    ensures Within(t, 0, 24, 0x3_0000_0000)
  {
    ghost var e, o := 1048576, 0x40_0002_0000_0001;
    t := RoundOdd(s, 1, 1, e, o);
    t := RoundOdd(t, 3, 1, e, o);
    t := RoundOdd(t, 5, 1, e, o);
    t := RoundOdd(t, 7, 1, e, o);
    t := RoundOdd(t, 9, 1, e, o);
    t := RoundOdd(t, 11, 1, e, o);
    t := RoundOdd(t, 13, 1, e, o);
    t := RoundOdd(t, 15, 1, e, o);
    t := RoundOdd(t, 17, 1, e, o);
    t := RoundOdd(t, 19, 1, e, o);
    t := RoundOdd(t, 21, 1, e, o);
  }

  /** Folds limbs 23 down to 18. */
  method FoldHigh(s: Limbs) returns (t: Limbs)
    requires Within(s, 0, 24, 0x3_0000_0000)
    ensures Value(t) % L == Value(s) % L
    ensures Within(t, 0, 18, 0x140_0000_0000_0000) && Within(t, 18, 24, 0)
    ensures Within(t, 0, 6, 0x3_0000_0000) && Within(t, 17, 18, 0x3_0000_0000)
  {
    ghost var b, c := 0x3_0000_0000, 0x3_0000_0000;
    t := Fold(s, 23, 18, b, c);
    t := Fold(t, 22, 18, b + 1000000 * c, c);
    t := Fold(t, 21, 18, b + 2000000 * c, c);
    t := Fold(t, 20, 18, b + 3000000 * c, c);
    t := Fold(t, 19, 18, b + 4000000 * c, c);
    t := Fold(t, 18, 18, b + 5000000 * c, c);
  }

  /** Carries between the two groups of folds: limbs 6, 8, .., 16. */
  method RoundMiddleEvens(s: Limbs) returns (t: Limbs)
    requires Within(s, 0, 18, 0x140_0000_0000_0000) && Within(s, 18, 24, 0)
    requires Within(s, 0, 6, 0x3_0000_0000) && Within(s, 17, 18, 0x3_0000_0000)
    ensures Value(t) == Value(s)
    ensures Pass(t, 7, 7, 0x3_0000_0000, 0x140_000A_0000_0001, 0, 0)
    ensures Within(t, 17, 18, 0x10_0000_0000) && Within(t, 18, 24, 0)
  {
    ghost var b := 0x140_0000_0000_0000;
    t := RoundEven(s, 6, 6, b, b);
    t := RoundEven(t, 8, 6, b, b);
    t := RoundEven(t, 10, 6, b, b);
    t := RoundEven(t, 12, 6, b, b);
    t := RoundEven(t, 14, 6, b, b);
    t := RoundEven(t, 16, 6, b, b);
  }

  /** Carries between the two groups of folds: limbs 7, 9, .., 15. */
  method RoundMiddleOdds(s: Limbs) returns (t: Limbs)
    requires Pass(s, 7, 7, 0x3_0000_0000, 0x140_000A_0000_0001, 0, 0)
    requires Within(s, 17, 18, 0x10_0000_0000) && Within(s, 18, 24, 0)
    ensures Value(t) == Value(s)
    ensures Within(t, 0, 12, 0x140_0100_0000_0000) && Within(t, 12, 18, 0x10_0000_0000) && Within(t, 18, 24, 0)
  {
    ghost var e, o := 0x3_0000_0000, 0x140_000A_0000_0001;
    t := RoundOdd(s, 7, 7, e, o);
    t := RoundOdd(t, 9, 7, e, o);
    t := RoundOdd(t, 11, 7, e, o);
    t := RoundOdd(t, 13, 7, e, o);
    t := RoundOdd(t, 15, 7, e, o);
  }

  /** Folds limbs 17 down to 12. */
  method FoldMiddle(s: Limbs) returns (t: Limbs)
    requires Within(s, 0, 12, 0x140_0100_0000_0000) && Within(s, 12, 18, 0x10_0000_0000) && Within(s, 18, 24, 0)
    ensures Value(t) % L == Value(s) % L
    ensures Within(t, 0, 12, 0x800_0000_0000_0000) && Within(t, 12, 24, 0)
  {
    ghost var b, c := 0x140_0100_0000_0000, 0x10_0000_0000;
    t := Fold(s, 17, 12, b, c);
    t := Fold(t, 16, 12, b + 1000000 * c, c);
    t := Fold(t, 15, 12, b + 2000000 * c, c);
    t := Fold(t, 14, 12, b + 3000000 * c, c);
    t := Fold(t, 13, 12, b + 4000000 * c, c);
    t := Fold(t, 12, 12, b + 5000000 * c, c);
  }

  // The last steps, common to every routine: limbs 0..11 on entry, s12 = 0.

  method RoundLow(s: Limbs) returns (t: Limbs)
    requires Within(s, 0, 12, 0x800_0000_0000_0000) && Within(s, 12, 24, 0)
    ensures Value(t) == Value(s)
    ensures Within(t, 0, 13, 0x100_0000_0000) && Within(t, 13, 24, 0)
    ensures -1048576 <= t[9] <= 1048576 && -1048576 <= t[11] <= 1048576
  {
    t := RoundLowEvens(s);
    t := RoundLowOdds(t);
  }

  method RoundLowEvens(s: Limbs) returns (t: Limbs)
    requires Within(s, 0, 12, 0x800_0000_0000_0000) && Within(s, 12, 24, 0)
    ensures Value(t) == Value(s)
    ensures Pass(t, 1, 1, 1048576, 0x800_0040_0000_0001, 0, 0) && Within(t, 12, 24, 0)
  {
    ghost var b := 0x800_0000_0000_0000;
    t := RoundEven(s, 0, 0, b, b);
    t := RoundEven(t, 2, 0, b, b);
    t := RoundEven(t, 4, 0, b, b);
    t := RoundEven(t, 6, 0, b, b);
    t := RoundEven(t, 8, 0, b, b);
    t := RoundEven(t, 10, 0, b, b);
  }

  method RoundLowOdds(s: Limbs) returns (t: Limbs)
    requires Pass(s, 1, 1, 1048576, 0x800_0040_0000_0001, 0, 0) && Within(s, 12, 24, 0)
    ensures Value(t) == Value(s)
    ensures Within(t, 0, 13, 0x100_0000_0000) && Within(t, 13, 24, 0)
    ensures -1048576 <= t[9] <= 1048576 && -1048576 <= t[11] <= 1048576
  {
    ghost var e, o := 1048576, 0x800_0040_0000_0001;
    t := RoundOdd(s, 1, 1, e, o);
    t := RoundOdd(t, 3, 1, e, o);
    t := RoundOdd(t, 5, 1, e, o);
    t := RoundOdd(t, 7, 1, e, o);
    t := RoundOdd(t, 9, 1, e, o);
    t := RoundOdd(t, 11, 1, e, o);
  }

  /** Limbs below i are digits in base 2^21; limb i may be carrying; limbs from n on are zero. */
  predicate Floored(s: Limbs, i: nat, n: nat)
    requires i < 24
  {
    && (forall j :: 0 <= j < i ==> 0 <= s[j] < 2097152)
    && -0x4000_0000_0000_0000 <= s[i] <= 0x4000_0000_0000_0000
    && Within(s, i + 1, n, 0x2000_0000_0000_0000)
    && Within(s, if n > i + 1 then n else i + 1, 24, 0)
  }

  method FloorAt(s: Limbs, i: nat) returns (t: Limbs)
    requires i < 12 && Floored(s, i, 12)
    ensures Floored(t, i + 1, 12)
    ensures Value(t) == Value(s)
  {
    t := Carry(s, i);
  }

  method FloorLow(s: Limbs) returns (t: Limbs)
    requires Floored(s, 0, 12)
    ensures Value(t) == Value(s)
    ensures Floored(t, 11, 12)
  {
    t := FloorAt(s, 0);
    t := FloorAt(t, 1);
    t := FloorAt(t, 2);
    t := FloorAt(t, 3);
    t := FloorAt(t, 4);
    t := FloorAt(t, 5);
    t := FloorAt(t, 6);
    t := FloorAt(t, 7);
    t := FloorAt(t, 8);
    t := FloorAt(t, 9);
    t := FloorAt(t, 10);
  }

  /** With limbs from 13 on at zero, the value is that of limbs 0..12. */
  lemma LowValue(s: Limbs)
    requires Within(s, 13, 24, 0)
    ensures Value(s) == s[0] as int + 2097152 * s[1] as int + 4398046511104 * s[2] as int
            + 9223372036854775808 * s[3] as int
            + 19342813113834066795298816 * (s[4] as int + 2097152 * s[5] as int + 4398046511104 * s[6] as int
            + 9223372036854775808 * s[7] as int)
            + 374144419156711147060143317175368453031918731001856 * (s[8] as int + 2097152 * s[9] as int
            + 4398046511104 * s[10] as int + 9223372036854775808 * s[11] as int) + TWO252 * s[12] as int
  {
    var z: Limbs := seq(24, _ => 0);
    ZeroFrom(s, 13);
    HornerFour(s, 0);
    HornerFour(s, 4);
    HornerFour(s, 8);
  }

  lemma {:induction false} ZeroFrom(s: seq<int64>, i: nat)
    requires i <= |s|
    requires forall j :: i <= j < |s| ==> s[j] == 0
    ensures ValueFrom(s, i) == 0
    decreases |s| - i
  {
    if i < |s| {
      ZeroFrom(s, i + 1);
    }
  }

  /** Balanced limbs leave, after their fold, a value within 2^252 of zero. */
  lemma FoldedRange(s: Limbs)
    requires Within(s, 0, 13, 0x100_0000_0000) && Within(s, 13, 24, 0)
    requires -1048576 <= s[9] <= 1048576 && -1048576 <= s[11] <= 1048576
    ensures -TWO252 <= Value(s) - L * s[12] as int < TWO252
  {
    LowValue(s);
  }

  /** Digits 0..10 in base 2^21 leave limbs 11 and 12 as the floor of the rest. */
  lemma FlooredRange(s: Limbs)
    requires Floored(s, 11, 12)
    ensures 0 <= Value(s) - 3450873173395281893717377931138512726225554486085193277581262111899648 * s[11] as int
          < 3450873173395281893717377931138512726225554486085193277581262111899648
  {
    LowValue(s);
  }

  /** s12 before the last fold is always -1 or 0. */
  method SettleTop(s: Limbs) returns (t: Limbs)
    requires Within(s, 0, 12, 0x800_0000_0000_0000) && Within(s, 12, 24, 0)
    ensures Value(t) % L == Value(s) % L && -TWO252 <= Value(t) < TWO252
    ensures Floored(t, 12, 13) && (t[12] == -1 || t[12] == 0)
  {
    t := RoundLow(s);
    FoldedRange(t);
    t := Fold(t, 12, 12, 0x100_0000_0000, 0x100_0000_0000);
    t := FloorLow(t);
    FlooredRange(t);
    t := FloorAt(t, 11);
    TopDigit(t);
  }

  lemma TopDigit(s: Limbs)
    requires Floored(s, 12, 13) && -TWO252 <= Value(s) < TWO252
    ensures s[12] == -1 || s[12] == 0
    ensures 0 <= Value(s) - TWO252 * s[12] as int < TWO252
  {
    LowValue(s);
  }

  /** The last fold and carries: from s12 in -1..0 to the canonical residue. */
  method Canonical(s: Limbs) returns (t: Limbs)
    requires Floored(s, 12, 13) && (s[12] == -1 || s[12] == 0) && -TWO252 <= Value(s) < TWO252
    ensures Value(t) % L == Value(s) % L && 0 <= Value(t) < L
    ensures Floored(t, 11, 12) && 0 <= t[11] <= 2097152
  {
    TopDigit(s);
    t := Fold(s, 12, 12, 2097152, 1);
    t := FloorLow(t);
    FlooredRange(t);
  }

  method Store(s: seq<int64>) returns (r: seq<byte>)
    requires Reduced(s)
    ensures |r| == 32 && Le(r) == Value(s)
  {
    StoreLimbsValue(s);
    r := StoreLimbs(s);
  }

  /** Brings limbs of at most 2^59 to the 32 bytes of the canonical residue of their value. */
  method Finish(s: Limbs) returns (r: seq<byte>)
    requires Within(s, 0, 12, 0x800_0000_0000_0000) && Within(s, 12, 24, 0)
    ensures |r| == 32 && Le(r) == Value(s) % L
  {
    var t := SettleTop(s);
    t := Canonical(t);
    var low := t[..12];
    LowLimbs(t, 0);
    r := Store(low);
  }

  lemma {:induction false} LowLimbs(s: Limbs, i: nat)
    requires Within(s, 12, 24, 0) && i <= 12
    ensures ValueFrom(s[..12], i) == ValueFrom(s, i)
    decreases 12 - i
  {
    if i < 12 {
      LowLimbs(s, i + 1);
    } else {
      ZeroFrom(s, 12);
    }
  }

  /** Everything after the 24 limbs are balanced. */
  method ReduceWide(s: Limbs) returns (r: seq<byte>)
    requires Within(s, 0, 24, 0x3_0000_0000)
    ensures |r| == 32 && Le(r) == Value(s) % L
  {
    var t := FoldHigh(s);
    t := RoundMiddleEvens(t);
    t := RoundMiddleOdds(t);
    t := FoldMiddle(t);
    r := Finish(t);
  }
}
