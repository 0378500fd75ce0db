// Radix-2^21 limb vectors: loading 32 or 64 bytes, storing 32 bytes, the
// columns of a product, and the value each of these keeps.

module ScalarLimbs {
  import opened Arithmetic
  import opened ByteStrings

  /** Value of limbs i, i + 1, ... with limb i as the units. */
  function ValueFrom(l: seq<int64>, i: nat): int
    requires i <= |l|
    decreases |l| - i
  {
    if i == |l| then 0 else l[i] as int + 2097152 * ValueFrom(l, i + 1)
  }

  function Value(l: seq<int64>): int { ValueFrom(l, 0) }

  /** 2097151 & (load_3(s + k) >> r), with p = 2^r */
  function Limb3(s: seq<byte>, k: nat, p: int64): (l: int64)
    requires p > 0 && k + 3 <= |s|
    ensures 0 <= l < 2097152
  {
    (Load3(s, k) / p) % 2097152
  }

  /** 2097151 & (load_4(s + k) >> r), with p = 2^r */
  function Limb4(s: seq<byte>, k: nat, p: int64): (l: int64)
    requires p > 0 && k + 4 <= |s|
    ensures 0 <= l < 2097152
  {
    (Load4(s, k) / p) % 2097152
  }

  // Cutting 21 bits out of a byte string at bit r of a byte, with p = 2^r.

  /** The 21 bits of v above the lowest r are those of the longer v + w z. */
  lemma Cut(v: nat, w: nat, z: nat, p: nat, g: nat)
    requires p > 0 && g > 0 && w == p * (2097152 * g)
    ensures (v + w * z) / p == (v / p) % 2097152 + 2097152 * ((v + w * z) / (2097152 * p))
  {
    var x, q := v + w * z, v / p;
    assert x == p * (q + 2097152 * (g * z)) + v % p by {
      Distribute(p, q, 2097152 * (g * z));
      assert w * z == p * (2097152 * (g * z));
    }
    NonNegative(g, z);
    Division(x, p, q + 2097152 * (g * z), v % p);
    SameResidue(q, q + 2097152 * (g * z), g * z, 2097152);
    QuotientOfQuotient(x, p, 2097152);
  }

  /** Bits that start past the first m are those of the rest. */
  lemma Skip(lo: nat, m: nat, y: nat, d: nat)
    requires lo < m && d > 0
    ensures m * d > 0 && (lo + m * y) / (m * d) == y / d
  {
    Division(lo + m * y, m, y, lo);
    QuotientOfQuotient(lo + m * y, m, d);
    assert m * d == d * m;
  }

  lemma TwoBytes(s: seq<byte>, k: nat)
    requires k + 2 <= |s|
    ensures LeFrom(s, k) == s[k] as int + 256 * s[k + 1] as int + 65536 * LeFrom(s, k + 2)
  {
    assert LeFrom(s, k + 1) == s[k + 1] + 256 * LeFrom(s, k + 2);
  }

  /** Bits 0, 1 and 2 of a byte: the next limb starts in the second byte after. */
  lemma CutLow(s: seq<byte>, k: nat, p: nat, g: nat)
    requires k + 3 <= |s| && g > 0 && p * g == 8
    ensures p > 0 && LeFrom(s, k) / p == Limb3(s, k, p as int64) as int + 2097152 * (LeFrom(s, k + 2) / (32 * p))
  {
    hide LeFrom, Load3;
    LoadedFrom(s, k);
    TwoBytes(s, k);
    Cut(Load3(s, k) as int, 16777216, LeFrom(s, k + 3), p, g);
    Skip(s[k] as int + 256 * s[k + 1] as int, 65536, LeFrom(s, k + 2), 32 * p);
    assert 65536 * (32 * p) == 2097152 * p;
  }

  /** Bit 3: the limb ends with the third byte. */
  lemma CutMiddle(s: seq<byte>, k: nat)
    requires k + 3 <= |s|
    ensures LeFrom(s, k) / 8 == Limb3(s, k, 8) as int + 2097152 * LeFrom(s, k + 3)
  {
    LoadedFrom(s, k);
    Cut(Load3(s, k) as int, 16777216, LeFrom(s, k + 3), 8, 1);
    Skip(Load3(s, k) as int, 16777216, LeFrom(s, k + 3), 1);
  }

  /** Bits 4 to 7: the next limb starts in the third byte after. */
  lemma CutHigh(s: seq<byte>, k: nat, p: nat, d: nat, g: nat)
    requires k + 4 <= |s| && d > 0 && p == 8 * d && d * g == 256
    ensures LeFrom(s, k) / p == Limb4(s, k, p as int64) as int + 2097152 * (LeFrom(s, k + 3) / d)
  {
    LoadedFrom(s, k);
    Cut(Load4(s, k) as int, 4294967296, LeFrom(s, k + 4), p, g);
    Skip(Load3(s, k) as int, 16777216, LeFrom(s, k + 3), d);
  }

  lemma HornerFour(l: seq<int64>, i: nat)
    requires i + 4 <= |l|
    ensures ValueFrom(l, i) == l[i] as int + 2097152 * l[i + 1] as int + 4398046511104 * l[i + 2] as int
            + 9223372036854775808 * l[i + 3] as int + 19342813113834066795298816 * ValueFrom(l, i + 4)
  {
    assert ValueFrom(l, i + 2) == l[i + 2] as int + 2097152 * ValueFrom(l, i + 3);
  }

  /** Four limbs from a byte boundary on. */
  lemma FourLow(a: seq<byte>, k: nat, l: seq<int64>, i: nat)
    requires k + 11 <= |a| && i + 4 <= |l|
    requires l[i] == Limb3(a, k, 1) && l[i + 1] == Limb4(a, k + 2, 32)
    requires l[i + 2] == Limb3(a, k + 5, 4) && l[i + 3] == Limb4(a, k + 7, 128)
    requires ValueFrom(l, i + 4) == LeFrom(a, k + 10) / 16
    ensures ValueFrom(l, i) == LeFrom(a, k)
  {
    CutLow(a, k, 1, 8);
    CutHigh(a, k + 2, 32, 4, 64);
    CutLow(a, k + 5, 4, 2);
    CutHigh(a, k + 7, 128, 16, 16);
    assert ValueFrom(l, i + 3) == LeFrom(a, k + 7) / 128;
    assert ValueFrom(l, i + 2) == LeFrom(a, k + 5) / 4;
    assert ValueFrom(l, i + 1) == LeFrom(a, k + 2) / 32;
  }

  /** Four limbs from bit 4 of a byte up to a byte boundary. */
  lemma FourHigh(a: seq<byte>, k: nat, l: seq<int64>, i: nat)
    requires k + 11 <= |a| && i + 4 <= |l|
    requires l[i] == Limb4(a, k, 16) && l[i + 1] == Limb3(a, k + 3, 2)
    requires l[i + 2] == Limb4(a, k + 5, 64) && l[i + 3] == Limb3(a, k + 8, 8)
    requires ValueFrom(l, i + 4) == LeFrom(a, k + 11)
    ensures ValueFrom(l, i) == LeFrom(a, k) / 16
  {
    CutHigh(a, k, 16, 2, 128);
    CutLow(a, k + 3, 2, 4);
    CutHigh(a, k + 5, 64, 8, 32);
    CutMiddle(a, k + 8);
    assert ValueFrom(l, i + 3) == LeFrom(a, k + 8) / 8;
    assert ValueFrom(l, i + 2) == LeFrom(a, k + 5) / 64;
    assert ValueFrom(l, i + 1) == LeFrom(a, k + 3) / 2;
  }

  /** The top four limbs of a 32-byte string; the last takes all that remains. */
  lemma TopOf32(a: seq<byte>, l: seq<int64>)
    requires |a| == 32 && |l| == 12
    requires l[8] == Limb3(a, 21, 1) && l[9] == Limb4(a, 23, 32)
    requires l[10] == Limb3(a, 26, 4) && l[11] == Load4(a, 28) / 128
    ensures ValueFrom(l, 8) == LeFrom(a, 21)
  {
    LoadedFrom(a, 28);
    assert ValueFrom(l, 11) == LeFrom(a, 28) / 128;
    CutLow(a, 26, 4, 2);
    assert ValueFrom(l, 10) == LeFrom(a, 26) / 4;
    CutHigh(a, 23, 32, 4, 64);
    assert ValueFrom(l, 9) == LeFrom(a, 23) / 32;
    CutLow(a, 21, 1, 8);
  }

  /** The top four limbs of a 64-byte string. */
  lemma TopOf64(a: seq<byte>, l: seq<int64>)
    requires |a| == 64 && |l| == 24
    requires l[20] == Limb4(a, 52, 16) && l[21] == Limb3(a, 55, 2)
    requires l[22] == Limb4(a, 57, 64) && l[23] == Load4(a, 60) / 8
    ensures ValueFrom(l, 20) == LeFrom(a, 52) / 16
  {
    LoadedFrom(a, 60);
    assert ValueFrom(l, 23) == LeFrom(a, 60) / 8;
    CutHigh(a, 57, 64, 8, 32);
    assert ValueFrom(l, 22) == LeFrom(a, 57) / 64;
    CutLow(a, 55, 2, 4);
    assert ValueFrom(l, 21) == LeFrom(a, 55) / 2;
    CutHigh(a, 52, 16, 2, 128);
  }

  /** The twelve limbs of a 32-byte string; the last keeps all 25 remaining bits. */
  function LoadLimbs(a: seq<byte>): (l: seq<int64>)
    requires |a| == 32
    ensures |l| == 12 && (forall i :: 0 <= i < 11 ==> 0 <= l[i] < 2097152) && 0 <= l[11] < 33554432
  {
    [Limb3(a, 0, 1), Limb4(a, 2, 32), Limb3(a, 5, 4), Limb4(a, 7, 128), Limb4(a, 10, 16), Limb3(a, 13, 2),
     Limb4(a, 15, 64), Limb3(a, 18, 8), Limb3(a, 21, 1), Limb4(a, 23, 32), Limb3(a, 26, 4), Load4(a, 28) / 128]
  }

  lemma LoadLimbsValue(a: seq<byte>)
    requires |a| == 32
    ensures Value(LoadLimbs(a)) == Le(a)
  {
    var l := LoadLimbs(a);
    TopOf32(a, l);
    FourHigh(a, 10, l, 4);
    FourLow(a, 0, l, 0);
  }

  /** The 24 limbs of a 64-byte string; the last keeps all 29 remaining bits. */
  function LoadWide(a: seq<byte>): (l: seq<int64>)
    requires |a| == 64
    ensures |l| == 24 && (forall i :: 0 <= i < 23 ==> 0 <= l[i] < 2097152) && 0 <= l[23] < 536870912
  {
    [Limb3(a, 0, 1), Limb4(a, 2, 32), Limb3(a, 5, 4), Limb4(a, 7, 128), Limb4(a, 10, 16), Limb3(a, 13, 2),
     Limb4(a, 15, 64), Limb3(a, 18, 8), Limb3(a, 21, 1), Limb4(a, 23, 32), Limb3(a, 26, 4), Limb4(a, 28, 128),
     Limb4(a, 31, 16), Limb3(a, 34, 2), Limb4(a, 36, 64), Limb3(a, 39, 8), Limb3(a, 42, 1), Limb4(a, 44, 32),
     Limb3(a, 47, 4), Limb4(a, 49, 128), Limb4(a, 52, 16), Limb3(a, 55, 2), Limb4(a, 57, 64), Load4(a, 60) / 8]
  }

  lemma LoadWideValue(a: seq<byte>)
    requires |a| == 64
    ensures Value(LoadWide(a)) == Le(a)
  {
    var l := LoadWide(a);
    TopOf64(a, l);
    FourLow(a, 42, l, 16);
    FourHigh(a, 31, l, 12);
    FourLow(a, 21, l, 8);
    FourHigh(a, 10, l, 4);
    FourLow(a, 0, l, 0);
  }

  // Storing limbs.

  /** The cast to unsigned char. */
  function Byte(x: int64): (b: byte)
  {
    (x % 256) as byte
  }

  /** Twelve limbs that StoreLimbs accepts. */
  predicate Reduced(s: seq<int64>)
  {
    |s| == 12 && (forall i :: 0 <= i < 11 ==> 0 <= s[i] < 2097152) && 0 <= s[11] <= 2097152
  }

  /** Twelve reduced limbs as 32 bytes; neighbouring limbs meet in disjoint bits, so `|` is `+`. */
  function StoreLimbs(s: seq<int64>): (b: seq<byte>)
    requires Reduced(s)
    ensures |b| == 32
  {
    [Byte(s[0]), Byte(s[0] / 256), Byte(s[0] / 65536 + s[1] * 32), Byte(s[1] / 8), Byte(s[1] / 2048),
     Byte(s[1] / 524288 + s[2] * 4), Byte(s[2] / 64), Byte(s[2] / 16384 + s[3] * 128), Byte(s[3] / 2),
     Byte(s[3] / 512), Byte(s[3] / 131072 + s[4] * 16), Byte(s[4] / 16), Byte(s[4] / 4096),
     Byte(s[4] / 1048576 + s[5] * 2), Byte(s[5] / 128), Byte(s[5] / 32768 + s[6] * 64), Byte(s[6] / 4),
     Byte(s[6] / 1024), Byte(s[6] / 262144 + s[7] * 8), Byte(s[7] / 32), Byte(s[7] / 8192), Byte(s[8]),
     Byte(s[8] / 256), Byte(s[8] / 65536 + s[9] * 32), Byte(s[9] / 8), Byte(s[9] / 2048),
     Byte(s[9] / 524288 + s[10] * 4), Byte(s[10] / 64), Byte(s[10] / 16384 + s[11] * 128), Byte(s[11] / 2),
     Byte(s[11] / 512), Byte(s[11] / 131072)]
  }

  lemma StoreTop(b: seq<byte>, s: seq<int64>)
    requires |b| == 32 && |s| == 12 && 0 <= s[10] < 2097152 && 0 <= s[11] <= 2097152
    requires b[28] == Byte(s[10] / 16384 + s[11] * 128) && b[29] == Byte(s[11] / 2)
    requires b[30] == Byte(s[11] / 512) && b[31] == Byte(s[11] / 131072)
    ensures LeFrom(b, 28) == s[10] as int / 16384 + 128 * ValueFrom(s, 11)
  {
    assert LeFrom(b, 31) == b[31];
    LaidOver3(b, 28, s[10] as int / 16384, s[11] as int, 128, 2, 0);
  }

  /** Limb i from bit r of byte k on, two bytes before the next limb; the low r bits of byte k are limb i - 1's. */
  lemma Stored2(b: seq<byte>, k: nat, s: seq<int64>, i: nat, lo: nat, p: nat, q: nat)
    requires k + 2 <= |b| && i < |s| && 0 <= s[i] < 2097152 && q > 0 && p * q == 256 && lo < p
    requires b[k] == (lo + p * s[i] as int) % 256 && b[k + 1] == (s[i] as int / q) % 256
    requires ValueFrom(s, i + 1) >= 0 && LeFrom(b, k + 2) == s[i] as int / (256 * q) + 32 * (p * ValueFrom(s, i + 1))
    ensures LeFrom(b, k) == lo + p * ValueFrom(s, i)
  {
    NonNegative(p, ValueFrom(s, i + 1));
    LaidOver2(b, k, lo, s[i] as int, p, q, 32 * (p * ValueFrom(s, i + 1)));
    Distribute(p, s[i] as int, 2097152 * ValueFrom(s, i + 1));
  }

  /** The same with three bytes before the next limb, which starts at bit r - 3 of its own. */
  lemma Stored3(b: seq<byte>, k: nat, s: seq<int64>, i: nat, lo: nat, d: nat, q: nat)
    requires k + 3 <= |b| && i < |s| && 0 <= s[i] < 2097152 && q > 0 && 8 * d * q == 256 && lo < 8 * d
    requires b[k] == (lo + 8 * d * s[i] as int) % 256 && b[k + 1] == (s[i] as int / q) % 256
    requires b[k + 2] == (s[i] as int / (256 * q)) % 256
    requires ValueFrom(s, i + 1) >= 0 && LeFrom(b, k + 3) == s[i] as int / (65536 * q) + d * ValueFrom(s, i + 1)
    ensures LeFrom(b, k) == lo + 8 * d * ValueFrom(s, i)
  {
    NonNegative(d, ValueFrom(s, i + 1));
    LaidOver3(b, k, lo, s[i] as int, 8 * d, q, d * ValueFrom(s, i + 1));
    Distribute(8 * d, s[i] as int, 2097152 * ValueFrom(s, i + 1));
  }

  lemma {:induction false} LimbsNonNegative(s: seq<int64>, i: nat)
    requires i <= |s| && forall j :: i <= j < |s| ==> s[j] >= 0
    ensures ValueFrom(s, i) >= 0
    decreases |s| - i
  {
    if i < |s| {
      LimbsNonNegative(s, i + 1);
    }
  }

  lemma StoredFrom21(s: seq<int64>)
    requires Reduced(s)
    ensures LeFrom(StoreLimbs(s), 21) == ValueFrom(s, 8)
  {
    hide ValueFrom, LeFrom;
    var b := StoreLimbs(s);
    StoreTop(b, s);
    LimbsNonNegative(s, 11);
    Stored2(b, 26, s, 10, s[9] as int / 524288, 4, 64);
    LimbsNonNegative(s, 10);
    Stored3(b, 23, s, 9, s[8] as int / 65536, 4, 8);
    LimbsNonNegative(s, 9);
    Stored2(b, 21, s, 8, 0, 1, 256);
  }

  lemma StoredFrom15(s: seq<int64>)
    requires Reduced(s)
    ensures LeFrom(StoreLimbs(s), 15) == s[5] as int / 32768 + 64 * ValueFrom(s, 6)
  {
    hide ValueFrom, LeFrom;
    var b := StoreLimbs(s);
    StoredFrom21(s);
    LimbsNonNegative(s, 8);
    Stored3(b, 18, s, 7, s[6] as int / 262144, 1, 32);
    LimbsNonNegative(s, 7);
    Stored3(b, 15, s, 6, s[5] as int / 32768, 8, 4);
  }

  lemma StoredFrom10(s: seq<int64>)
    requires Reduced(s)
    ensures LeFrom(StoreLimbs(s), 10) == s[3] as int / 131072 + 16 * ValueFrom(s, 4)
  {
    hide ValueFrom, LeFrom;
    var b := StoreLimbs(s);
    StoredFrom15(s);
    LimbsNonNegative(s, 6);
    Stored2(b, 13, s, 5, s[4] as int / 1048576, 2, 128);
    LimbsNonNegative(s, 5);
    Stored3(b, 10, s, 4, s[3] as int / 131072, 2, 16);
  }

  lemma StoredFrom5(s: seq<int64>)
    requires Reduced(s)
    ensures LeFrom(StoreLimbs(s), 5) == s[1] as int / 524288 + 4 * ValueFrom(s, 2)
  {
    hide ValueFrom, LeFrom;
    var b := StoreLimbs(s);
    StoredFrom10(s);
    LimbsNonNegative(s, 4);
    Stored3(b, 7, s, 3, s[2] as int / 16384, 16, 2);
    LimbsNonNegative(s, 3);
    Stored2(b, 5, s, 2, s[1] as int / 524288, 4, 64);
  }

  lemma StoreLimbsValue(s: seq<int64>)
    requires Reduced(s)
    ensures Le(StoreLimbs(s)) == Value(s)
  {
    hide ValueFrom, LeFrom;
    var b := StoreLimbs(s);
    StoredFrom5(s);
    LimbsNonNegative(s, 2);
    Stored3(b, 2, s, 1, s[0] as int / 65536, 4, 8);
    LimbsNonNegative(s, 1);
    Stored2(b, 0, s, 0, 0, 1, 256);
  }
}
