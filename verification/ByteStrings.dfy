// Bytes, fixed-width integers and the little-endian value of a byte string.

module ByteStrings {
  import opened Arithmetic

  type byte = x: int | 0 <= x < 256

  type Bytes32 = s: seq<byte> | |s| == 32 witness seq(32, _ => 0)

  newtype int32 = x: int | -0x8000_0000 <= x < 0x8000_0000

  newtype int64 = x: int | -0x8000_0000_0000_0000 <= x < 0x8000_0000_0000_0000

  /** Little-endian value of bytes i, i + 1, ... of s, with byte i as the units. */
  function LeFrom(s: seq<byte>, i: nat): (v: nat)
    requires i <= |s|
    decreases |s| - i
  {
    if i == |s| then 0 else s[i] + 256 * LeFrom(s, i + 1)
  }

  function Le(s: seq<byte>): (v: nat) { LeFrom(s, 0) }

  function Pow256(n: nat): (p: nat)
    ensures p > 0
    decreases n
  {
    if n == 0 then 1 else 256 * Pow256(n - 1)
  }

  lemma {:induction false} LeFromBound(s: seq<byte>, i: nat)
    requires i <= |s|
    ensures LeFrom(s, i) < Pow256(|s| - i)
    decreases |s| - i
  {
    if i < |s| {
      LeFromBound(s, i + 1);
    }
  }

  /** Strings of equal length with equal values are equal. */
  lemma {:induction false} LeFromInjective(s: seq<byte>, t: seq<byte>, i: nat)
    requires i <= |s| == |t| && LeFrom(s, i) == LeFrom(t, i)
    ensures s[i..] == t[i..]
    decreases |s| - i
  {
    if i < |s| {
      LeFromInjective(s, t, i + 1);
      assert s[i..] == [s[i]] + s[i + 1..];
      assert t[i..] == [t[i]] + t[i + 1..];
    }
  }

  lemma LeInjective(s: seq<byte>, t: seq<byte>)
    requires |s| == |t| && Le(s) == Le(t)
    ensures s == t
  {
    LeFromInjective(s, t, 0);
    assert s[0..] == s && t[0..] == t;
  }

  lemma {:induction false} LeFromSame(s: seq<byte>, t: seq<byte>, i: nat)
    requires i <= |s| == |t|
    requires forall k :: i <= k < |s| ==> s[k] == t[k]
    ensures LeFrom(s, i) == LeFrom(t, i)
    decreases |s| - i
  {
    if i < |s| {
      LeFromSame(s, t, i + 1);
    }
  }

  /** The n low bytes of v, least significant first. */
  function LeBytes(v: nat, n: nat): (s: seq<byte>)
    ensures |s| == n
    decreases n
  {
    if n == 0 then [] else [v % 256] + LeBytes(v / 256, n - 1)
  }

  lemma {:induction false} LeBytesValue(v: nat, n: nat)
    requires v < Pow256(n)
    ensures Le(LeBytes(v, n)) == v
    decreases n
  {
    if n > 0 {
      LeBytesValue(v / 256, n - 1);
      var t := LeBytes(v / 256, n - 1);
      LeFromTail([v % 256] + t, t, 0);
    }
  }

  lemma {:induction false} LeFromTail(s: seq<byte>, t: seq<byte>, i: nat)
    requires i <= |t| && |s| == |t| + 1 && s[1..] == t
    ensures LeFrom(s, i + 1) == LeFrom(t, i)
    decreases |t| - i
  {
    if i < |t| {
      LeFromTail(s, t, i + 1);
      assert s[1..][i] == t[i];
    }
  }

  lemma {:induction false} TopByte(s: seq<byte>, i: nat)
    requires i < |s|
    ensures LeFrom(s, i) >= s[|s| - 1] * Pow256(|s| - 1 - i)
    decreases |s| - i
  {
    if i < |s| - 1 {
      TopByte(s, i + 1);
      var p := Pow256(|s| - 2 - i);
      assert s[|s| - 1] * (256 * p) == 256 * (s[|s| - 1] * p);
    }
  }

  /** load_3: three bytes, least significant first. */
  function Load3(s: seq<byte>, i: nat): (v: int64)
    requires i + 3 <= |s|
    ensures 0 <= v < 0x100_0000
  {
    s[i] as int64 + 256 * s[i + 1] as int64 + 65536 * s[i + 2] as int64
  }

  /** load_4: four bytes, least significant first. */
  function Load4(s: seq<byte>, i: nat): (v: int64)
    requires i + 4 <= |s|
    ensures 0 <= v < 0x1_0000_0000
  {
    s[i] as int64 + 256 * s[i + 1] as int64 + 65536 * s[i + 2] as int64 + 16777216 * s[i + 3] as int64
  }

  lemma LoadedFrom(s: seq<byte>, i: nat)
    ensures i + 3 <= |s| ==> LeFrom(s, i) == Load3(s, i) as int + 16777216 * LeFrom(s, i + 3)
    ensures i + 4 <= |s| ==> LeFrom(s, i) == Load4(s, i) as int + 4294967296 * LeFrom(s, i + 4)
  {
    if i + 3 <= |s| {
      assert LeFrom(s, i + 1) == s[i + 1] + 256 * LeFrom(s, i + 2);
    }
    if i + 4 <= |s| {
      assert LeFrom(s, i + 3) == s[i + 3] + 256 * LeFrom(s, i + 4);
    }
  }

  // A number s laid over bytes from bit r of a byte on, whose low r bits hold lo: p = 2^r and p q = 256.

  lemma FirstByte(lo: nat, s: nat, p: nat, q: nat)
    requires q > 0 && p * q == 256 && lo < p
    ensures lo + p * s == (lo + p * s) % 256 + 256 * (s / q)
  {
    var a, r := s / q, s % q;
    assert p * s == 256 * a + p * r by {
      Distribute(p, q * a, r);
      assert p * (q * a) == p * q * a;
    }
    NonNegative(p, r);
    Ordered(p, r, q - 1);
    Distribute(p, q, -1);
    Division(lo + p * s, 256, a, lo + p * r);
  }

  lemma NextByte(s: nat, m: nat)
    requires m > 0
    ensures s / m == (s / m) % 256 + 256 * (s / (256 * m))
  {
    QuotientOfQuotient(s, m, 256);
  }

  /** Two bytes taken by s, which reaches into the third, where `rest` follows. */
  lemma LaidOver2(b: seq<byte>, k: nat, lo: nat, s: nat, p: nat, q: nat, rest: nat)
    requires k + 2 <= |b| && q > 0 && p * q == 256 && lo < p
    requires b[k] == (lo + p * s) % 256 && b[k + 1] == (s / q) % 256
    requires LeFrom(b, k + 2) == s / (256 * q) + rest
    ensures LeFrom(b, k) == lo + p * s + 65536 * rest
  {
    FirstByte(lo, s, p, q);
    NextByte(s, q);
    assert LeFrom(b, k + 1) == b[k + 1] + 256 * LeFrom(b, k + 2);
  }

  /** The same with a third byte. */
  lemma LaidOver3(b: seq<byte>, k: nat, lo: nat, s: nat, p: nat, q: nat, rest: nat)
    requires k + 3 <= |b| && q > 0 && p * q == 256 && lo < p
    requires b[k] == (lo + p * s) % 256 && b[k + 1] == (s / q) % 256 && b[k + 2] == (s / (256 * q)) % 256
    requires LeFrom(b, k + 3) == s / (65536 * q) + rest
    ensures LeFrom(b, k) == lo + p * s + 16777216 * rest
  {
    NextByte(s, 256 * q);
    assert LeFrom(b, k + 2) == b[k + 2] + 256 * LeFrom(b, k + 3);
    LaidOver2(b, k, lo, s, p, q, 256 * rest);
  }

  lemma Pow256Value()
    ensures Pow256(32) == 0x1_0000_0000_0000_0000_0000_0000_0000_0000_0000_0000_0000_0000_0000_0000_0000_0000
  {
    FourBytes(0);
    FourBytes(4);
    FourBytes(8);
    FourBytes(12);
    FourBytes(16);
    FourBytes(20);
    FourBytes(24);
    FourBytes(28);
  }

  lemma FourBytes(n: nat)
    ensures Pow256(n + 4) == 0x1_0000_0000 * Pow256(n)
  {
    assert Pow256(n + 3) == 256 * Pow256(n + 2);
    assert Pow256(n + 1) == 256 * Pow256(n);
  }
}
