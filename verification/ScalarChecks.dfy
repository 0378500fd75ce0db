// Comparing scalars: the canonical-form test, the byte-wise order, and the
// rejection loop that draws unbiased scalars.

module ScalarChecks {
  import opened ByteStrings
  import opened Scalars
  import opened ScalarOps

  function Signum(a: int): int { if a > 0 then 1 else if a < 0 then -1 else 0 }

  /** The 32-bit words of L - 1, least significant first. */
  const TOP: seq<int> := [1559614444, 1477600026, 2734136534, 350157278, 0, 0, 0, 268435456]

  /** sc_check: signs of the word differences from L - 1, the i-th shifted left by i; the sum >> 8. */
  function ScCheck(s: seq<byte>): (r: int)
    requires |s| == 32
  {
    (Signum(1559614444 - Load4(s, 0) as int) + Signum(1477600026 - Load4(s, 4) as int) * 2
     + Signum(2734136534 - Load4(s, 8) as int) * 4 + Signum(350157278 - Load4(s, 12) as int) * 8
     + Signum(-(Load4(s, 16) as int)) * 16 + Signum(-(Load4(s, 20) as int)) * 32
     + Signum(-(Load4(s, 24) as int)) * 64 + Signum(268435456 - Load4(s, 28) as int) * 128) / 256
  }

  function Power(b: nat, n: nat): (p: nat)
    requires b > 0
    ensures p > 0
    decreases n
  {
    if n == 0 then 1 else b * Power(b, n - 1)
  }

  function Difference(s: seq<byte>, i: nat): (d: int)
    requires |s| == 32 && i < 8
    ensures -0x1_0000_0000 < d < 0x1_0000_0000
  {
    TOP[i] - Load4(s, 4 * i) as int
  }

  /** The lowest n word differences as one number. */
  function LowDifference(s: seq<byte>, n: nat): int
    requires |s| == 32 && n <= 8
    decreases n
  {
    if n == 0 then 0 else LowDifference(s, n - 1) + Power(0x1_0000_0000, n - 1) * Difference(s, n - 1)
  }

  /** The signs g, weighted by powers of two, over the first n. */
  function SignSum(g: seq<int>, n: nat): int
    requires n <= |g|
    decreases n
  {
    if n == 0 then 0 else SignSum(g, n - 1) + Power(2, n - 1) * g[n - 1]
  }

  function Signs(s: seq<byte>): (g: seq<int>)
    requires |s| == 32
    ensures |g| == 8 && forall i :: 0 <= i < 8 ==> g[i] == Signum(Difference(s, i))
  {
    seq(8, i requires 0 <= i < 8 => Signum(Difference(s, i)))
  }

  /** A higher difference outweighs the lower ones in both sums. */
  lemma SignStep(low: int, lowSign: int, d: int, range: int, m: int)
    requires -range < low < range && -m < lowSign < m && Signum(low) == Signum(lowSign)
    ensures Signum(low + range * d) == Signum(lowSign + m * Signum(d))
    ensures -2 * m < lowSign + m * Signum(d) < 2 * m
  {
    if d >= 1 {
      Scaled(range, d);
    } else if d <= -1 {
      Scaled(range, -d);
      assert range * d == -(range * -d);
    }
  }

  lemma Scaled(range: int, d: int)
    requires range > 0 && d >= 1
    ensures range * d >= range
  {
  }

  lemma {:induction false} SameSign(s: seq<byte>, n: nat)
    requires |s| == 32 && n <= 8
    ensures Signum(LowDifference(s, n)) == Signum(SignSum(Signs(s), n))
    ensures 0 - Power(2, n) < SignSum(Signs(s), n) < Power(2, n)
    ensures 0 - Power(0x1_0000_0000, n) < LowDifference(s, n) < Power(0x1_0000_0000, n)
  {
    if n > 0 {
      SameSign(s, n - 1);
      var range, d := Power(0x1_0000_0000, n - 1), Difference(s, n - 1);
      SignStep(LowDifference(s, n - 1), SignSum(Signs(s), n - 1), d, range, Power(2, n - 1));
      RangeStep(LowDifference(s, n - 1), range, d);
    }
  }

  lemma RangeStep(low: int, range: int, d: int)
    requires -range < low < range && -0x1_0000_0000 < d < 0x1_0000_0000
    ensures -0x1_0000_0000 * range < low + range * d < 0x1_0000_0000 * range
  {
    Between(range, d + 0xffff_ffff);
    Between(range, 0xffff_ffff - d);
  }

  lemma Between(range: int, d: int)
    requires range > 0 && d >= 0
    ensures range * d >= 0
  {
  }

  lemma {:induction false} WordsValue(s: seq<byte>, n: nat)
    requires |s| == 32 && n <= 8
    ensures LowDifference(s, n) == LowTop(n) - Le(s) + Power(0x1_0000_0000, n) * LeFrom(s, 4 * n)
  {
    if n > 0 {
      WordsValue(s, n - 1);
      LoadedFrom(s, 4 * (n - 1));
      WordStep(Power(0x1_0000_0000, n - 1), TOP[n - 1], Load4(s, 4 * (n - 1)) as int, LeFrom(s, 4 * n));
    }
  }

  lemma WordStep(p: int, t: int, w: int, rest: int)
    ensures p * (w + 0x1_0000_0000 * rest) + p * (t - w) == p * t + (0x1_0000_0000 * p) * rest
  {
  }

  /** The lowest n words of L - 1 as one number. */
  function LowTop(n: nat): int
    requires n <= 8
    decreases n
  {
    if n == 0 then 0 else LowTop(n - 1) + Power(0x1_0000_0000, n - 1) * TOP[n - 1]
  }

  lemma TopValue()
    ensures LowTop(8) == L - 1
  {
    assert LowTop(4) == (L - 1) % 0x1_0000_0000_0000_0000_0000_0000_0000_0000;
  }

  /** sc_check is 0 on canonical scalars and -1 on all others. */
  lemma ScCheckCanonical(s: seq<byte>)
    requires |s| == 32
    ensures ScCheck(s) == if Le(s) < L then 0 else -1
  {
    SameSign(s, 8);
    WordsValue(s, 8);
    TopValue();
    SignsExplicit(Signs(s));
    ScCheckSum(s);
  }

  lemma ScCheckSum(s: seq<byte>)
    requires |s| == 32
    ensures ScCheck(s) == SignSum(Signs(s), 8) / 256
  {
    var g := Signs(s);
    SignsExplicit(g);
    assert ScCheck(s) == (g[0] + g[1] * 2 + g[2] * 4 + g[3] * 8 + g[4] * 16 + g[5] * 32 + g[6] * 64 + g[7] * 128) / 256;
  }

  lemma SignsExplicit(g: seq<int>)
    requires |g| == 8
    ensures SignSum(g, 8) == g[0] + g[1] * 2 + g[2] * 4 + g[3] * 8 + g[4] * 16 + g[5] * 32 + g[6] * 64 + g[7] * 128
    ensures Power(2, 8) == 256
  {
  }

  /** The most significant differing byte decides. */
  lemma {:induction false} DecidedAt(k0: seq<byte>, k1: seq<byte>, n: nat, i: nat)
    requires i <= n < |k0| == |k1| && k0[n] < k1[n]
    requires forall j :: n < j < |k0| ==> k0[j] == k1[j]
    ensures LeFrom(k0, i) < LeFrom(k1, i)
    decreases n - i
  {
    if i == n {
      LeFromSame(k0, k1, n + 1);
    } else {
      DecidedAt(k0, k1, n, i + 1);
    }
  }

  /** less32: compares from the most significant byte down. */
  method Less32(k0: seq<byte>, k1: seq<byte>) returns (less: bool)
    requires |k0| == |k1| == 32
    ensures less <==> Le(k0) < Le(k1)
  {
    for n := 32 downto 0
      invariant forall j :: n <= j < 32 ==> k0[j] == k1[j]
    {
      if k0[n] < k1[n] {
        DecidedAt(k0, k1, n, 0);
        return true;
      }
      if k0[n] > k1[n] {
        DecidedAt(k1, k0, n, 0);
        return false;
      }
    }
    LeFromSame(k0, k1, 0);
    return false;
  }

  /** s[0] | s[1] | .. over the first n bytes. */
  function AnyBits(s: seq<byte>, n: nat): (x: bv8)
    requires n <= |s|
  {
    if n == 0 then 0 else AnyBits(s, n - 1) | s[n - 1] as bv8
  }

  lemma OrZero(x: bv8, y: bv8)
    ensures x | y == 0 <==> x == 0 && y == 0
  {
  }

  lemma {:induction false} NoBits(s: seq<byte>, n: nat)
    requires n <= |s|
    ensures AnyBits(s, n) == 0 <==> forall i :: 0 <= i < n ==> s[i] == 0
    decreases n
  {
    if n > 0 {
      NoBits(s, n - 1);
      OrZero(AnyBits(s, n - 1), s[n - 1] as bv8);
    }
  }

  /** sc_isnonzero: ((s[0] | .. | s[31]) - 1 >> 8) + 1, which is 1 exactly when some byte is nonzero and 0 otherwise. */
  method ScIsNonzero(s: seq<byte>) returns (r: int)
    requires |s| == 32
    ensures r == if Le(s) != 0 then 1 else 0
  {
    r := (AnyBits(s, 32) as int - 1) / 256 + 1;
    NoBits(s, 32);
    ZeroBytes(s, 0);
  }

  lemma {:induction false} ZeroBytes(s: seq<byte>, i: nat)
    requires i <= |s|
    ensures LeFrom(s, i) == 0 <==> forall j :: i <= j < |s| ==> s[j] == 0
    decreases |s| - i
  {
    if i < |s| {
      ZeroBytes(s, i + 1);
    }
  }

  /** 15 L, the bytes of `limit`. */
  const LIMIT: seq<byte> := [0xe3, 0x6a, 0x67, 0x72, 0x8b, 0xce, 0x13, 0x29, 0x8f, 0x30, 0x82, 0x8c, 0x0b, 0xa4,
    0x10, 0x39, 0x01, 0, 0, 0, 0, 0, 0, 0, 0, 0, 0, 0, 0, 0, 0, 0xf0]

  lemma LimitValue()
    ensures Le(LIMIT) == 15 * L
    ensures 15 * L < Pow256(32) < 16 * L
  {
    assert LeFrom(LIMIT, 31) == 0xf0;
    assert LeFrom(LIMIT, 29) == 0xf00000;
    assert LeFrom(LIMIT, 27) == 0xf000000000;
    assert LeFrom(LIMIT, 25) == 0xf0000000000000;
    assert LeFrom(LIMIT, 23) == 0xf00000000000000000;
    assert LeFrom(LIMIT, 21) == 0xf000000000000000000000;
    assert LeFrom(LIMIT, 19) == 0xf0000000000000000000000000;
    assert LeFrom(LIMIT, 17) == 0xf00000000000000000000000000000;
    assert LeFrom(LIMIT, 15) == 0xf000000000000000000000000000000139;
    assert LeFrom(LIMIT, 13) == 0xf00000000000000000000000000000013910a4;
    assert LeFrom(LIMIT, 11) == 0xf00000000000000000000000000000013910a40b8c;
    assert LeFrom(LIMIT, 9) == 0xf00000000000000000000000000000013910a40b8c8230;
    assert LeFrom(LIMIT, 7) == 0xf00000000000000000000000000000013910a40b8c82308f29;
    assert LeFrom(LIMIT, 5) == 0xf00000000000000000000000000000013910a40b8c82308f2913ce;
    assert LeFrom(LIMIT, 3) == 0xf00000000000000000000000000000013910a40b8c82308f2913ce8b72;
    assert LeFrom(LIMIT, 1) == 0xf00000000000000000000000000000013910a40b8c82308f2913ce8b72676a;
    Pow256Value();
  }

  method BelowLimit(d: seq<byte>) returns (less: bool)
    requires |d| == 32
    ensures less <==> Le(d) < 15 * L
  {
    LimitValue();
    less := Less32(d, LIMIT);
  }

  /** A draw the loop keeps: below 15 L and not a multiple of L. */
  predicate Kept(d: seq<byte>) {
    |d| == 32 && Le(d) < 15 * L && Le(d) % L != 0
  }

  /**
    random32_unbiased: the residue of the first draw kept, written in place. n counts the draws passed over. The loop
    ends exactly when some draw is kept.
    */
  method Random32Unbiased(bytes: array<byte>, draws: nat -> Bytes32) returns (n: nat)
    requires bytes.Length == 32 && exists i: nat :: Kept(draws(i))
    modifies bytes
    ensures Kept(draws(n)) && forall j :: 0 <= j < n ==> !Kept(draws(j))
    ensures Le(bytes[..]) == Le(draws(n)) % L && 0 < Le(bytes[..]) < L
  {
    ghost var last: nat :| Kept(draws(last));
    n := 0;
    while true
      invariant n <= last && forall j :: 0 <= j < n ==> !Kept(draws(j))
      decreases last - n
    {
      Overwrite(bytes, draws(n));
      var less := BelowLimit(bytes[..]);
      if less {
        ScReduce32(bytes);
        var nonzero := ScIsNonzero(bytes[..]);
        if nonzero != 0 {
          return;
        }
      }
      assert n != last;
      n := n + 1;
    }
  }

  /** No bias: the kept values that reduce to x are exactly x, x + L, .., x + 14 L. */
  lemma FifteenDraws(x: int, v: int)
    requires 0 < x < L
    ensures 0 <= v < 15 * L && v % L == x <==> exists k :: 0 <= k < 15 && v == x + L * k
  {
    if 0 <= v < 15 * L && v % L == x {
      var k := v / L;
      assert v == x + L * k && 0 <= k < 15;
    }
  }
}
