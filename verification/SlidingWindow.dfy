// slide: the width-5 non-adjacent form of a 256-bit scalar, computed in place.

module SlidingWindow {
  import opened Arithmetic
  import opened ByteStrings

  newtype int8 = x: int | -128 <= x < 128

  /** Digits i, i + 1, .. as a number in base 2, with digit i as the units. */
  function DigitsFrom(s: seq<int8>, i: nat): int
    requires i <= |s|
    decreases |s| - i
  {
    if i == |s| then 0 else s[i] as int + 2 * DigitsFrom(s, i + 1)
  }

  /** Nonzero digits are odd, at most 15 in size and followed by four zeros. */
  predicate NafDigit(s: seq<int8>, i: nat)
    requires i < |s|
  {
    s[i] != 0 ==>
      && s[i] % 2 == 1 && -15 <= s[i] <= 15
      && forall k :: i < k < i + 5 && k < |s| ==> s[k] == 0
  }

  predicate Naf(s: seq<int8>) {
    forall i :: 0 <= i < |s| ==> NafDigit(s, i)
  }

  predicate BitsFrom(s: seq<int8>, i: nat) {
    forall k :: i <= k < |s| ==> s[k] == 0 || s[k] == 1
  }

  lemma {:induction false} SameDigits(s: seq<int8>, t: seq<int8>, i: nat)
    requires i <= |s| == |t| && forall k :: i <= k < |s| ==> s[k] == t[k]
    ensures DigitsFrom(s, i) == DigitsFrom(t, i)
    decreases |s| - i
  {
    if i < |s| {
      SameDigits(s, t, i + 1);
    }
  }

  /** Zeros from i up to j shift the digits from j on. */
  lemma {:induction false} ZeroRun(s: seq<int8>, i: nat, j: nat)
    requires i <= j <= |s| && forall k :: i <= k < j ==> s[k] == 0
    ensures DigitsFrom(s, i) == Pow2(j - i) * DigitsFrom(s, j)
    decreases j - i
  {
    if i < j {
      ZeroRun(s, i + 1, j);
      assert 2 * (Pow2(j - i - 1) * DigitsFrom(s, j)) == (2 * Pow2(j - i - 1)) * DigitsFrom(s, j);
    }
  }

  lemma {:induction false} BitsRange(s: seq<int8>, i: nat)
    requires i <= |s| && BitsFrom(s, i)
    ensures 0 <= DigitsFrom(s, i) < Pow2(|s| - i)
    decreases |s| - i
  {
    if i < |s| {
      BitsRange(s, i + 1);
    }
  }

  /** r[k] = 1 at the first zero from j on, zeroing the ones before it; a carry past the end is dropped. */
  method AddBit(r: array<int8>, j: nat) returns (ghost lost: bool)
    requires j < r.Length && BitsFrom(r[..], j)
    modifies r
    ensures BitsFrom(r[..], j) && r[..j] == old(r[..j])
    ensures DigitsFrom(r[..], j) == old(DigitsFrom(r[..], j)) + 1 - (if lost then Pow2(r.Length - j) else 0)
    ensures lost ==> forall k :: j <= k < r.Length ==> r[k] == 0
    ensures old(r[j]) == 1 ==> r[j] == 0
  {
    ghost var was := r[..];
    for k := j to r.Length
      invariant BitsFrom(r[..], j) && r[..j] == old(r[..j])
      invariant forall m :: k <= m < r.Length ==> r[m] == was[m]
      invariant forall m :: j <= m < k ==> r[m] == 0 && was[m] == 1
    {
      if r[k] == 0 {
        r[k] := 1;
        FirstZero(was, r[..], j, k, j);
        return false;
      }
      r[k] := 0;
    }
    ZeroRun(r[..], j, r.Length);
    AllOnes(was, j);
    return true;
  }

  lemma {:induction false} AllOnes(s: seq<int8>, j: nat)
    requires j <= |s| && forall k :: j <= k < |s| ==> s[k] == 1
    ensures DigitsFrom(s, j) == Pow2(|s| - j) - 1
    decreases |s| - j
  {
    if j < |s| {
      AllOnes(s, j + 1);
    }
  }

  lemma {:induction false} FirstZero(s: seq<int8>, t: seq<int8>, j: nat, k: nat, i: nat)
    requires j <= i <= k < |s| == |t| && s[k] == 0 && t[k] == 1
    requires forall m :: j <= m < k ==> s[m] == 1 && t[m] == 0
    requires forall m :: k < m < |s| ==> s[m] == t[m]
    ensures DigitsFrom(t, i) == DigitsFrom(s, i) + 1
    decreases k - i
  {
    if i < k {
      FirstZero(s, t, j, k, i + 1);
    } else {
      SameDigits(s, t, k + 1);
    }
  }

  /** A digit and the zeros after it: digits i.. are digit i plus a shift of digits j... */
  lemma {:induction false} Shifted(s: seq<int8>, i: nat, j: nat)
    requires i < j <= |s| && forall k :: i < k < j ==> s[k] == 0
    ensures DigitsFrom(s, i) == s[i] as int + Pow2(j - i) * DigitsFrom(s, j)
  {
    ZeroRun(s, i + 1, j);
    assert 2 * (Pow2(j - i - 1) * DigitsFrom(s, j)) == (2 * Pow2(j - i - 1)) * DigitsFrom(s, j);
  }

  /** Replacing digit i and the digits from j on by t's, where only zeros lie between them. */
  lemma {:induction false} Exchanged(s: seq<int8>, t: seq<int8>, i: nat, j: nat, d: int, c: int)
    requires i < j < |s| == |t|
    requires forall k :: i < k < j ==> s[k] == 0 && t[k] == 0
    requires t[i] as int == s[i] as int + d && DigitsFrom(t, j) == DigitsFrom(s, j) + c
    ensures DigitsFrom(t, i) == DigitsFrom(s, i) + d + Pow2(j - i) * c
  {
    Shifted(s, i, j);
    Shifted(t, i, j);
    var p, x := Pow2(j - i), DigitsFrom(s, j);
    assert p * (x + c) == p * x + p * c;
  }

  /** Taking one unit of digit j out of digit i and carrying it into the digits from j on. */
  lemma {:induction false} Borrowed(s: seq<int8>, t: seq<int8>, i: nat, j: nat, lost: bool)
    requires i < j < |s| == |t|
    requires forall k :: i < k < j ==> s[k] == 0 && t[k] == 0
    requires t[i] as int == s[i] as int - Pow2(j - i)
    requires DigitsFrom(t, j) == DigitsFrom(s, j) + 1 - (if lost then Pow2(|s| - j) else 0)
    ensures DigitsFrom(t, i) == DigitsFrom(s, i) - (if lost then Pow2(|s| - i) else 0)
  {
    var p: int := Pow2(j - i);
    if lost {
      var q: int := Pow2(|s| - j);
      Exchanged(s, t, i, j, 0 - p, 1 - q);
      PowSum(j - i, |s| - j);
      assert p * (1 - q) == p - p * q;
    } else {
      Exchanged(s, t, i, j, 0 - p, 1);
    }
  }

  predicate Zeros(s: seq<int8>, i: nat, j: nat)
    requires j <= |s|
  {
    forall k :: i <= k < j ==> s[k] == 0
  }

  /** Adds bit i + b to digit i and clears it. */
  method Absorb(r: array<int8>, i: nat, b: nat)
    requires 0 < b && i + b < r.Length && BitsFrom(r[..], i + 1) && Zeros(r[..], i + 1, i + b) && r[i + b] == 1
    requires -128 <= r[i] as int + Pow2(b) < 128
    modifies r
    ensures r[..i] == old(r[..i]) && BitsFrom(r[..], i + 1) && Zeros(r[..], i + 1, i + b + 1)
    ensures r[i] as int == old(r[i]) as int + Pow2(b) && DigitsFrom(r[..], i) == old(DigitsFrom(r[..], i))
  {
    ghost var was := r[..];
    r[i], r[i + b] := (r[i] as int + Pow2(b)) as int8, 0;
    SameDigits(was, r[..], i + b + 1);
    Exchanged(was, r[..], i, i + b, Pow2(b), -1);
  }

  /** Subtracts bit i + b from digit i and carries it into the bits from i + b on. */
  method Borrow(r: array<int8>, i: nat, b: nat) returns (ghost lost: bool)
    requires 0 < b && i + b < r.Length && BitsFrom(r[..], i + 1) && Zeros(r[..], i + 1, i + b) && r[i + b] == 1
    requires -128 <= r[i] as int - Pow2(b) < 128
    modifies r
    ensures r[..i] == old(r[..i]) && BitsFrom(r[..], i + 1) && Zeros(r[..], i + 1, i + b + 1)
    ensures r[i] as int == old(r[i]) as int - Pow2(b)
    ensures DigitsFrom(r[..], i) == old(DigitsFrom(r[..], i)) - (if lost then Pow2(r.Length - i) else 0)
    ensures lost ==> Zeros(r[..], i + 1, r.Length)
  {
    ghost var was := r[..];
    r[i] := (r[i] as int - Pow2(b)) as int8;
    SameDigits(was, r[..], i + b);
    ghost var below := r[..][..i + b];
    lost := AddBit(r, i + b);
    assert forall k :: 0 <= k < i + b ==> r[k] == below[k];
    Borrowed(was, r[..], i, i + b, lost);
  }

  /** Bits 1 to 3 always fit the digit, bit 4 never fits but can be borrowed, bits 5 and 6 do neither. */
  lemma WindowBit(x: int, b: nat)
    requires 1 <= b <= 6 && x % 2 == 1 && -15 <= x <= 15 && (b <= 4 ==> 1 <= x < Pow2(b))
    ensures b <= 3 ==> x + Pow2(b) <= 15
    ensures x + Pow2(b) <= 15 ==> x + Pow2(b) < Pow2(b + 1)
    ensures b == 4 ==> 1 <= Pow2(b) - x <= 15 && Pow2(b) + x > 15
    ensures b >= 5 ==> x + Pow2(b) > 15 && x - Pow2(b) < -15
    ensures Pow2(b) % 2 == 0
  {
    SmallPowers();
  }

  /**
    The inner loop of slide: gathers the bits after the 1 at position i into digit i, borrowing from the bits
    above when they would make it too large. `lost` is set when the borrow runs past the last position.
    */
  method Gather(r: array<int8>, i: nat) returns (ghost lost: bool)
    requires i < r.Length && r[i] == 1 && BitsFrom(r[..], i)
    modifies r
    ensures r[..i] == old(r[..i]) && BitsFrom(r[..], i + 1) && r[i] != 0 && NafDigit(r[..], i)
    ensures DigitsFrom(r[..], i) == old(DigitsFrom(r[..], i)) - (if lost then Pow2(r.Length - i) else 0)
    ensures lost ==> i + 4 < r.Length && Zeros(r[..], i + 1, r.Length)
  {
    hide DigitsFrom;
    lost := false;
    var b := 1;
    while b <= 6 && i + b < r.Length
      invariant 1 <= b <= 7 && i + b <= r.Length
      invariant r[..i] == old(r[..i]) && BitsFrom(r[..], i + 1)
      invariant r[i] % 2 == 1 && -15 <= r[i] <= 15
      invariant b <= 4 ==> 1 <= r[i] as int < Pow2(b) && !lost
      invariant Zeros(r[..], i + 1, if b <= 5 then i + b else i + 5)
      invariant DigitsFrom(r[..], i) == old(DigitsFrom(r[..], i)) - (if lost then Pow2(r.Length - i) else 0)
      invariant lost ==> i + 4 < r.Length && Zeros(r[..], i + 1, r.Length)
    {
      WindowBit(r[i] as int, b);
      if r[i + b] != 0 {
        assert r[i + b] == 1;
        var shifted := r[i + b] as int * Pow2(b);
        if r[i] as int + shifted <= 15 {
          Absorb(r, i, b);
        } else if r[i] as int - shifted >= -15 {
          lost := Borrow(r, i, b);
        } else {
          break;
        }
      }
      b := b + 1;
    }
  }

  /** Bit i of a little-endian byte string. */
  function Bit(a: seq<byte>, i: nat): (b: int8)
    requires i / 8 < |a|
    ensures b == 0 || b == 1
  {
    (a[i / 8] / Pow2(i % 8) % 2) as int8
  }

  /** Bits m to 7 of byte k, then the later bytes. */
  lemma {:induction false} ByteDigits(s: seq<int8>, a: seq<byte>, k: nat, m: nat)
    requires k < |a| && m <= 8 && |s| == 8 * |a| && forall i :: 0 <= i < |s| ==> s[i] == Bit(a, i)
    ensures DigitsFrom(s, 8 * k + m) == a[k] / Pow2(m) + Pow2(8 - m) * DigitsFrom(s, 8 * k + 8)
    decreases 8 - m
  {
    if m == 8 {
      assert Pow2(8) == 256 && Pow2(0) == 1;
    } else {
      ByteDigits(s, a, k, m + 1);
      HalvedQuotient(a[k], Pow2(m));
      DoubledFactor(Pow2(7 - m), DigitsFrom(s, 8 * k + 8));
      assert (8 * k + m) / 8 == k && (8 * k + m) % 8 == m;
    }
  }

  lemma {:induction false} BitsValue(s: seq<int8>, a: seq<byte>, k: nat)
    requires k <= |a| && |s| == 8 * |a| && forall i :: 0 <= i < |s| ==> s[i] == Bit(a, i)
    ensures DigitsFrom(s, 8 * k) == LeFrom(a, k)
    decreases |a| - k
  {
    if k < |a| {
      BitsValue(s, a, k + 1);
      ByteDigits(s, a, k, 0);
      assert Pow2(8) == 256 && Pow2(0) == 1;
    }
  }

  /** A change of the digits from i on by a multiple of 2^n, seen from the digits from k on. */
  lemma {:induction false} Propagated(s: seq<int8>, t: seq<int8>, k: nat, i: nat, lost: bool)
    requires k <= i <= |s| == |t| && s[..i] == t[..i]
    requires DigitsFrom(t, i) == DigitsFrom(s, i) - (if lost then Pow2(|s| - i) else 0)
    ensures DigitsFrom(t, k) == DigitsFrom(s, k) - (if lost then Pow2(|s| - k) else 0)
    decreases i - k
  {
    if k < i {
      Propagated(s, t, k + 1, i, lost);
      assert s[..i][k] == t[..i][k];
    }
  }

  lemma SmallShifts(n: nat)
    ensures Pow2(n + 4) == 16 * Pow2(n) && Pow2(n + 5) == 32 * Pow2(n)
  {
    assert Pow2(n + 2) == 4 * Pow2(n);
    assert Pow2(n + 4) == 4 * Pow2(n + 2);
  }

  lemma FourZeros(s: seq<int8>, i: nat)
    requires i + 5 <= |s| && Zeros(s, i + 1, i + 5)
    ensures DigitsFrom(s, i + 1) == 16 * DigitsFrom(s, i + 5)
    ensures DigitsFrom(s, i) == s[i] as int + 32 * DigitsFrom(s, i + 5)
  {
    assert DigitsFrom(s, i + 3) == 4 * DigitsFrom(s, i + 5);
    assert DigitsFrom(s, i + 1) == 4 * DigitsFrom(s, i + 3);
  }

  /** A scalar that leaves the top bit clear still does so above position i once digit i is settled. */
  lemma TopStaysClear(s: seq<int8>, i: nat)
    requires i < |s| && NafDigit(s, i)
    requires DigitsFrom(s, i) <= Pow2(|s| - 1 - i)
    ensures i + 1 < |s| ==> DigitsFrom(s, i + 1) <= Pow2(|s| - 2 - i)
  {
    if s[i] != 0 {
      if i + 5 < |s| {
        FourZeros(s, i);
        SmallShifts(|s| - 6 - i);
      } else {
        ZeroRun(s, i + 1, |s|);
      }
    }
  }

  /** With the top bit clear the borrow never runs past the last position. */
  lemma NothingLost(v: int, s: seq<int8>, i: nat)
    requires i + 4 < |s| && Zeros(s, i + 1, |s|) && -15 <= s[i]
    requires v <= Pow2(|s| - 1 - i)
    ensures DigitsFrom(s, i) != v - Pow2(|s| - i)
  {
    Shifted(s, i, |s|);
    SmallShifts(|s| - 5 - i);
  }

  lemma {:induction false} TopBitClear(a: seq<byte>, i: nat)
    requires i < |a| == 32 && a[31] <= 127
    ensures LeFrom(a, i) < Pow2(255 - 8 * i)
    decreases 31 - i
  {
    if i < 31 {
      TopBitClear(a, i + 1);
      SmallPowers();
      PowSum(6, 247 - 8 * i);
      PowSum(2, 253 - 8 * i);
    } else {
      assert Pow2(7) == 128;
    }
  }

  lemma KeepsNaf(s: seq<int8>, t: seq<int8>, i: nat)
    requires i < |s| == |t| && s[..i] == t[..i] && s[i] != 0 && NafDigit(t, i)
    requires forall k :: 0 <= k < i ==> NafDigit(s, k)
    ensures forall k :: 0 <= k <= i ==> NafDigit(t, k)
  {
    forall k | 0 <= k < i ensures NafDigit(t, k) {
      assert NafDigit(s, k) && s[..i][k] == t[..i][k];
      forall m | k < m < k + 5 && m < |t| && t[k] != 0 ensures t[m] == 0 {
        assert s[..i][m] == t[..i][m];
      }
    }
  }

  lemma TopAfterDigit(v: int, s: seq<int8>, i: nat, drop: bool)
    requires i < |s| && NafDigit(s, i) && v <= Pow2(|s| - 1 - i)
    requires DigitsFrom(s, i) == v - (if drop then Pow2(|s| - i) else 0)
    requires drop ==> i + 4 < |s| && Zeros(s, i + 1, |s|)
    ensures !drop && (i + 1 < |s| ==> DigitsFrom(s, i + 1) <= Pow2(|s| - 2 - i))
  {
    if drop {
      NothingLost(v, s, i);
    }
    TopStaysClear(s, i);
  }

  /** The digits below i are settled and those from i on are still bits of what remains of v. */
  predicate Settled(s: seq<int8>, i: nat, v: int, lost: bool) {
    && 4 < |s| && i <= |s| && BitsFrom(s, i)
    && (forall k :: 0 <= k < i ==> NafDigit(s, k))
    && DigitsFrom(s, 0) == v - (if lost then Pow2(|s|) else 0)
    && (lost ==> Zeros(s, i, |s|) && Zeros(s, |s| - 4, |s|))
    && (v < Pow2(|s| - 1) ==> !lost && (i < |s| ==> DigitsFrom(s, i) <= Pow2(|s| - 1 - i)))
  }

  lemma SkipZero(s: seq<int8>, i: nat, v: int, lost: bool)
    requires Settled(s, i, v, lost) && i < |s| && s[i] == 0
    ensures Settled(s, i + 1, v, lost)
  {
  }

  lemma SettleDigit(s: seq<int8>, t: seq<int8>, i: nat, v: int, drop: bool)
    requires Settled(s, i, v, false) && i < |s| == |t| && s[i] == 1
    requires s[..i] == t[..i] && BitsFrom(t, i + 1) && t[i] != 0 && NafDigit(t, i)
    requires DigitsFrom(t, i) == DigitsFrom(s, i) - (if drop then Pow2(|s| - i) else 0)
    requires drop ==> i + 4 < |s| && Zeros(t, i + 1, |s|)
    ensures Settled(t, i + 1, v, drop)
  {
    hide Pow2, DigitsFrom, NafDigit;
    Propagated(s, t, 0, i, drop);
    KeepsNaf(s, t, i);
    if v < Pow2(|s| - 1) {
      TopAfterDigit(DigitsFrom(s, i), t, i, drop);
    }
  }

  lemma ExtendedNaf(s: seq<int8>)
    requires |s| >= 4 && Naf(s) && Zeros(s, |s| - 4, |s|)
    ensures Naf(s + [1])
  {
    forall k | 0 <= k < |s| ensures NafDigit(s + [1], k) {
      assert NafDigit(s, k);
    }
  }

  lemma NafDigitUnique(s: seq<int8>, t: seq<int8>, i: nat)
    requires i < |s| == |t| && NafDigit(s, i) && NafDigit(t, i) && DigitsFrom(s, i) == DigitsFrom(t, i)
    ensures s[i] == t[i] && DigitsFrom(s, i + 1) == DigitsFrom(t, i + 1)
  {
    if s[i] != 0 && t[i] != 0 {
      if i + 5 <= |s| {
        FourZeros(s, i);
        FourZeros(t, i);
        SameWindow(s[i] as int, t[i] as int, DigitsFrom(s, i + 5), DigitsFrom(t, i + 5));
      } else {
        ZeroRun(s, i + 1, |s|);
        ZeroRun(t, i + 1, |s|);
      }
    }
  }

  lemma SameWindow(x: int, y: int, d: int, e: int)
    requires -15 <= x <= 15 && -15 <= y <= 15 && x + 32 * d == y + 32 * e
    ensures x == y
  {
  }

  /** A number has at most one width-5 non-adjacent form of a given length. */
  lemma {:induction false} NafUnique(s: seq<int8>, t: seq<int8>, i: nat)
    requires i <= |s| == |t| && Naf(s) && Naf(t) && DigitsFrom(s, i) == DigitsFrom(t, i)
    ensures forall k :: i <= k < |s| ==> s[k] == t[k]
    decreases |s| - i
  {
    if i < |s| {
      NafDigitUnique(s, t, i);
      NafUnique(s, t, i + 1);
    }
  }

  /** The digit a width-5 form of v starts with: nothing for even v, else the residue modulo 32 nearest to zero. */
  function SignedWindow(v: int): (d: int)
    ensures -15 <= d <= 15 && (d == 0 || d % 2 == 1)
  {
    var w := v % 32;
    if w % 2 == 0 then 0 else if w < 16 then w else w - 32
  }

  /** What is left of v is even, and a multiple of 32 after a nonzero digit. */
  lemma WindowTaken(v: int)
    ensures var d := SignedWindow(v); v - d == 2 * ((v - d) / 2) && (d != 0 ==> (v - d) / 2 == 16 * ((v - d) / 32))
  {
    var q, w := v / 32, v % 32;
    if w % 2 == 0 {
      Halved(v, 16 * q + w / 2);
    } else {
      var x := if w < 16 then q else q + 1;
      Halved(v - SignedWindow(v), 16 * x);
      assert v - SignedWindow(v) == 32 * x;
    }
  }

  lemma Halved(x: int, y: int)
    requires x == 2 * y
    ensures x / 2 == y
  {
  }

  lemma WindowOf(d: int, x: int)
    requires -15 <= d <= 15 && d % 2 == 1
    ensures SignedWindow(d + 32 * x) == d
  {
    var w := if d < 0 then d + 32 else d;
    assert d + 32 * x == 32 * (if d < 0 then x - 1 else x) + w;
  }

  lemma EvenWindow(x: int)
    ensures SignedWindow(2 * x) == 0
  {
    assert 2 * x % 32 == 2 * (x % 16);
  }

  /** Taking digits off v leaves nothing after n positions. */
  predicate Fits(v: int, n: nat)
    decreases n
  {
    if n == 0 then v == 0 else Fits((v - SignedWindow(v)) / 2, n - 1)
  }

  lemma FirstDigit(s: seq<int8>, i: nat)
    requires i < |s| && NafDigit(s, i)
    ensures SignedWindow(DigitsFrom(s, i)) == s[i] as int
  {
    hide SignedWindow;
    if s[i] == 0 {
      EvenWindow(DigitsFrom(s, i + 1));
    } else if i + 5 <= |s| {
      FourZeros(s, i);
      WindowOf(s[i] as int, DigitsFrom(s, i + 5));
    } else {
      ZeroRun(s, i + 1, |s|);
      WindowOf(s[i] as int, 0);
    }
  }

  lemma {:induction false} NafFits(s: seq<int8>, i: nat)
    requires i <= |s| && Naf(s)
    ensures Fits(DigitsFrom(s, i), |s| - i)
    decreases |s| - i
  {
    if i < |s| {
      assert NafDigit(s, i);
      FirstDigit(s, i);
      NafFits(s, i + 1);
    }
  }

  /** A form of a multiple of 2^m starts with m zeros. */
  lemma {:induction false} LeadingZeros(s: seq<int8>, i: nat, m: nat, q: int)
    requires i <= |s| && Naf(s) && DigitsFrom(s, i) == Pow2(m) * q
    ensures forall k :: i <= k < i + m && k < |s| ==> s[k] == 0
    decreases m
  {
    if m > 0 && i < |s| {
      assert NafDigit(s, i);
      assert 2 * Pow2(m - 1) * q == 2 * (Pow2(m - 1) * q);
      LeadingZeros(s, i + 1, m - 1, q);
    }
  }

  lemma {:induction false} Prepended(d: int8, t: seq<int8>, i: nat)
    requires i <= |t|
    ensures DigitsFrom([d] + t, i + 1) == DigitsFrom(t, i)
    decreases |t| - i
  {
    if i < |t| {
      Prepended(d, t, i + 1);
    }
  }

  lemma PrependedNaf(d: int8, t: seq<int8>)
    requires Naf(t) && NafDigit([d] + t, 0)
    ensures Naf([d] + t)
  {
    forall k | 0 < k < |t| + 1 ensures NafDigit([d] + t, k) {
      assert NafDigit(t, k - 1);
    }
  }

  lemma {:induction false} FittingForm(v: int, n: nat) returns (s: seq<int8>)
    requires Fits(v, n)
    ensures |s| == n && Naf(s) && DigitsFrom(s, 0) == v
    decreases n
  {
    if n == 0 {
      s := [];
    } else {
      var d := SignedWindow(v);
      var t := FittingForm((v - d) / 2, n - 1);
      s := [d as int8] + t;
      WindowTaken(v);
      if d != 0 {
        SmallPowers();
        LeadingZeros(t, 0, 4, (v - d) / 32);
      }
      assert NafDigit(s, 0);
      PrependedNaf(d as int8, t);
      Prepended(d as int8, t, 0);
    }
  }

  /** v can be written with n digits of a width-5 non-adjacent form exactly when taking digits off it leaves nothing. */
  lemma FitsMeansForm(v: int, n: nat)
    ensures Fits(v, n) <==> exists s: seq<int8> :: |s| == n && Naf(s) && DigitsFrom(s, 0) == v
  {
    if Fits(v, n) {
      var s := FittingForm(v, n);
      assert |s| == n && Naf(s) && DigitsFrom(s, 0) == v;
    }
    forall s: seq<int8> | |s| == n && Naf(s) && DigitsFrom(s, 0) == v ensures Fits(v, n) {
      NafFits(s, 0);
    }
  }

  lemma {:induction false} Appended(s: seq<int8>, d: int8, i: nat)
    requires i <= |s|
    ensures DigitsFrom(s + [d], i) == DigitsFrom(s, i) + Pow2(|s| - i) * d as int
    decreases |s| - i
  {
    if i < |s| {
      Appended(s, d, i + 1);
      DoubledFactor(Pow2(|s| - i - 1), d as int);
    }
  }

  /** A number whose form needs a digit 1 at position |s| has no form with |s| digits. */
  lemma NoRoom(s: seq<int8>, v: int)
    requires |s| >= 4 && Naf(s) && Zeros(s, |s| - 4, |s|) && DigitsFrom(s, 0) == v - Pow2(|s|)
    ensures !Fits(v, |s|)
  {
    ExtendedNaf(s);
    Appended(s, 1, 0);
    if Fits(v, |s|) {
      var t := FittingForm(v, |s|);
      Appended(t, 0, 0);
      assert Naf(t + [0]) by {
        forall k | 0 <= k < |t| ensures NafDigit(t + [0], k) {
          assert NafDigit(t, k);
        }
      }
      assert (s + [1])[|s|] == 1 && (t + [0])[|s|] == 0;
      NafUnique(s + [1], t + [0], 0);
      assert false;
    }
  }

  /** The scalar 17 * 2^251, with the top bit set, is one whose carry slide drops. */
  lemma TopBitCanBeLost(n: nat)
    requires n >= 5
    ensures !Fits(17 * Pow2(n - 5), n) && 17 * Pow2(n - 5) < Pow2(n)
  {
    var s := seq(n, k requires 0 <= k < n => if k == n - 5 then -15 as int8 else 0);
    forall k | 0 <= k < n ensures NafDigit(s, k) {
    }
    ZeroRun(s, 0, n - 5);
    FourZeros(s, n - 5);
    SmallShifts(n - 5);
    NoRoom(s, 17 * Pow2(n - 5));
  }

  lemma {:induction false} PowerDoesNotFit(n: nat)
    ensures !Fits(Pow2(n), n)
    decreases n
  {
    if n > 0 {
      EvenWindow(Pow2(n - 1));
      PowerDoesNotFit(n - 1);
    }
  }

  /** An odd number close below 2^n: its digit either brings it up to 2^n or leaves it close below. */
  lemma NearPowerStep(v: int, n: nat)
    requires n >= 5 && Pow2(n) - Pow2(n - 5) <= v < Pow2(n) && v % 2 == 1
    ensures var rest := v - SignedWindow(v);
      rest == Pow2(n) || (n > 5 && Pow2(n) - Pow2(n - 5) <= rest <= Pow2(n))
  {
    hide SignedWindow, Pow2;
    SmallShifts(n - 5);
    if n < 10 {
      PowGrows(n - 5, 4);
      SmallPowers();
      WindowOf(v - Pow2(n), Pow2(n - 5));
    } else {
      SmallShifts(n - 10);
      WindowTaken(v);
      var rest := v - SignedWindow(v);
      assert rest == 32 * (rest / 32);
    }
  }

  lemma NextPower(n: nat)
    ensures Pow2(n + 1) == 2 * Pow2(n)
  {
  }

  /** Nothing from 31/32 of 2^n up to 2^n fits n digits. */
  lemma {:induction false} NearPowerDoesNotFit(v: int, n: nat)
    requires n >= 5 && Pow2(n) - Pow2(n - 5) <= v <= Pow2(n)
    ensures !Fits(v, n)
    decreases n
  {
    hide SignedWindow, Pow2;
    NextPower(n - 1);
    if v == Pow2(n) {
      PowerDoesNotFit(n);
    } else {
      var rest := v - SignedWindow(v);
      if v % 2 == 1 {
        NearPowerStep(v, n);
      } else {
        NotOnlyOdd(v, n);
      }
      if rest == Pow2(n) {
        PowerDoesNotFit(n - 1);
      } else {
        NextPower(n - 6);
        WindowTaken(v);
        NearPowerDoesNotFit(rest / 2, n - 1);
      }
    }
  }

  lemma NotOnlyOdd(v: int, n: nat)
    requires n >= 5 && Pow2(n) - Pow2(n - 5) <= v < Pow2(n) && v % 2 == 0
    ensures n > 5 && SignedWindow(v) == 0
  {
    hide SignedWindow;
    EvenWindow(v / 2);
    assert v == 2 * (v / 2);
    SmallPowers();
  }

  /** What the digits of slide stand for: a carry past the top is dropped, so only numbers that fit survive. */
  function Slid(a: seq<byte>): int {
    if Fits(Le(a), 8 * |a|) then Le(a) else Le(a) - Pow2(8 * |a|)
  }

  lemma SlidIs(a: seq<byte>)
    ensures Slid(a) == if Fits(Le(a), 8 * |a|) then Le(a) else Le(a) - Pow2(8 * |a|)
  {
  }

  lemma {:induction false} PowerOfBytes(n: nat)
    ensures Pow256(n) == Pow2(8 * n)
  {
    if n > 0 {
      PowerOfBytes(n - 1);
      SmallShifts(8 * n - 8);
      SmallShifts(8 * n - 4);
    }
  }

  /** slide loses the carry of every scalar whose five highest bits are set. */
  lemma HighBitsLoseCarry(a: seq<byte>)
    requires |a| == 32 && a[31] >= 0xf8
    ensures Slid(a) == Le(a) - Pow2(8 * |a|) != Le(a)
  {
    hide Fits, Slid, Pow2, Pow256, LeFrom;
    var m := |a| - 1;
    SlidIs(a);
    TopByte(a, 0);
    LeRange(a, 0);
    PowerOfBytes(m);
    Ordered(Pow2(8 * m), 0xf8, a[31]);
    SmallShifts(8 * m);
    SmallShifts(8 * m + 4);
    SmallShifts(8 * m + 3);
    NearPowerDoesNotFit(Le(a), 8 * m + 8);
  }

  lemma {:induction false} LeRange(a: seq<byte>, i: nat)
    requires i <= |a|
    ensures LeFrom(a, i) < Pow2(8 * (|a| - i))
    decreases |a| - i
  {
    if i < |a| {
      LeRange(a, i + 1);
      SmallShifts(8 * (|a| - i) - 8);
      SmallShifts(8 * (|a| - i) - 4);
    }
  }

  /** Only the zero scalar slides to all zeros. */
  lemma SlidZero(s: seq<int8>, a: seq<byte>)
    requires Naf(s) && DigitsFrom(s, 0) == Slid(a)
    ensures Le(a) == 0 <==> Zeros(s, 0, |s|)
  {
    hide Slid, Fits;
    SlidIs(a);
    LeRange(a, 0);
    var z := seq(8 * |a|, _ => 0 as int8);
    ZeroRun(z, 0, |z|);
    if Le(a) == 0 {
      NafFits(z, 0);
      var y := seq(|s|, _ => 0 as int8);
      ZeroRun(y, 0, |y|);
      NafUnique(s, y, 0);
    }
    if Zeros(s, 0, |s|) {
      ZeroRun(s, 0, |s|);
    }
  }

  method LoadBits(r: array<int8>, a: seq<byte>)
    requires r.Length == 256 && |a| == 32
    modifies r
    ensures BitsFrom(r[..], 0) && DigitsFrom(r[..], 0) == Le(a)
    ensures a[31] <= 127 ==> Le(a) < Pow2(r.Length - 1)
  {
    for i := 0 to 256
      invariant forall k :: 0 <= k < i ==> r[k] == Bit(a, k)
    {
      r[i] := Bit(a, i);
    }
    BitsValue(r[..], a, 0);
    if a[31] <= 127 {
      TopBitClear(a, 0);
    }
  }

  /** Rewrites the bits of a in r as a width-5 non-adjacent form. */
  method Slide(r: array<int8>, a: seq<byte>)
    requires r.Length == 256 && |a| == 32
    modifies r
    ensures Naf(r[..])
    ensures DigitsFrom(r[..], 0) == Slid(a)
    ensures a[31] <= 127 ==> Slid(a) == Le(a)
  {
    hide Fits, Slid;
    SlidIs(a);
    LoadBits(r, a);
    ghost var lost := false;
    for i := 0 to r.Length
      invariant Settled(r[..], i, Le(a), lost)
    {
      ghost var was := r[..];
      if r[i] != 0 {
        lost := Gather(r, i);
        SettleDigit(was, r[..], i, Le(a), lost);
      } else {
        SkipZero(was, i, Le(a), lost);
      }
    }
    if lost {
      NoRoom(r[..], Le(a));
    } else {
      NafFits(r[..], 0);
    }
  }
}
