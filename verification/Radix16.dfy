// The two signed radix-16 recoders: nibble by nibble (ge_scalarmult_base) and byte by byte (ge_scalarmult).

module Radix16 {
  import opened ByteStrings
  import opened SlidingWindow

  /** Digits i to n - 1 in base 16, digit i as the units, with `top` standing for all higher digits. */
  function DigitsTo(s: seq<int8>, i: nat, n: nat, top: int): int
    requires i <= n <= |s|
    decreases n - i, |s|
  {
    if i == n then top else s[i] as int + 16 * DigitsTo(s, i + 1, n, top)
  }

  function Hex(s: seq<int8>): int { DigitsTo(s, 0, |s|, 0) }

  /** The digit ranges of both recoders, and the value they stand for. */
  predicate Recoded(s: seq<int8>, v: int) {
    && |s| == 64 && Hex(s) == v
    && (forall k :: 0 <= k < 63 ==> -8 <= s[k] < 8)
    && 0 <= s[63] <= 16
  }

  lemma {:induction false} SameTo(s: seq<int8>, t: seq<int8>, i: nat, n: nat, top: int)
    requires i <= n <= |s| == |t| && forall k :: i <= k < n ==> s[k] == t[k]
    ensures DigitsTo(s, i, n, top) == DigitsTo(t, i, n, top)
    decreases n - i
  {
    if i < n {
      SameTo(s, t, i + 1, n, top);
    }
  }

  /** Splitting one more digit off the top. */
  lemma {:induction false} Splits(s: seq<int8>, t: seq<int8>, i: nat, n: nat, top: int)
    requires i <= n < |s| == |t| && forall k :: i <= k < n ==> s[k] == t[k]
    ensures DigitsTo(s, i, n, t[n] as int + 16 * top) == DigitsTo(t, i, n + 1, top)
    decreases n - i
  {
    if i < n {
      Splits(s, t, i + 1, n, top);
    } else {
      assert DigitsTo(t, n + 1, n + 1, top) == top;
    }
  }

  /** The digits determine each other: a value has one recoding. */
  lemma {:induction false} DigitsUnique(s: seq<int8>, t: seq<int8>, i: nat)
    requires i <= |s| == |t| == 64 && DigitsTo(s, i, 64, 0) == DigitsTo(t, i, 64, 0)
    requires forall k :: 0 <= k < 63 ==> -8 <= s[k] < 8
    requires forall k :: 0 <= k < 63 ==> -8 <= t[k] < 8
    ensures forall k :: i <= k < 64 ==> s[k] == t[k]
    decreases 64 - i
  {
    if i < 64 {
      assert DigitsTo(s, 64, 64, 0) == 0 == DigitsTo(t, 64, 64, 0);
      assert s[i] == t[i];
      DigitsUnique(s, t, i + 1);
    }
  }

  lemma RecodedUnique(s: seq<int8>, t: seq<int8>, v: int)
    requires Recoded(s, v) && Recoded(t, v)
    ensures s == t
  {
    DigitsUnique(s, t, 0);
  }

  lemma {:induction false} NibblesValue(s: seq<int8>, a: seq<byte>, k: nat)
    requires k <= |a| && |s| == 2 * |a|
    requires forall i :: 0 <= i < |a| ==> s[2 * i] as int == a[i] % 16 && s[2 * i + 1] as int == a[i] / 16
    ensures DigitsTo(s, 2 * k, |s|, 0) == LeFrom(a, k)
    decreases |a| - k
  {
    if k < |a| {
      NibblesValue(s, a, k + 1);
      assert s[2 * k] as int == a[k] % 16;
      assert DigitsTo(s, 2 * k + 1, |s|, 0) == s[2 * k + 1] as int + 16 * DigitsTo(s, 2 * k + 2, |s|, 0);
    }
  }

  /** The scalar cut into nibbles. */
  method LoadNibbles(e: array<int8>, a: seq<byte>)
    requires e.Length == 64 && |a| == 32
    modifies e
    ensures forall k :: 0 <= k < 64 ==> 0 <= e[k] < 16
    ensures DigitsTo(e[..], 0, 64, 0) == Le(a) && (a[31] <= 127 ==> e[63] < 8)
  {
    hide DigitsTo;
    for i := 0 to 32
      invariant forall k :: 0 <= k < i ==> e[2 * k] as int == a[k] % 16 && e[2 * k + 1] as int == a[k] / 16
    {
      e[2 * i] := (a[i] % 16) as int8;
      e[2 * i + 1] := (a[i] / 16) as int8;
    }
    NibblesValue(e[..], a, 0);
    forall k | 0 <= k < 64 ensures 0 <= e[k] < 16 {
      assert e[2 * (k / 2)] as int == a[k / 2] % 16 && e[2 * (k / 2) + 1] as int == a[k / 2] / 16;
    }
    assert e[2 * 31 + 1] as int == a[31] / 16;
  }

  /** The recoding at the head of ge_scalarmult_base. */
  method RecodeNibbles(e: array<int8>, a: seq<byte>)
    requires e.Length == 64 && |a| == 32
    modifies e
    ensures Recoded(e[..], Le(a))
    ensures a[31] <= 127 ==> e[63] <= 8
  {
    LoadNibbles(e, a);
    ghost var nibbles := e[..];
    var carry: int8 := 0;
    for i := 0 to 63
      invariant 0 <= carry <= 1
      invariant forall k :: 0 <= k < i ==> -8 <= e[k] < 8
      invariant forall k :: i <= k < 64 ==> e[k] == nibbles[k]
      invariant DigitsTo(e[..], 0, i, carry as int + DigitsTo(nibbles, i, 64, 0)) == Le(a)
    {
      ghost var was := e[..];
      ghost var rest := DigitsTo(nibbles, i + 1, 64, 0);
      ghost var c := carry as int + e[i] as int;
      e[i] := e[i] + carry;
      carry := (e[i] + 8) / 16;
      e[i] := e[i] - 16 * carry;
      assert c + 16 * rest == e[i] as int + 16 * (carry as int + rest);
      Splits(was, e[..], 0, i, carry as int + rest);
    }
    ghost var was := e[..];
    e[63] := e[63] + carry;
    assert DigitsTo(nibbles, 63, 64, 0) == nibbles[63] as int + 16 * DigitsTo(nibbles, 64, 64, 0);
    Splits(was, e[..], 0, 63, 0);
  }

  /** The recoding at the head of ge_scalarmult. */
  method RecodeBytes(e: array<int8>, a: seq<byte>)
    requires e.Length == 64 && |a| == 32
    modifies e
    ensures Recoded(e[..], Le(a))
    ensures a[31] <= 127 ==> e[63] <= 8
  {
    var carry, carry2 := 0, 0;
    for i := 0 to 31
      invariant 0 <= carry <= 1
      invariant forall k :: 0 <= k < 2 * i ==> -8 <= e[k] < 8
      invariant DigitsTo(e[..], 0, 2 * i, carry + LeFrom(a, i)) == Le(a)
    {
      ghost var was := e[..];
      carry := carry + a[i];
      carry2 := (carry + 8) / 16;
      e[2 * i] := (carry - 16 * carry2) as int8;
      ghost var mid := e[..];
      carry := (carry2 + 8) / 16;
      e[2 * i + 1] := (carry2 - 16 * carry) as int8;
      ghost var rest := LeFrom(a, i + 1);
      Splits(was, mid, 0, 2 * i, carry2 + 16 * rest);
      Splits(mid, e[..], 0, 2 * i + 1, carry + rest);
    }
    ghost var was := e[..];
    carry := carry + a[31];
    carry2 := (carry + 8) / 16;
    e[62] := (carry - 16 * carry2) as int8;
    ghost var mid := e[..];
    e[63] := carry2 as int8;
    assert LeFrom(a, 31) == a[31] + 256 * LeFrom(a, 32);
    Splits(was, mid, 0, 62, carry2);
    Splits(mid, e[..], 0, 63, 0);
  }

  /** Both recoders write the same digits. */
  method RecodersAgree(e: array<int8>, f: array<int8>, a: seq<byte>)
    requires e.Length == 64 == f.Length && e != f && |a| == 32
    modifies e, f
    ensures e[..] == f[..]
  {
    RecodeNibbles(e, a);
    ghost var nibbles := e[..];
    RecodeBytes(f, a);
    RecodedUnique(nibbles, f[..], Le(a));
  }
}
