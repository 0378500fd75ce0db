// The premises on the curve hold together: the integers modulo l, with 1 as the base point, meet all of them.

module Premises {
  import opened Arithmetic
  import opened Wrappers
  import opened ByteStrings
  import opened Curves
  import opened Groups
  import opened Scalars

  type Residue = x: int | 0 <= x < L

  function Add(x: Residue, y: Residue): Residue { if x + y < L then x + y else x + y - L }

  function Neg(x: Residue): Residue { if x == 0 then 0 else L - x }

  const Z: Group<Residue> := Group(Add, Neg, 0)

  lemma AddLaws(x: Residue, y: Residue, z: Residue)
    ensures Add(x, y) == Add(y, x) && Add(Add(x, y), z) == Add(x, Add(y, z))
    ensures Add(x, 0) == x && Add(x, Neg(x)) == 0
  {
  }

  lemma ResiduesAreAbelian()
    ensures IsAbelian(Z)
  {
    hide Add, Neg;
    forall x: Residue, y: Residue, z: Residue ensures LawsAt(Z, x, y, z) {
      AddLaws(x, y, z);
    }
  }

  lemma WrapsOnce(s: int, m: int)
    requires 0 <= s < 2 * m
    ensures s % m == if s < m then s else s - m
  {
    SameResidue(s - m, s, 1, m);
  }

  lemma AddIsModular(t: Residue, v: int, x: Residue, m: int)
    requires m == L && t == v % m
    ensures Add(t, x) == (v + x) % m
  {
    WrapsOnce(t + x, m);
    ModSum(v, x, m);
  }

  lemma {:induction false} TimesIs(n: nat, x: Residue, m: int)
    requires m == L
    ensures Times(Z, n, x) == n * x % m
    decreases n
  {
    hide Add, L;
    if n > 0 {
      TimesIs(n - 1, x, m);
      Distribute(x, n - 1, 1);
      AddIsModular(Times(Z, n - 1, x), (n - 1) * x, x, m);
    }
  }

  lemma OrderTimes(n: nat, x: Residue)
    requires n == L
    ensures Times(Z, n, x) == 0
  {
    TimesIs(n, x, L);
    SameResidue(0, n * x, x, L);
  }

  /** 1 has order l. */
  lemma OneGenerates(n: int)
    requires Times(Z, n, 1) == 0
    ensures n % L == 0
  {
    if n >= 0 {
      TimesIs(n, 1, L);
    } else {
      TimesIs(-n, 1, L);
      MultipleNegated(n);
    }
  }

  lemma MultipleNegated(n: int)
    requires -n % L == 0
    ensures n % L == 0
  {
    assert n == L * -(-n / L);
  }

  function Encode(x: Residue): Bytes32 { LeBytes(x, 32) }

  function Decode(b: Bytes32): Option<Residue> { if Le(b) < L then Some(Le(b)) else None }

  lemma DecodeEncode(x: Residue)
    ensures Decode(Encode(x)) == Some(x) && Le(Encode(x)) == x
  {
    Pow256Value();
    LeBytesValue(x, 32);
  }

  /** The residues as a curve with any hash: keys hash to the residue of their value. */
  function Residues(fastHash: seq<byte> -> Bytes32): Curve<Residue> {
    Curve(Z, 1,
      seq(8, j requires 0 <= j < 8 => Times(Z, 2 * j + 1, 1)),
      seq(32, i requires 0 <= i < 32 => seq(8, j requires 0 <= j < 8 => Times(Z, j + 1, Times(Z, Pow256(i), 1)))),
      Encode, Decode, (k: Bytes32) => Le(k) % L, fastHash)
  }

  lemma PremisesHold(fastHash: seq<byte> -> Bytes32)
    ensures Lawful(Residues(fastHash)) && Generates(Residues(fastHash))
  {
    hide Times, IsAbelian;
    forall n: int | Times(Z, n, 1) == 0 ensures n % L == 0 {
      OneGenerates(n);
    }
    var e := Residues(fastHash);
    ResiduesAreAbelian();
    forall x: Residue ensures e.decode(e.encode(x)) == Some(x) {
      DecodeEncode(x);
    }
    OrderTimes(L, 1);
    forall k: Bytes32 ensures Times(Z, L, e.hashToEc(k)) == Z.zero {
      OrderTimes(L, e.hashToEc(k));
    }
  }
}
