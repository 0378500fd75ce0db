// What the key and signature code needs of the curve: its group, tables, point encoding and hash to points.

module Curves {
  import opened Wrappers
  import opened ByteStrings
  import opened Groups
  import opened Scalars
  import opened ScalarMult
  import opened ScalarValues
  import opened WindowedMult

  datatype Curve<!P> = Curve(
    group: Group<P>,
    base: P,
    // ge_Bi and ge_base
    baseOdd: seq<P>,
    baseRows: seq<seq<P>>,
    // ge_tobytes and ge_frombytes_vartime
    encode: P -> Bytes32,
    decode: Bytes32 -> Option<P>,
    hashToEc: Bytes32 -> P,
    // cn_fast_hash
    fastHash: seq<byte> -> Bytes32
  )

  /** The premises: a group, tables of the base point, l * B = 0 and l * X = 0 for every hashed point X. */
  ghost predicate Lawful<P(!new)>(e: Curve<P>) {
    && IsAbelian(e.group)
    && OddMultiples(e.group, e.baseOdd, e.base) && BaseTable(e.group, e.baseRows, e.base)
    && (forall x: P :: e.decode(e.encode(x)) == Some(x))
    && Times(e.group, L, e.base) == e.group.zero
    && (forall k: Bytes32 :: Times(e.group, L, e.hashToEc(k)) == e.group.zero)
  }

  /** The order of the base point is l and no less. */
  ghost predicate Generates<P>(e: Curve<P>) {
    forall n: int :: Times(e.group, n, e.base) == e.group.zero ==> n % L == 0
  }

  lemma ModularTimes<P(!new)>(g: Group<P>, a: int, b: int, x: P)
    requires IsAbelian(g) && Times(g, L, x) == g.zero && a % L == b % L
    ensures Times(g, a, x) == Times(g, b, x)
  {
    var q := a / L - b / L;
    var n: int := L;
    assert a == b + q * n;
    TimesSum(g, b, q * n, x);
    TimesProduct(g, q, n, x);
    TimesZero(g, q);
    Laws(g, Times(g, b, x), g.zero, x);
  }

  /** hash_to_scalar */
  method HashToScalar<P>(e: Curve<P>, data: seq<byte>) returns (s: Bytes32)
    ensures Le(s) == HashScalar(e, data)
  {
    s := Reduced32(e.fastHash(data));
  }

  function HashScalar<P>(e: Curve<P>, data: seq<byte>): (h: nat)
    ensures h < L
  {
    Le(e.fastHash(data)) % L
  }

  // ---- What a scalar is the hash of ----

  /** No string but t hashes to v modulo l. */
  ghost predicate OnlyOn<P>(e: Curve<P>, t: seq<byte>, v: nat) {
    forall s :: s != t ==> Le(e.fastHash(s)) % L != v
  }

  /** Two strings that the hash does not tell apart modulo l. */
  predicate Collide<P>(e: Curve<P>, s: seq<byte>, t: seq<byte>) {
    s != t && Le(e.fastHash(s)) % L == Le(e.fastHash(t)) % L
  }
}
