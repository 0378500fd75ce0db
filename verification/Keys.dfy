// The key derivations of crypto.cpp and the subaddresses built on them.

module Keys {
  import opened Wrappers
  import opened ByteStrings
  import opened Curves
  import opened Groups
  import opened Scalars
  import Varints

  type Scalar = x: int | 0 <= x < L

  // ---- One-off keys ----

  function Encoded<P>(e: Curve<P>, n: int, x: P): Bytes32 { e.encode(Times(e.group, n, x)) }

  /** secret_key_to_public_key: refuses a secret that sc_check refuses. */
  function SecretToPublic<P>(e: Curve<P>, sec: nat): Option<Bytes32> {
    if sec < L then Some(Encoded(e, sec, e.base)) else None
  }

  /** ge_mul8 */
  function Mul8<P>(g: Group<P>, x: P): P {
    var x2 := g.add(x, x);
    var x4 := g.add(x2, x2);
    g.add(x4, x4)
  }

  /** generate_key_derivation: eight times the shared point. */
  function KeyDerivation<P>(e: Curve<P>, key1: Bytes32, key2: Scalar): Option<Bytes32> {
    match e.decode(key1)
    case None => None
    case Some(point) => Some(e.encode(Mul8(e.group, Times(e.group, key2, point))))
  }

  function DerivationToScalar<P>(e: Curve<P>, derivation: Bytes32, i: nat): Scalar {
    HashScalar(e, derivation + Varints.Encode(i))
  }

  function DerivePublicKey<P>(e: Curve<P>, derivation: Bytes32, i: nat, base: Bytes32): Option<Bytes32> {
    match e.decode(base)
    case None => None
    case Some(point) =>
      Some(e.encode(e.group.add(point, Times(e.group, DerivationToScalar(e, derivation, i), e.base))))
  }

  function DeriveSecretKey<P>(e: Curve<P>, derivation: Bytes32, i: nat, base: Scalar): Scalar {
    (base + DerivationToScalar(e, derivation, i)) % L
  }

  function DeriveSubaddressPublicKey<P>(e: Curve<P>, outKey: Bytes32, derivation: Bytes32, i: nat): Option<Bytes32> {
    match e.decode(outKey)
    case None => None
    case Some(point) =>
      Some(e.encode(Minus(e.group, point, Times(e.group, DerivationToScalar(e, derivation, i), e.base))))
  }

  /** The first byte of the hash of "view_tag", the derivation and the index. */
  function DeriveViewTag<P>(e: Curve<P>, derivation: Bytes32, i: nat): byte {
    e.fastHash([118, 105, 101, 119, 95, 116, 97, 103] + derivation + Varints.Encode(i))[0]
  }

  function KeyImage<P>(e: Curve<P>, pub: Bytes32, sec: Scalar): Bytes32 { Encoded(e, sec, e.hashToEc(pub)) }

  // ---- Their laws ----

  lemma Mul8Times<P(!new)>(g: Group<P>, n: int, x: P)
    requires IsAbelian(g)
    ensures Mul8(g, Times(g, n, x)) == Times(g, 8 * n, x)
  {
    hide Times;
    TimesSum(g, n, n, x);
    TimesSum(g, 2 * n, 2 * n, x);
    TimesSum(g, 4 * n, 4 * n, x);
  }

  /** The two sides of an exchange over any point x derive the same value. */
  lemma Shared<P(!new)>(e: Curve<P>, a: Scalar, b: Scalar, x: P)
    requires Lawful(e)
    ensures KeyDerivation(e, Encoded(e, a, x), b) == KeyDerivation(e, Encoded(e, b, x), a)
    ensures KeyDerivation(e, Encoded(e, a, x), b) == Some(Encoded(e, 8 * (a * b), x))
  {
    hide Times;
    var g := e.group;
    TimesProduct(g, b, a, x);
    TimesProduct(g, a, b, x);
    Mul8Times(g, a * b, x);
  }

  /** Deriving an output key and taking the derived scalar off again are inverse on encoded points. */
  lemma DerivationInverse<P(!new)>(e: Curve<P>, derivation: Bytes32, i: nat, base: P)
    requires Lawful(e)
    ensures
      var key := DerivePublicKey(e, derivation, i, e.encode(base));
      key.Some? && DeriveSubaddressPublicKey(e, key.value, derivation, i) == Some(e.encode(base))
  {
    hide Times;
    var g, h := e.group, Times(e.group, DerivationToScalar(e, derivation, i), e.base);
    Laws(g, base, h, g.neg(h));
    Laws(g, h, h, h);
    Laws(g, base, g.zero, base);
  }

  /** The other way round: what an output gives back derives the output's point again. */
  lemma InverseDerivation<P(!new)>(e: Curve<P>, derivation: Bytes32, i: nat, key: Bytes32, point: P)
    requires Lawful(e) && e.decode(key) == Some(point)
    ensures
      var base := DeriveSubaddressPublicKey(e, key, derivation, i);
      base.Some? && DerivePublicKey(e, derivation, i, base.value) == Some(e.encode(point))
  {
    hide Times;
    var g, h := e.group, Times(e.group, DerivationToScalar(e, derivation, i), e.base);
    Laws(g, point, g.neg(h), h);
    Laws(g, h, g.neg(h), h);
    Laws(g, point, g.zero, point);
  }

  lemma ModularBase<P(!new)>(e: Curve<P>, a: int, b: int)
    requires Lawful(e) && a % L == b % L
    ensures Times(e.group, a, e.base) == Times(e.group, b, e.base)
  {
    ModularTimes(e.group, a, b, e.base);
  }

  /** A secret sum modulo l has the sum of the points as its public key. */
  lemma SumOfKeys<P(!new)>(e: Curve<P>, a: int, b: int)
    requires Lawful(e)
    ensures e.group.add(Times(e.group, a, e.base), Times(e.group, b, e.base)) == Times(e.group, (a + b) % L, e.base)
  {
    hide Times;
    TimesSum(e.group, a, b, e.base);
    ModularBase(e, a + b, (a + b) % L);
  }

  /** The derived secret key belongs to the derived public key. */
  lemma DerivedPair<P(!new)>(e: Curve<P>, derivation: Bytes32, i: nat, base: Scalar)
    requires Lawful(e)
    ensures DerivePublicKey(e, derivation, i, Encoded(e, base, e.base))
         == SecretToPublic(e, DeriveSecretKey(e, derivation, i, base))
  {
    hide Times;
    SumOfKeys(e, base, DerivationToScalar(e, derivation, i));
  }

  // ---- Accounts and subaddresses ----

  datatype Index = Index(major: nat, minor: nat) {
    predicate IsZero() { major == 0 && minor == 0 }
  }

  datatype Address = Address(viewKey: Bytes32, spendKey: Bytes32)

  datatype Account = Account(address: Address, viewSecret: Scalar, spendSecret: Scalar, multisig: seq<Scalar>)

  /** get_subaddress_secret_key: "SubAddr" with its terminator, the view secret and both indices. */
  function SubaddressSecret<P>(e: Curve<P>, a: Scalar, index: Index): Scalar {
    HashScalar(e, [83, 117, 98, 65, 100, 100, 114, 0] + LeBytes(a, 32) + LeBytes(index.major, 4)
      + LeBytes(index.minor, 4))
  }

  /** rct::addKeys and add_public_key; None stands for the exception on a key that is no point. */
  function AddKeys<P>(e: Curve<P>, a: Bytes32, b: Bytes32): Option<Bytes32> {
    match (e.decode(a), e.decode(b))
    case (Some(x), Some(y)) => Some(e.encode(e.group.add(x, y)))
    case _ => None
  }

  function SubaddressSpendKey<P>(e: Curve<P>, account: Account, index: Index): Option<Bytes32> {
    if index.IsZero() then Some(account.address.spendKey)
    else AddKeys(e, account.address.spendKey, Encoded(e, SubaddressSecret(e, account.viewSecret, index), e.base))
  }

  function ScalarmultKey<P>(e: Curve<P>, key: Bytes32, a: Scalar): Option<Bytes32> {
    match e.decode(key)
    case None => None
    case Some(point) => Some(Encoded(e, a, point))
  }

  function GetSubaddress<P>(e: Curve<P>, account: Account, index: Index): Option<Address> {
    if index.IsZero() then Some(account.address)
    else
      match SubaddressSpendKey(e, account, index)
      case None => None
      case Some(d) =>
        match ScalarmultKey(e, d, account.viewSecret)
        case None => None
        case Some(c) => Some(Address(c, d))
  }

  /** The loop adds M + B where get_subaddress_spend_public_key adds B + M. */
  lemma LoopStep<P(!new)>(e: Curve<P>, account: Account, spend: P, index: Index)
    requires Lawful(e) && e.decode(account.address.spendKey) == Some(spend)
    ensures index.IsZero() ==> SubaddressSpendKey(e, account, index) == Some(account.address.spendKey)
    ensures !index.IsZero() ==> SubaddressSpendKey(e, account, index) == Some(e.encode(
      e.group.add(Times(e.group, SubaddressSecret(e, account.viewSecret, index), e.base), spend)))
  {
    hide Times;
    Laws(e.group, Times(e.group, SubaddressSecret(e, account.viewSecret, index), e.base), spend, spend);
  }

  /** get_subaddress_spend_public_keys: one key for each minor index from begin up to end; None for its exceptions. */
  method SubaddressSpendKeys<P(!new)>(e: Curve<P>, account: Account, major: nat, begin: nat, end: nat)
    returns (keys: Option<seq<Bytes32>>)
    requires Lawful(e)
    ensures keys.None? <==> begin > end || e.decode(account.address.spendKey).None?
    ensures keys.Some? ==> |keys.value| == end - begin
    ensures keys.Some? ==> forall k :: 0 <= k < end - begin ==>
      SubaddressSpendKey(e, account, Index(major, begin + k)) == Some(keys.value[k])
  {
    hide Times, SubaddressSecret, SubaddressSpendKey, IsAbelian, Lawful;
    if begin > end {
      return None;
    }
    var p3 := e.decode(account.address.spendKey);
    if p3.None? {
      return None;
    }
    var pkeys := [];
    for idx := begin to end
      invariant |pkeys| == idx - begin
      invariant forall k :: 0 <= k < idx - begin ==>
        SubaddressSpendKey(e, account, Index(major, begin + k)) == Some(pkeys[k])
    {
      var index := Index(major, idx);
      LoopStep(e, account, p3.value, index);
      if index.IsZero() {
        pkeys := pkeys + [account.address.spendKey];
      } else {
        var m := Times(e.group, SubaddressSecret(e, account.viewSecret, index), e.base);
        pkeys := pkeys + [e.encode(e.group.add(m, p3.value))];
      }
    }
    keys := Some(pkeys);
  }

  /** The account's public keys belong to its view secret and to the spend secret b. */
  ghost predicate Holds<P>(e: Curve<P>, account: Account, b: Scalar) {
    && account.address.viewKey == Encoded(e, account.viewSecret, e.base)
    && account.address.spendKey == Encoded(e, b, e.base)
  }

  /** The secret behind the spend key of a subaddress. */
  function SubaddressSpendSecret<P>(e: Curve<P>, account: Account, b: Scalar, index: Index): Scalar {
    if index.IsZero() then b else (b + SubaddressSecret(e, account.viewSecret, index)) % L
  }

  lemma SubaddressKeys<P(!new)>(e: Curve<P>, account: Account, b: Scalar, index: Index)
    requires Lawful(e) && Holds(e, account, b)
    ensures SubaddressSpendKey(e, account, index) ==
      Some(Encoded(e, SubaddressSpendSecret(e, account, b, index), e.base))
  {
    hide Times, SubaddressSecret, HashScalar;
    SumOfKeys(e, b, SubaddressSecret(e, account.viewSecret, index));
  }

  /** A subaddress is (aD, D) for its spend key D; the main address is (aB, bB). */
  lemma SubaddressParts<P(!new)>(e: Curve<P>, account: Account, b: Scalar, index: Index)
    requires Lawful(e) && Holds(e, account, b)
    ensures var d := SubaddressSpendSecret(e, account, b, index);
      GetSubaddress(e, account, index) == Some(Address(
        if index.IsZero() then Encoded(e, account.viewSecret, e.base)
        else Encoded(e, account.viewSecret, Times(e.group, d, e.base)),
        Encoded(e, d, e.base)))
  {
    hide Times;
    SubaddressKeys(e, account, b, index);
  }

  /** Index (0, 0) is the account's own address; any other is (aD, D) for D = S + mB and the spend point S. */
  lemma SubaddressFormula<P(!new)>(e: Curve<P>, account: Account, index: Index, spend: P)
    requires Lawful(e) && e.decode(account.address.spendKey) == Some(spend)
    ensures GetSubaddress(e, account, Index(0, 0)) == Some(account.address)
    ensures index != Index(0, 0) ==>
      var d := e.group.add(spend, Times(e.group, SubaddressSecret(e, account.viewSecret, index), e.base));
      GetSubaddress(e, account, index) ==
        Some(Address(e.encode(Times(e.group, account.viewSecret, d)), e.encode(d)))
  {
    hide Times, SubaddressSecret;
  }
}
