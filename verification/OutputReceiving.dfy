// How a wallet recognises outputs and derives their secret keys and key images.

module OutputReceiving {
  import opened Arithmetic
  import opened Wrappers
  import opened ByteStrings
  import opened Curves
  import opened Groups
  import opened Keys
  import opened Scalars

  /** out_can_be_to_acc: an output without a view tag can always be ours. */
  predicate OutCanBeToAcc<P>(e: Curve<P>, tag: Option<byte>, derivation: Bytes32, i: nat) {
    tag.None? || tag.value == DeriveViewTag(e, derivation, i)
  }

  datatype ReceiveInfo = ReceiveInfo(index: Index, derivation: Bytes32)

  /** is_out_to_acc_precomp: the shared derivation first, then the output's own additional one. */
  function IsOutToAccPrecomp<P>(e: Curve<P>, subaddresses: map<Bytes32, Index>, outKey: Bytes32, derivation: Bytes32,
      additional: seq<Bytes32>, i: nat, tag: Option<byte>): Option<ReceiveInfo>
  {
    var d := DeriveSubaddressPublicKey(e, outKey, derivation, i);
    if OutCanBeToAcc(e, tag, derivation, i) && d.None? then None
    else if OutCanBeToAcc(e, tag, derivation, i) && d.value in subaddresses then
      Some(ReceiveInfo(subaddresses[d.value], derivation))
    else if |additional| == 0 || i >= |additional| then None
    else if OutCanBeToAcc(e, tag, additional[i], i) then
      var d' := DeriveSubaddressPublicKey(e, outKey, additional[i], i);
      if d'.Some? && d'.value in subaddresses then Some(ReceiveInfo(subaddresses[d'.value], additional[i])) else None
    else None
  }

  /** The output is the table owner's under this derivation. */
  predicate Ours<P>(e: Curve<P>, subaddresses: map<Bytes32, Index>, outKey: Bytes32, derivation: Bytes32, i: nat,
      tag: Option<byte>)
  {
    var d := DeriveSubaddressPublicKey(e, outKey, derivation, i);
    d.Some? && d.value in subaddresses && OutCanBeToAcc(e, tag, derivation, i)
  }

  /**
    Whichever of the two derivations the output was built with, it is recognised, by the shared one first; what is found
    is the index listed for what is left of the key without the derivation.
    */
  lemma Recognised<P>(e: Curve<P>, subaddresses: map<Bytes32, Index>, outKey: Bytes32, derivation: Bytes32,
      additional: seq<Bytes32>, i: nat, tag: Option<byte>)
    ensures
      var r := IsOutToAccPrecomp(e, subaddresses, outKey, derivation, additional, i, tag);
      && (r.Some? ==>
           var d := DeriveSubaddressPublicKey(e, outKey, r.value.derivation, i);
           && d.Some? && d.value in subaddresses && r.value.index == subaddresses[d.value]
           && OutCanBeToAcc(e, tag, r.value.derivation, i)
           && (r.value.derivation == derivation
               || (!Ours(e, subaddresses, outKey, derivation, i, tag) && i < |additional|
                   && r.value.derivation == additional[i])))
      && (r.Some? <==>
           || Ours(e, subaddresses, outKey, derivation, i, tag)
           || (i < |additional| && Ours(e, subaddresses, outKey, additional[i], i, tag)))
  {
  }

  /** Every key of the table is the account's spend key at its index. */
  ghost predicate HonestTable<P>(e: Curve<P>, account: Account, subaddresses: map<Bytes32, Index>) {
    forall k: Bytes32 {:trigger k in subaddresses} :: k in subaddresses ==>
      SubaddressSpendKey(e, account, subaddresses[k]) == Some(k)
  }

  // ---- Deriving the secret key ----

  /** The local shares of a multisig spend secret added up. */
  function ShareSum(keys: seq<Scalar>): Scalar {
    if |keys| == 0 then 0 else (keys[|keys| - 1] + ShareSum(keys[..|keys| - 1])) % L
  }

  /** sc_add */
  function Added(a: Scalar, b: Scalar): Scalar { (a + b) % L }

  lemma AddedLaws(a: Scalar, b: Scalar, c: Scalar)
    ensures Added(a, 0) == a && Added(Added(a, b), c) == Added(a, Added(b, c))
  {
    ModSum(a + b, c, L);
    ModSum(b + c, a, L);
    assert a % L == a;
  }

  /** A share more adds itself. */
  lemma NextShare(keys: seq<Scalar>, k: Scalar)
    ensures ShareSum([]) == 0 && ShareSum(keys + [k]) == Added(ShareSum(keys), k)
  {
    assert (keys + [k])[..|keys|] == keys;
  }

  /** The shares of two signers together: adding up is modulo l, in any grouping. */
  lemma {:induction false} SharesJoin(keys: seq<Scalar>, more: seq<Scalar>)
    ensures ShareSum(keys + more) == Added(ShareSum(keys), ShareSum(more))
    decreases |more|
  {
    hide ShareSum, Added;
    if |more| == 0 {
      assert keys + more == keys && more == [];
      NextShare(keys, 0);
      AddedLaws(ShareSum(keys), 0, 0);
    } else {
      var n := |more| - 1;
      SharesJoin(keys, more[..n]);
      NextShare(keys + more[..n], more[n]);
      NextShare(more[..n], more[n]);
      assert keys + more[..n] + [more[n]] == keys + more && more[..n] + [more[n]] == more;
      AddedLaws(ShareSum(keys), ShareSum(more[..n]), more[n]);
    }
  }

  /** So the public key of the sum is the sum of the shares' public keys. */
  lemma SharesAsPoints<P(!new)>(e: Curve<P>, keys: seq<Scalar>, more: seq<Scalar>)
    requires Lawful(e)
    ensures Times(e.group, ShareSum(keys + more), e.base) ==
      e.group.add(Times(e.group, ShareSum(keys), e.base), Times(e.group, ShareSum(more), e.base))
  {
    hide Times, ShareSum;
    SharesJoin(keys, more);
    SumOfKeys(e, ShareSum(keys), ShareSum(more));
  }

  function SpendShare(account: Account): Scalar {
    if |account.multisig| == 0 then account.spendSecret else ShareSum(account.multisig)
  }

  function DerivedSecret<P>(e: Curve<P>, account: Account, derivation: Bytes32, i: nat, index: Index): Scalar {
    var step1 := DeriveSecretKey(e, derivation, i, SpendShare(account));
    if index.IsZero() then step1 else (step1 + SubaddressSecret(e, account.viewSecret, index)) % L
  }

  /** The public key the helper compares with: from the secret when it is whole, from the spend key in multisig. */
  function DerivedPublic<P>(e: Curve<P>, account: Account, derivation: Bytes32, i: nat, index: Index): Option<Bytes32> {
    if |account.multisig| == 0 then SecretToPublic(e, DerivedSecret(e, account, derivation, i, index))
    else
      match DerivePublicKey(e, derivation, i, account.address.spendKey)
      case None => None
      case Some(pub) =>
        if index.IsZero() then Some(pub)
        else AddKeys(e, pub, Encoded(e, SubaddressSecret(e, account.viewSecret, index), e.base))
  }

  datatype Ephemeral = Ephemeral(pub: Bytes32, sec: Scalar, image: Bytes32)

  /** What the helper comes to: a watch-only wallet (zero spend secret) copies the key, others must derive it. */
  function HelperResult<P>(e: Curve<P>, account: Account, outKey: Bytes32, derivation: Bytes32, i: nat, index: Index):
    Option<Ephemeral>
  {
    var sec := DerivedSecret(e, account, derivation, i, index);
    if account.spendSecret == 0 then Some(Ephemeral(outKey, 0, KeyImage(e, outKey, 0)))
    else if DerivedPublic(e, account, derivation, i, index) != Some(outKey) then None
    else Some(Ephemeral(outKey, sec, KeyImage(e, outKey, sec)))
  }

  /** The spend secret at hand: the whole one, or in multisig the sum of the local shares. */
  method LocalSpendSecret(account: Account) returns (spend: Scalar)
    ensures spend == SpendShare(account)
  {
    if account.multisig == [] {
      return account.spendSecret;
    }
    spend := 0;
    for k := 0 to |account.multisig|
      invariant spend == ShareSum(account.multisig[..k])
    {
      assert account.multisig[..k + 1][..k] == account.multisig[..k];
      spend := (account.multisig[k] + spend) % L;
    }
    assert account.multisig[..|account.multisig|] == account.multisig;
  }

  /** generate_key_image_helper_precomp on a device that leaves the key image to it, as the default one does. */
  method GenerateKeyImageHelperPrecomp<P(!new)>(e: Curve<P>, account: Account, outKey: Bytes32, derivation: Bytes32,
      i: nat, index: Index) returns (r: Option<Ephemeral>)
    ensures r == HelperResult(e, account, outKey, derivation, i, index)
    ensures r.Some? ==> r.value.pub == outKey && r.value.image == KeyImage(e, outKey, r.value.sec)
    ensures account.spendSecret == 0 ==> r.Some? && r.value.sec == 0
    ensures r.Some? && account.spendSecret != 0 ==> DerivedPublic(e, account, derivation, i, index) == Some(outKey)
    ensures r.Some? && account.spendSecret != 0 && |account.multisig| == 0 ==> Encoded(e, r.value.sec, e.base) == outKey
  {
    hide Times, HashScalar, KeyImage, SpendShare, DeriveSecretKey, DerivePublicKey, AddKeys, SubaddressSecret, Encoded;
    if account.spendSecret == 0 {
      return Some(Ephemeral(outKey, 0, KeyImage(e, outKey, 0)));
    }
    var spend := LocalSpendSecret(account);
    var step1 := DeriveSecretKey(e, derivation, i, spend);
    var step2, subSecret := step1, 0;
    if !index.IsZero() {
      subSecret := SubaddressSecret(e, account.viewSecret, index);
      step2 := (step1 + subSecret) % L;
    }
    var pub: Option<Bytes32>;
    if account.multisig == [] {
      pub := SecretToPublic(e, step2);
    } else {
      pub := DerivePublicKey(e, derivation, i, account.address.spendKey);
      if pub.Some? && !index.IsZero() {
        pub := AddKeys(e, pub.value, SecretToPublic(e, subSecret).value);
      }
    }
    if pub != Some(outKey) {
      return None;
    }
    return Some(Ephemeral(outKey, step2, KeyImage(e, outKey, step2)));
  }

  /** The secret behind an output that fits at an index: the derived scalar on top of the subaddress's spend secret. */
  lemma OutputSecret<P(!new)>(e: Curve<P>, account: Account, b: Scalar, outKey: Bytes32, point: P,
      derivation: Bytes32, i: nat, index: Index)
    requires Lawful(e) && Holds(e, account, b) && e.decode(outKey) == Some(point)
    requires DeriveSubaddressPublicKey(e, outKey, derivation, i) == SubaddressSpendKey(e, account, index)
    ensures e.encode(point) == Encoded(e,
      DeriveSecretKey(e, derivation, i, SubaddressSpendSecret(e, account, b, index)), e.base)
  {
    hide Times, HashScalar, DeriveSubaddressPublicKey, SubaddressSpendKey, Holds, SubaddressSpendSecret;
    SubaddressKeys(e, account, b, index);
    InverseDerivation(e, derivation, i, outKey, point);
    DerivedPair(e, derivation, i, SubaddressSpendSecret(e, account, b, index));
  }

  lemma SecretOrder<P>(e: Curve<P>, account: Account, b: Scalar, derivation: Bytes32, i: nat, index: Index)
    requires SpendShare(account) == b
    ensures DeriveSecretKey(e, derivation, i, SubaddressSpendSecret(e, account, b, index))
         == DerivedSecret(e, account, derivation, i, index)
  {
    hide HashScalar, SubaddressSecret, DeriveSecretKey, SubaddressSpendSecret;
    SubaddressOrder(e, account, b, derivation, i, index);
  }

  lemma Reordered(b: int, m: int, h: int)
    ensures ((b + m) % L + h) % L == ((b + h) % L + m) % L
  {
  }

  lemma SubaddressOrder<P>(e: Curve<P>, account: Account, b: Scalar, derivation: Bytes32, i: nat, index: Index)
    ensures DeriveSecretKey(e, derivation, i, SubaddressSpendSecret(e, account, b, index))
         == if index.IsZero() then DeriveSecretKey(e, derivation, i, b)
            else (DeriveSecretKey(e, derivation, i, b) + SubaddressSecret(e, account.viewSecret, index)) % L
  {
    hide HashScalar, SubaddressSecret, DerivationToScalar;
    Reordered(b, SubaddressSecret(e, account.viewSecret, index), DerivationToScalar(e, derivation, i));
  }

  /** The multisig branch adds the same scalars as points. */
  lemma PublicOrder<P(!new)>(e: Curve<P>, account: Account, b: Scalar, derivation: Bytes32, i: nat, index: Index)
    requires Lawful(e) && Holds(e, account, b) && |account.multisig| > 0
    ensures DerivedPublic(e, account, derivation, i, index)
         == Some(Encoded(e, DeriveSecretKey(e, derivation, i, SubaddressSpendSecret(e, account, b, index)), e.base))
  {
    hide Times, HashScalar, DerivationToScalar, SubaddressSecret, DerivePublicKey;
    var h, m := DerivationToScalar(e, derivation, i), SubaddressSecret(e, account.viewSecret, index);
    DerivedPair(e, derivation, i, b);
    SumOfKeys(e, DeriveSecretKey(e, derivation, i, b), m);
    SubaddressOrder(e, account, b, derivation, i, index);
  }

  /**
    An output that fits the account's table at an index gives back its own key there, up to canonical encoding, whether
    the spend secret is whole or shared; when it is whole, or the shares at hand add up to it, the derived secret is the
    key's.
    */
  lemma DerivedKeyMatches<P(!new)>(e: Curve<P>, account: Account, b: Scalar, outKey: Bytes32, point: P,
      derivation: Bytes32, i: nat, index: Index)
    requires Lawful(e) && Holds(e, account, b) && e.decode(outKey) == Some(point)
    requires |account.multisig| == 0 ==> account.spendSecret == b
    requires DeriveSubaddressPublicKey(e, outKey, derivation, i) == SubaddressSpendKey(e, account, index)
    ensures DerivedPublic(e, account, derivation, i, index) == Some(e.encode(point))
    ensures |account.multisig| == 0 || ShareSum(account.multisig) == b ==>
      Encoded(e, DerivedSecret(e, account, derivation, i, index), e.base) == e.encode(point)
  {
    hide Times, HashScalar, DeriveSubaddressPublicKey, SubaddressSpendKey, Holds, SubaddressSpendSecret, DerivedSecret;
    OutputSecret(e, account, b, outKey, point, derivation, i, index);
    if SpendShare(account) == b {
      SecretOrder(e, account, b, derivation, i, index);
    }
    if |account.multisig| > 0 {
      PublicOrder(e, account, b, derivation, i, index);
    }
  }

  // ---- From the transaction's public keys ----

  /** The derivation from the transaction key, or the neutral point when that key is none. */
  function SharedDerivation<P>(e: Curve<P>, txPub: Bytes32, a: Scalar): Bytes32 {
    KeyDerivation(e, txPub, a).UnwrapOr(e.encode(e.group.zero))
  }

  /** The derivations from the additional keys, those that are no points left out. */
  function Received<P>(e: Curve<P>, additional: seq<Bytes32>, a: Scalar): seq<Bytes32> {
    if |additional| == 0 then []
    else
      var rest := Received(e, additional[..|additional| - 1], a);
      match KeyDerivation(e, additional[|additional| - 1], a)
      case None => rest
      case Some(d) => rest + [d]
  }

  /** A transaction key that is no point counts as the neutral point. */
  lemma NoTransactionKey<P>(e: Curve<P>, txPub: Bytes32, a: Scalar)
    ensures KeyDerivation(e, txPub, a).None? <==> e.decode(txPub).None?
    ensures e.decode(txPub).None? ==> SharedDerivation(e, txPub, a) == e.encode(e.group.zero)
    ensures e.decode(txPub).Some? ==> Some(SharedDerivation(e, txPub, a)) == KeyDerivation(e, txPub, a)
  {
    hide Times, Mul8;
  }

  /** Additional keys give their derivations in order, those that are no points none. */
  lemma {:induction false} ReceivedJoin<P>(e: Curve<P>, additional: seq<Bytes32>, key: Bytes32, more: seq<Bytes32>,
      a: Scalar)
    ensures Received(e, additional + [key] + more, a) == Received(e, additional, a)
      + (if e.decode(key).None? then [] else [KeyDerivation(e, key, a).value]) + Received(e, more, a)
    decreases |more|
  {
    hide Times, Mul8;
    if |more| == 0 {
      assert additional + [key] + more == additional + [key] && (additional + [key])[..|additional|] == additional;
    } else {
      var n := |more| - 1;
      ReceivedJoin(e, additional, key, more[..n], a);
      assert (additional + [key] + more)[..|additional| + 1 + n] == additional + [key] + more[..n];
    }
  }

  /** With only points among the additional keys, every output finds its own derivation at its index. */
  lemma {:induction false} ReceivedAt<P>(e: Curve<P>, additional: seq<Bytes32>, a: Scalar)
    requires forall k :: 0 <= k < |additional| ==> KeyDerivation(e, additional[k], a).Some?
    ensures |Received(e, additional, a)| == |additional|
    ensures forall k :: 0 <= k < |additional| ==>
      Some(Received(e, additional, a)[k]) == KeyDerivation(e, additional[k], a)
  {
    hide KeyDerivation;
    if |additional| > 0 {
      ReceivedAt(e, additional[..|additional| - 1], a);
    }
  }

  /** generate_key_image_helper */
  method GenerateKeyImageHelper<P(!new)>(e: Curve<P>, account: Account, subaddresses: map<Bytes32, Index>,
      outKey: Bytes32, txPub: Bytes32, additional: seq<Bytes32>, i: nat) returns (r: Option<Ephemeral>)
    ensures
      var info := IsOutToAccPrecomp(e, subaddresses, outKey, SharedDerivation(e, txPub, account.viewSecret),
        Received(e, additional, account.viewSecret), i, None);
      r == if info.None? then None else HelperResult(e, account, outKey, info.value.derivation, i, info.value.index)
  {
    hide KeyDerivation, HelperResult, IsOutToAccPrecomp;
    var shared := KeyDerivation(e, txPub, account.viewSecret);
    var derivation := if shared.Some? then shared.value else e.encode(e.group.zero);
    var derivations := [];
    for k := 0 to |additional|
      invariant derivations == Received(e, additional[..k], account.viewSecret)
    {
      assert additional[..k + 1][..k] == additional[..k];
      var d := KeyDerivation(e, additional[k], account.viewSecret);
      if d.Some? {
        derivations := derivations + [d.value];
      }
    }
    assert additional[..|additional|] == additional;
    var info := IsOutToAccPrecomp(e, subaddresses, outKey, derivation, derivations, i, None);
    if info.None? {
      return None;
    }
    r := GenerateKeyImageHelperPrecomp(e, account, outKey, info.value.derivation, i, info.value.index);
  }
}
