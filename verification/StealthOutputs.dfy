// From building an output to spending it: the owner recognises every output built for an address, derives its secret
// key, and signs with it.

module StealthOutputs {
  import opened Wrappers
  import opened ByteStrings
  import opened Curves
  import opened Groups
  import opened Keys
  import opened OutputBuilding
  import opened OutputReceiving
  import opened RingSignatures
  import opened Scalars

  /**
    The published keys suit destination i: a standard one is not taken for the lone subaddress, and a subaddress is the
    lone one or has a key of its own.
    */
  predicate Served(ds: seq<Destination>, change: Option<Address>, i: nat)
    requires i < |ds|
  {
    if ds[i].isSubaddress then Lone(ds, change) || NeedsAdditional(ds, change) else !Lone(ds, change)
  }

  /** It is so whenever an address carries the same flag wherever it occurs. */
  lemma AgreeingFlagsServe(ds: seq<Destination>, change: Option<Address>, i: nat)
    requires i < |ds| && !IsChange(ds[i], change)
    requires forall j :: 0 <= j < |ds| && ds[j].addr == ds[i].addr ==> ds[j].isSubaddress == ds[i].isSubaddress
    ensures Served(ds, change, i)
  {
    var f := FirstOf(ds, change, i);
    assert f in Firsts(ds, change, |ds|, ds[i].isSubaddress);
  }

  /** Destination i is the account's address at an index, flagged as what it is, and suits the published keys. */
  predicate SentTo<P>(e: Curve<P>, ds: seq<Destination>, change: Option<Address>, i: nat, account: Account,
      index: Index)
    requires i < |ds|
  {
    && GetSubaddress(e, account, index) == Some(ds[i].addr)
    && (ds[i].isSubaddress <==> !index.IsZero())
    && Served(ds, change, i)
  }

  /** d is derived from the transaction key, or from the additional key at i, with the view secret a. */
  predicate Reaches<P>(e: Curve<P>, b: Built, a: Scalar, i: nat, d: Bytes32) {
    || KeyDerivation(e, b.txPub, a) == Some(d)
    || (i < |b.additional| && KeyDerivation(e, b.additional[i], a) == Some(d))
  }

  lemma StandardMeets<P(!new)>(e: Curve<P>, senderView: Scalar, ds: seq<Destination>, change: Option<Address>,
      txKey: Scalar,
      additionalKeys: seq<Scalar>, useTags: bool, b: Built, i: nat, account: Account, secret: Scalar, index: Index)
      returns (d: Bytes32)
    requires Lawful(e) && Made(e, senderView, ds, change, txKey, additionalKeys, useTags, b) && i < |ds|
    requires Holds(e, account, secret) && SentTo(e, ds, change, i, account, index) && !IsChange(ds[i], change)
      && index.IsZero()
    ensures OutputDerivation(e, senderView, b.txPub, txKey, ds[i], change, OwnKey(ds, change, additionalKeys, i)) ==
      Some(d)
    ensures Reaches(e, b, account.viewSecret, i, d)
  {
    hide Times, KeyDerivation, Encoded, OutputMade, Lone, IsAbelian, Lawful;
    Shared(e, account.viewSecret, txKey, e.base);
    d := KeyDerivation(e, ds[i].addr.viewKey, txKey).value;
  }

  lemma SubaddressMeets<P(!new)>(e: Curve<P>, senderView: Scalar, ds: seq<Destination>, change: Option<Address>,
      txKey: Scalar,
      additionalKeys: seq<Scalar>, useTags: bool, b: Built, i: nat, account: Account, secret: Scalar, index: Index)
      returns (d: Bytes32)
    requires Lawful(e) && Made(e, senderView, ds, change, txKey, additionalKeys, useTags, b) && i < |ds|
    requires Holds(e, account, secret) && SentTo(e, ds, change, i, account, index) && !IsChange(ds[i], change)
      && !index.IsZero()
    ensures OutputDerivation(e, senderView, b.txPub, txKey, ds[i], change, OwnKey(ds, change, additionalKeys, i)) ==
      Some(d)
    ensures Reaches(e, b, account.viewSecret, i, d)
  {
    hide Times, KeyDerivation, OutputMade, Lone, NeedsAdditional, IsAbelian, GetSubaddress, SubaddressSpendSecret;
    NotBoth(ds, change);
    SubaddressParts(e, account, secret, index);
    var x := Times(e.group, SubaddressSpendSecret(e, account, secret, index), e.base);
    var s := if NeedsAdditional(ds, change) then additionalKeys[i] else txKey;
    Shared(e, account.viewSecret, s, x);
    assert ScalarmultKey(e, ds[i].addr.spendKey, s) == Some(Encoded(e, s, x));
    d := KeyDerivation(e, ds[i].addr.viewKey, s).value;
  }

  lemma ChangeMeets<P(!new)>(e: Curve<P>, senderView: Scalar, ds: seq<Destination>, change: Option<Address>,
      txKey: Scalar, additionalKeys: seq<Scalar>, useTags: bool, b: Built, i: nat)
      returns (d: Bytes32)
    requires Lawful(e) && Made(e, senderView, ds, change, txKey, additionalKeys, useTags, b) && i < |ds|
    requires IsChange(ds[i], change)
    ensures OutputDerivation(e, senderView, b.txPub, txKey, ds[i], change, OwnKey(ds, change, additionalKeys, i)) ==
      Some(d)
    ensures Reaches(e, b, senderView, i, d)
  {
    hide Times, KeyDerivation, OutputMade, Lone, IsAbelian, Lawful;
    TxKeyDecodes(e, ds, change, txKey, b.txPub);
    DecodedDerivation(e, b.txPub, senderView);
    d := KeyDerivation(e, b.txPub, senderView).value;
  }

  lemma EncodedSame<P(!new)>(e: Curve<P>, x: P, y: P)
    requires Lawful(e)
    ensures e.encode(x) == e.encode(y) <==> x == y
  {
    assert e.decode(e.encode(x)) == Some(x) && e.decode(e.encode(y)) == Some(y);
  }

  /** A transaction key published for the point y while the output is derived over x. */
  lemma CrossedKeys<P(!new)>(e: Curve<P>, a: Scalar, r: Scalar, x: P, y: P)
    requires Lawful(e)
    ensures KeyDerivation(e, Encoded(e, a, x), r) == KeyDerivation(e, Encoded(e, r, y), a) <==>
      Times(e.group, 8 * (a * r), x) == Times(e.group, 8 * (a * r), y)
  {
    hide Times, Lawful, KeyDerivation;
    Shared(e, a, r, x);
    Shared(e, a, r, y);
    EncodedSame(e, Times(e.group, 8 * (a * r), x), Times(e.group, 8 * (a * r), y));
  }

  /** The point behind the spend key of the account's address at an index. */
  ghost function SpendPoint<P>(e: Curve<P>, account: Account, secret: Scalar, index: Index): P {
    Times(e.group, SubaddressSpendSecret(e, account, secret, index), e.base)
  }

  /**
    Exactly when the owner derives what the sender derived: the published keys suit the destination, or its spend point
    and the base point have the same multiple, which would make the two derivations one.
    */
  lemma MeetsExactly<P(!new)>(e: Curve<P>, senderView: Scalar, ds: seq<Destination>, change: Option<Address>,
      txKey: Scalar, additionalKeys: seq<Scalar>, useTags: bool, b: Built, i: nat, account: Account, secret: Scalar,
      index: Index)
      returns (d: Bytes32)
    requires Lawful(e) && Made(e, senderView, ds, change, txKey, additionalKeys, useTags, b) && i < |ds|
    requires Holds(e, account, secret) && GetSubaddress(e, account, index) == Some(ds[i].addr)
    requires !IsChange(ds[i], change) && (ds[i].isSubaddress <==> !index.IsZero())
    ensures OutputDerivation(e, senderView, b.txPub, txKey, ds[i], change, OwnKey(ds, change, additionalKeys, i)) ==
      Some(d)
    ensures Reaches(e, b, account.viewSecret, i, d) <==>
      Served(ds, change, i)
      || Times(e.group, 8 * (account.viewSecret * txKey), SpendPoint(e, account, secret, index))
         == Times(e.group, 8 * (account.viewSecret * txKey), e.base)
  {
    hide Times, KeyDerivation, OutputMade, Lone, NeedsAdditional, IsAbelian, Lawful, SubaddressSpendSecret, Holds;
    if Served(ds, change, i) {
      if index.IsZero() {
        d := StandardMeets(e, senderView, ds, change, txKey, additionalKeys, useTags, b, i, account, secret, index);
      } else {
        d := SubaddressMeets(e, senderView, ds, change, txKey, additionalKeys, useTags, b, i, account, secret, index);
      }
    } else {
      NotBoth(ds, change);
      AddressKeys(e, account, secret, index, ds[i].addr);
      var x := SpendPoint(e, account, secret, index);
      var a := account.viewSecret;
      Shared(e, a, txKey, x);
      Shared(e, a, txKey, e.base);
      CrossedKeys(e, a, txKey, x, e.base);
      CrossedKeys(e, a, txKey, e.base, x);
      d := KeyDerivation(e, ds[i].addr.viewKey, txKey).value;
      if !ds[i].isSubaddress {
        assert ScalarmultKey(e, ds[i].addr.spendKey, txKey) == Some(b.txPub);
      }
    }
  }

  /** The two keys of an address of the account. */
  lemma AddressKeys<P(!new)>(e: Curve<P>, account: Account, secret: Scalar, index: Index, addr: Address)
    requires Lawful(e) && Holds(e, account, secret) && GetSubaddress(e, account, index) == Some(addr)
    ensures var x := SpendPoint(e, account, secret, index);
      && addr.viewKey == Encoded(e, account.viewSecret, if index.IsZero() then e.base else x)
      && addr.spendKey == e.encode(x)
      && forall r: Scalar :: ScalarmultKey(e, addr.spendKey, r) == Some(Encoded(e, r, x))
  {
    hide Times, GetSubaddress, SubaddressSpendSecret;
    SubaddressParts(e, account, secret, index);
  }

  /** The additional keys of a transaction are points, so each output's derivation is found at its index. */
  lemma AdditionalAligned<P(!new)>(e: Curve<P>, senderView: Scalar, ds: seq<Destination>, change: Option<Address>,
      txKey: Scalar, additionalKeys: seq<Scalar>, useTags: bool, b: Built, a: Scalar)
    requires Lawful(e) && Made(e, senderView, ds, change, txKey, additionalKeys, useTags, b)
    ensures |Received(e, b.additional, a)| == |b.additional|
    ensures forall k :: 0 <= k < |b.additional| ==>
      KeyDerivation(e, b.additional[k], a) == Some(Received(e, b.additional, a)[k])
  {
    hide Times, KeyDerivation, OutputMade, TxKeyMade, NeedsAdditional, IsAbelian, Received;
    forall k | 0 <= k < |b.additional| ensures KeyDerivation(e, b.additional[k], a).Some? {
      assert AdditionalPub(e, ds[k], additionalKeys[k]) == Some(b.additional[k]);
      DecodedDerivation(e, b.additional[k], a);
    }
    ReceivedAt(e, b.additional, a);
  }

  /** The owner's view of output i: recognised, with a derived public key equal to the output's. */
  ghost predicate Spendable<P>(e: Curve<P>, account: Account, subaddresses: map<Bytes32, Index>, b: Built, i: nat,
      tag: Option<byte>)
    requires i < |b.outs|
  {
    b.outs[i].key.Some? &&
    var info := IsOutToAccPrecomp(e, subaddresses, b.outs[i].key.value,
      SharedDerivation(e, b.txPub, account.viewSecret), Received(e, b.additional, account.viewSecret), i, tag);
    && info.Some?
    && DerivedPublic(e, account, info.value.derivation, i, info.value.index) == b.outs[i].key
    && (|account.multisig| == 0 ==>
          Encoded(e, DerivedSecret(e, account, info.value.derivation, i, info.value.index), e.base) ==
            b.outs[i].key.value)
  }

  /** An output derived from one of the account's two derivations, on a spend key of the account's table. */
  lemma ReachedIsSpendable<P(!new)>(e: Curve<P>, account: Account, secret: Scalar, subaddresses: map<Bytes32, Index>,
      b: Built, i: nat, d: Bytes32, dest: Destination, useTags: bool, tag: Option<byte>)
    requires Lawful(e) && Holds(e, account, secret) && HonestTable(e, account, subaddresses)
    requires |account.multisig| == 0 ==> account.spendSecret == secret
    requires i < |b.outs| && b.outs[i] == KeyAndTag(e, Some(d), i, dest, useTags)
    requires dest.addr.spendKey in subaddresses && (tag == None || tag == b.outs[i].tag)
    requires Reaches(e, b, account.viewSecret, i, d)
    requires |Received(e, b.additional, account.viewSecret)| == |b.additional|
    requires i < |b.additional| ==>
      KeyDerivation(e, b.additional[i], account.viewSecret) == Some(Received(e, b.additional, account.viewSecret)[i])
    ensures Spendable(e, account, subaddresses, b, i, tag)
  {
    hide Times, KeyDerivation, DerivePublicKey, DeriveSubaddressPublicKey, DeriveViewTag, SubaddressSpendKey, Holds,
      IsAbelian, DerivedPublic, DerivedSecret, Received, SubaddressSpendSecret;
    var spend := dest.addr.spendKey;
    SubaddressKeys(e, account, secret, subaddresses[spend]);
    var x := Times(e.group, SubaddressSpendSecret(e, account, secret, subaddresses[spend]), e.base);
    DerivationInverse(e, d, i, x);
    var key := b.outs[i].key.value;
    var point := KeyPoint(e, d, i, spend);
    var shared := SharedDerivation(e, b.txPub, account.viewSecret);
    var info := IsOutToAccPrecomp(e, subaddresses, key, shared, Received(e, b.additional, account.viewSecret), i, tag);
    Recognised(e, subaddresses, key, shared, Received(e, b.additional, account.viewSecret), i, tag);
    DerivedKeyMatches(e, account, secret, key, point, info.value.derivation, i, info.value.index);
  }

  /** An output key is the encoding of a point. */
  lemma KeyPoint<P(!new)>(e: Curve<P>, d: Bytes32, i: nat, base: Bytes32) returns (point: P)
    requires Lawful(e) && DerivePublicKey(e, d, i, base).Some?
    ensures var key := DerivePublicKey(e, d, i, base).value; e.decode(key) == Some(point) && key == e.encode(point)
  {
    hide Times;
    point := e.decode(DerivePublicKey(e, d, i, base).value).value;
  }

  /**
    Every output built for an address of the account, main or subaddress, alone or among others, and every change output
    of its own, is recognised by its owner with or without view tags, and the key derived for it is the output's key.
    */
  lemma OwnerRecognises<P(!new)>(e: Curve<P>, senderView: Scalar, ds: seq<Destination>, change: Option<Address>,
      txKey: Scalar, additionalKeys: seq<Scalar>, useTags: bool, b: Built, i: nat, account: Account, secret: Scalar,
      subaddresses: map<Bytes32, Index>, tag: Option<byte>)
    requires Lawful(e) && Made(e, senderView, ds, change, txKey, additionalKeys, useTags, b) && i < |ds|
    requires Holds(e, account, secret) && HonestTable(e, account, subaddresses)
    requires |account.multisig| == 0 ==> account.spendSecret == secret
    requires ds[i].addr.spendKey in subaddresses
    requires if IsChange(ds[i], change) then account.viewSecret == senderView
      else SentTo(e, ds, change, i, account, subaddresses[ds[i].addr.spendKey])
    requires tag == None || tag == b.outs[i].tag
    ensures Spendable(e, account, subaddresses, b, i, tag)
  {
    hide Times, KeyDerivation, DerivePublicKey, Lone, NeedsAdditional, IsAbelian, Received, Holds, SentTo, Spendable,
      TxKeyMade, OutputDerivation, Lawful, KeyAndTag;
    var index := subaddresses[ds[i].addr.spendKey];
    var d;
    if IsChange(ds[i], change) {
      d := ChangeMeets(e, senderView, ds, change, txKey, additionalKeys, useTags, b, i);
    } else if index.IsZero() {
      d := StandardMeets(e, senderView, ds, change, txKey, additionalKeys, useTags, b, i, account, secret, index);
    } else {
      d := SubaddressMeets(e, senderView, ds, change, txKey, additionalKeys, useTags, b, i, account, secret, index);
    }
    assert OutputMade(e, senderView, ds, change, txKey, additionalKeys, useTags, b, i);
    AdditionalAligned(e, senderView, ds, change, txKey, additionalKeys, useTags, b, account.viewSecret);
    ReachedIsSpendable(e, account, secret, subaddresses, b, i, d, ds[i], useTags, tag);
  }

  /** What the helper derives for a key of its own is what the ring signature asks of its signer. */
  lemma DerivedOwns<P(!new)>(e: Curve<P>, outKey: Bytes32, sec: Scalar)
    requires Lawful(e) && Encoded(e, sec, e.base) == outKey
    ensures Owns(e, LeBytes(sec, 32), outKey, KeyImage(e, outKey, sec)) && Le(LeBytes(sec, 32)) == sec
  {
    Pow256Value();
    LeBytesValue(sec, 32);
  }

  /**
    Spends output i of a transaction built for the account, as one member of a ring: the key image helper never refuses,
    and the signature made with what it derives passes the check.
    */
  method SpendOutput<P(!new)>(e: Curve<P>, senderView: Scalar, ds: seq<Destination>, change: Option<Address>,
      txKey: Scalar,
      additionalKeys: seq<Scalar>, useTags: bool, b: Built, i: nat, account: Account, subaddresses: map<Bytes32, Index>,
      prefix: Bytes32, ring: seq<Bytes32>, signer: nat, k: Bytes32, draws: seq<Signature>)
    returns (image: Bytes32, sigs: seq<Signature>)
    requires Lawful(e) && Made(e, senderView, ds, change, txKey, additionalKeys, useTags, b) && i < |ds|
    requires |account.multisig| == 0 && account.spendSecret != 0
    requires Holds(e, account, account.spendSecret) && HonestTable(e, account, subaddresses)
    requires ds[i].addr.spendKey in subaddresses
    requires if IsChange(ds[i], change) then account.viewSecret == senderView
      else SentTo(e, ds, change, i, account, subaddresses[ds[i].addr.spendKey])
    requires signer < |ring| == |draws| && Some(ring[signer]) == b.outs[i].key
    requires forall j :: 0 <= j < |ring| ==> e.decode(ring[j]).Some?
    requires Le(k) < L && forall j :: 0 <= j < |draws| ==> CanonicalSignature(draws[j])
    ensures Accepted(e, prefix, image, ring, sigs)
  {
    OwnerRecognises(e, senderView, ds, change, txKey, additionalKeys, useTags, b, i, account, account.spendSecret,
      subaddresses, None);
    hide Times, Made, Accepted, Encoded, IsOutToAccPrecomp, Received, Holds, HonestTable, SentTo, Lawful, KeyImage,
      Owns, Le, LeBytes;
    var r := GenerateKeyImageHelper(e, account, subaddresses, b.outs[i].key.value, b.txPub, b.additional, i);
    var eph := r.value;
    DerivedOwns(e, eph.pub, eph.sec);
    image := eph.image;
    var sig := new Signature[|ring|](j requires 0 <= j < |draws| => draws[j]);
    var ok := GenerateRingSignature(e, prefix, image, ring, LeBytes(eph.sec, 32), signer, k, draws, sig);
    ImageDecodes(e, LeBytes(eph.sec, 32), ring[signer], image);
    sigs := sig[..];
  }

  lemma ImageDecodes<P(!new)>(e: Curve<P>, sec: Bytes32, key: Bytes32, image: Bytes32)
    requires Lawful(e) && Owns(e, sec, key, image)
    ensures e.decode(image).Some?
  {
    hide Times;
  }
}
