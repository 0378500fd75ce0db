// Which strings the key code hashes: the scalars, tags and subaddress secrets taken of them, and the keys of outputs.

module HashInputs {
  import opened Wrappers
  import opened ByteStrings
  import opened Curves
  import opened Groups
  import opened Keys
  import opened OutputBuilding
  import opened OutputReceiving
  import opened Scalars
  import Varints

  // ---- Derivation scalars ----

  /** The derivation and the varint of the index can be read back from what they are hashed as. */
  lemma PairReadBack(d: Bytes32, i: nat, d': Bytes32, i': nat)
    requires d + Varints.Encode(i) == d' + Varints.Encode(i')
    ensures d == d' && i == i'
  {
    hide Varints.Encode;
    var s, s' := d + Varints.Encode(i), d' + Varints.Encode(i');
    assert s[..32] == d && s'[..32] == d';
    assert s[32..] == Varints.Encode(i) && s'[32..] == Varints.Encode(i');
    Varints.EncodeInjective(i, i');
  }

  /** Where the hash takes a value on one string only, one derivation at one index has it as its scalar. */
  lemma OnePair<P>(e: Curve<P>, t: seq<byte>, d: Bytes32, i: nat, d': Bytes32, i': nat)
    requires OnlyOn(e, t, DerivationToScalar(e, d, i))
    ensures t == d + Varints.Encode(i)
    ensures DerivationToScalar(e, d', i') == DerivationToScalar(e, d, i) ==> d' == d && i' == i
  {
    hide Le, Varints.Encode;
    assert t == d + Varints.Encode(i);
    if DerivationToScalar(e, d', i') == DerivationToScalar(e, d, i) {
      assert t == d' + Varints.Encode(i');
      PairReadBack(d, i, d', i');
    }
  }

  /** Two derivations, or one at two indices, have different scalars, or their strings collide. */
  lemma ScalarsCollide<P>(e: Curve<P>, d: Bytes32, i: nat, d': Bytes32, i': nat)
    requires d != d' || i != i'
    ensures DerivationToScalar(e, d, i) == DerivationToScalar(e, d', i') <==>
      Collide(e, d + Varints.Encode(i), d' + Varints.Encode(i'))
  {
    hide Le, Varints.Encode;
    if d + Varints.Encode(i) == d' + Varints.Encode(i') {
      PairReadBack(d, i, d', i');
    }
  }

  // ---- Subaddress secrets ----

  /** "SubAddr" with its terminator, the view secret and both indices in little-endian order. */
  predicate IsSubaddressInput(s: seq<byte>, a: Scalar, index: Index) {
    && |s| == 48 && s[..8] == [83, 117, 98, 65, 100, 100, 114, 0] && Le(s[8..40]) == a
    && Le(s[40..44]) == index.major && Le(s[44..48]) == index.minor
  }

  predicate Fits32(index: Index) { index.major < 0x1_0000_0000 && index.minor < 0x1_0000_0000 }

  /** The secret is the hash of that string. */
  lemma SubaddressInput<P>(e: Curve<P>, a: Scalar, index: Index) returns (s: seq<byte>)
    requires Fits32(index)
    ensures IsSubaddressInput(s, a, index) && SubaddressSecret(e, a, index) == Le(e.fastHash(s)) % L
  {
    hide LeBytes, Le;
    s := [83, 117, 98, 65, 100, 100, 114, 0] + LeBytes(a, 32) + LeBytes(index.major, 4) + LeBytes(index.minor, 4);
    assert s[8..40] == LeBytes(a, 32) && s[40..44] == LeBytes(index.major, 4) && s[44..48] == LeBytes(index.minor, 4);
    Pow256Value();
    assert Pow256(4) == 0x1_0000_0000;
    LeBytesValue(a, 32);
    LeBytesValue(index.major, 4);
    LeBytesValue(index.minor, 4);
  }

  /** Two accounts, or one at two indices, have different subaddress secrets, or two strings that collide. */
  lemma SubaddressesCollide<P>(e: Curve<P>, a: Scalar, index: Index, a': Scalar, index': Index)
      returns (s: seq<byte>, s': seq<byte>)
    requires Fits32(index) && Fits32(index') && (a != a' || index != index')
    ensures IsSubaddressInput(s, a, index) && IsSubaddressInput(s', a', index')
    ensures SubaddressSecret(e, a, index) == SubaddressSecret(e, a', index') <==> Collide(e, s, s')
  {
    hide Le, SubaddressSecret;
    s := SubaddressInput(e, a, index);
    s' := SubaddressInput(e, a', index');
  }

  // ---- View tags ----

  /** For one derivation and index exactly one tag passes, and a missing one always does. */
  lemma OneTagPasses<P>(e: Curve<P>, d: Bytes32, i: nat, tag: byte)
    ensures OutCanBeToAcc(e, None, d, i)
    ensures OutCanBeToAcc(e, Some(tag), d, i) <==>
      tag == e.fastHash([118, 105, 101, 119, 95, 116, 97, 103] + d + Varints.Encode(i))[0]
  {
  }

  /** It is the tag the sender's output carries when tags are in use. */
  lemma SentTagPasses<P>(e: Curve<P>, senderView: Scalar, ds: seq<Destination>, change: Option<Address>,
      txKey: Scalar, additionalKeys: seq<Scalar>, useTags: bool, b: Built, i: nat, d: Bytes32, tag: byte)
    requires Made(e, senderView, ds, change, txKey, additionalKeys, useTags, b) && i < |ds|
    requires OutputDerivation(e, senderView, b.txPub, txKey, ds[i], change, OwnKey(ds, change, additionalKeys, i))
      == Some(d)
    ensures b.outs[i].tag.Some? <==> useTags
    ensures useTags ==> (OutCanBeToAcc(e, Some(tag), d, i) <==> b.outs[i].tag == Some(tag))
  {
    hide OutputDerivation, DerivePublicKey, NeedsAdditional, TxKeyMade;
    assert OutputMade(e, senderView, ds, change, txKey, additionalKeys, useTags, b, i);
  }

  /** An output altered in its tag alone is not recognised under the derivation it was built with. */
  lemma AlteredTagRefused<P>(e: Curve<P>, senderView: Scalar, ds: seq<Destination>, change: Option<Address>,
      txKey: Scalar, additionalKeys: seq<Scalar>, useTags: bool, b: Built, i: nat, d: Bytes32, tag: byte,
      subaddresses: map<Bytes32, Index>, additional: seq<Bytes32>)
    requires Made(e, senderView, ds, change, txKey, additionalKeys, useTags, b) && i < |ds| && useTags
    requires OutputDerivation(e, senderView, b.txPub, txKey, ds[i], change, OwnKey(ds, change, additionalKeys, i))
      == Some(d)
    requires b.outs[i].key.Some? && b.outs[i].tag != Some(tag)
    ensures !Ours(e, subaddresses, b.outs[i].key.value, d, i, Some(tag))
    ensures IsOutToAccPrecomp(e, subaddresses, b.outs[i].key.value, d, additional, i, Some(tag)).Some? ==>
      i < |additional| && additional[i] != d
  {
    hide OutputDerivation, Made, OutCanBeToAcc, DeriveSubaddressPublicKey;
    assert |b.outs| == |ds| by { MadeSize(e, senderView, ds, change, txKey, additionalKeys, useTags, b); }
    SentTagPasses(e, senderView, ds, change, txKey, additionalKeys, useTags, b, i, d, tag);
    Recognised(e, subaddresses, b.outs[i].key.value, d, additional, i, Some(tag));
  }

  // ---- One-off keys ----

  /** S + hB for the spend point S and the scalar h of the derivation at the output's index, and the tag of both. */
  predicate IsOneOff<P>(e: Curve<P>, out: Output, spend: P, d: Bytes32, i: nat, useTags: bool) {
    && out.key == Some(e.encode(e.group.add(spend,
         Times(e.group, Le(e.fastHash(d + Varints.Encode(i))) % L, e.base))))
    && out.tag == (if useTags then
         Some(e.fastHash([118, 105, 101, 119, 95, 116, 97, 103] + d + Varints.Encode(i))[0]) else None)
  }

  /** The secret an output is derived with: its own if it is a subaddress's and gets one, else the transaction's. */
  ghost function OutputSecretKey(ds: seq<Destination>, change: Option<Address>, txKey: Scalar,
      additionalKeys: seq<Scalar>, i: nat): Scalar
    requires i < |ds|
  {
    if ds[i].isSubaddress && NeedsAdditional(ds, change) && i < |additionalKeys| then additionalKeys[i] else txKey
  }

  /**
    Every output of a constructed transaction: to the keys A and S of an address, the one-off key of S and 8sA; to
    change, that of S and 8aR for the sender's view secret a and the transaction key R.
    */
  lemma OutputFormula<P(!new)>(e: Curve<P>, senderView: Scalar, ds: seq<Destination>, change: Option<Address>,
      txKey: Scalar, additionalKeys: seq<Scalar>, useTags: bool, b: Built, i: nat, spend: P, point: P)
    requires Lawful(e) && Made(e, senderView, ds, change, txKey, additionalKeys, useTags, b) && i < |ds|
    requires e.decode(ds[i].addr.spendKey) == Some(spend)
    requires e.decode(if change == Some(ds[i].addr) then b.txPub else ds[i].addr.viewKey) == Some(point)
    ensures b.outs[i].amount == ds[i].amount
    ensures
      var s := if change == Some(ds[i].addr) then senderView
        else OutputSecretKey(ds, change, txKey, additionalKeys, i);
      IsOneOff(e, b.outs[i], spend, e.encode(Times(e.group, 8 * s, point)), i, useTags)
  {
    hide Times, NeedsAdditional, TxKeyMade, IsAbelian, Le, Varints.Encode;
    assert OutputMade(e, senderView, ds, change, txKey, additionalKeys, useTags, b, i);
    var s := if change == Some(ds[i].addr) then senderView else OutputSecretKey(ds, change, txKey, additionalKeys, i);
    Mul8Times(e.group, s, point);
  }

  /** Over a base point of order l, one-off keys for two derivations or indices are equal only on a collision. */
  lemma OneOffKeysCollide<P(!new)>(e: Curve<P>, base: Bytes32, d: Bytes32, i: nat, d': Bytes32, i': nat)
    requires Lawful(e) && Generates(e) && e.decode(base).Some? && (d != d' || i != i')
    ensures DerivePublicKey(e, d, i, base) == DerivePublicKey(e, d', i', base) <==>
      Collide(e, d + Varints.Encode(i), d' + Varints.Encode(i'))
  {
    hide Times, Collide, DerivationToScalar, Varints.Encode, IsAbelian, Generates;
    ScalarsCollide(e, d, i, d', i');
    var g, spend := e.group, e.decode(base).value;
    var h, h' := DerivationToScalar(e, d, i), DerivationToScalar(e, d', i');
    var x, x' := Times(g, h, e.base), Times(g, h', e.base);
    assert e.decode(e.encode(g.add(spend, x))) == Some(g.add(spend, x));
    assert e.decode(e.encode(g.add(spend, x'))) == Some(g.add(spend, x'));
    if g.add(spend, x) == g.add(spend, x') {
      Laws(g, spend, x, x);
      Laws(g, spend, x', x');
      Cancel(g, x, x', spend);
      MultiplesDiffer(e, h, h');
    }
  }

  lemma MultiplesDiffer<P(!new)>(e: Curve<P>, h: Scalar, h': Scalar)
    requires Lawful(e) && Generates(e) && Times(e.group, h, e.base) == Times(e.group, h', e.base)
    ensures h == h'
  {
    hide Times;
    var g := e.group;
    TimesSum(g, h - h', h', e.base);
    var y := Times(g, h', e.base);
    Laws(g, y, y, y);
    Cancel(g, Times(g, h - h', e.base), g.zero, y);
    assert (h - h') % L == 0;
  }

  /** Two outputs of a transaction to one spend key have different one-off keys, or their strings collide. */
  lemma KeysOfOneAddressDiffer<P(!new)>(e: Curve<P>, senderView: Scalar, ds: seq<Destination>,
      change: Option<Address>, txKey: Scalar, additionalKeys: seq<Scalar>, useTags: bool, b: Built, i: nat, j: nat)
      returns (s: seq<byte>, t: seq<byte>)
    requires Lawful(e) && Generates(e) && Made(e, senderView, ds, change, txKey, additionalKeys, useTags, b)
    requires i < j < |ds| && ds[i].addr.spendKey == ds[j].addr.spendKey
    requires b.outs[i].key.Some? && b.outs[j].key.Some?
    ensures |s| >= 32 && s[32..] == Varints.Encode(i) && |t| >= 32 && t[32..] == Varints.Encode(j)
    ensures b.outs[i].key == b.outs[j].key <==> Collide(e, s, t)
  {
    hide Times, Collide, OutputDerivation, NeedsAdditional, TxKeyMade, IsAbelian, Varints.Encode, Generates,
      DerivationToScalar;
    assert OutputMade(e, senderView, ds, change, txKey, additionalKeys, useTags, b, i);
    assert OutputMade(e, senderView, ds, change, txKey, additionalKeys, useTags, b, j);
    var d := OutputDerivation(e, senderView, b.txPub, txKey, ds[i], change, OwnKey(ds, change, additionalKeys, i));
    var d' := OutputDerivation(e, senderView, b.txPub, txKey, ds[j], change, OwnKey(ds, change, additionalKeys, j));
    OneOffKeysCollide(e, ds[i].addr.spendKey, d.value, i, d'.value, j);
    s, t := d.value + Varints.Encode(i), d'.value + Varints.Encode(j);
  }
}
