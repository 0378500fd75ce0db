// The output side of construct_tx_with_tx_key: which keys a transaction publishes and the one-off key of each output.

module OutputBuilding {
  import opened Wrappers
  import opened ByteStrings
  import opened Curves
  import opened Keys
  import opened Groups

  datatype Destination = Destination(amount: nat, addr: Address, isSubaddress: bool)

  predicate IsChange(d: Destination, change: Option<Address>) { change == Some(d.addr) }

  /** The i-th destination is not change and the first of its address. */
  predicate First(ds: seq<Destination>, change: Option<Address>, i: nat)
    requires i < |ds|
  {
    !IsChange(ds[i], change) && forall j :: 0 <= j < i ==> ds[j].addr != ds[i].addr
  }

  /** Where the distinct addresses other than change first occur, subaddresses or standard ones. */
  function Firsts(ds: seq<Destination>, change: Option<Address>, n: nat, sub: bool): set<nat>
    requires n <= |ds|
  {
    set i: nat | 0 <= i < n && First(ds, change, i) && ds[i].isSubaddress == sub
  }

  lemma NextFirst(ds: seq<Destination>, change: Option<Address>, n: nat, sub: bool)
    requires n < |ds|
    ensures Firsts(ds, change, n + 1, sub) ==
      Firsts(ds, change, n, sub) + if First(ds, change, n) && ds[n].isSubaddress == sub then {n} else {}
    ensures n !in Firsts(ds, change, n, sub)
  {
  }

  /** The only destination besides change is a subaddress. */
  predicate Lone(ds: seq<Destination>, change: Option<Address>) {
    |Firsts(ds, change, |ds|, false)| == 0 && |Firsts(ds, change, |ds|, true)| == 1
  }

  /** Subaddresses among several destinations: every output gets a key of its own. */
  predicate NeedsAdditional(ds: seq<Destination>, change: Option<Address>) {
    && |Firsts(ds, change, |ds|, true)| > 0
    && (|Firsts(ds, change, |ds|, false)| > 0 || |Firsts(ds, change, |ds|, true)| > 1)
  }

  /** Destination i is the last of the first n that counts as a new subaddress. */
  predicate LastSubaddress(ds: seq<Destination>, change: Option<Address>, n: nat, i: nat)
    requires i < n <= |ds|
  {
    && First(ds, change, i) && ds[i].isSubaddress
    && forall j :: i < j < n && First(ds, change, j) ==> !ds[j].isSubaddress
  }

  function Seen(ds: seq<Destination>, change: Option<Address>, n: nat): set<Address>
    requires n <= |ds|
  {
    set j | 0 <= j < n && !IsChange(ds[j], change) :: ds[j].addr
  }

  lemma NextSeen(ds: seq<Destination>, change: Option<Address>, n: nat)
    requires n < |ds|
    ensures Seen(ds, change, n + 1) ==
      if IsChange(ds[n], change) then Seen(ds, change, n) else Seen(ds, change, n) + {ds[n].addr}
    ensures First(ds, change, n) <==> !IsChange(ds[n], change) && ds[n].addr !in Seen(ds, change, n)
  {
  }

  lemma NextLast(ds: seq<Destination>, change: Option<Address>, n: nat, i: nat)
    requires n < |ds|
    ensures First(ds, change, n) && ds[n].isSubaddress ==> LastSubaddress(ds, change, n + 1, n)
    ensures i < n && LastSubaddress(ds, change, n, i) && !(First(ds, change, n) && ds[n].isSubaddress) ==>
      LastSubaddress(ds, change, n + 1, i)
  {
  }

  /** classify_addresses: distinct addresses other than change, counted by kind, and the last subaddress among them. */
  method ClassifyAddresses(ds: seq<Destination>, change: Option<Address>)
    returns (std: nat, sub: nat, single: Option<Address>)
    ensures std == |Firsts(ds, change, |ds|, false)| && sub == |Firsts(ds, change, |ds|, true)|
    ensures sub > 0 ==> exists i :: 0 <= i < |ds| && LastSubaddress(ds, change, |ds|, i) && single == Some(ds[i].addr)
  {
    hide Firsts, LastSubaddress, First, Seen;
    std, sub, single := 0, 0, None;
    NoneSeen(ds, change);
    var unique: set<Address> := {};
    ghost var last := 0;
    for i := 0 to |ds|
      invariant unique == Seen(ds, change, i)
      invariant std == |Firsts(ds, change, i, false)| && sub == |Firsts(ds, change, i, true)|
      invariant sub > 0 ==> last < i && LastSubaddress(ds, change, i, last) && single == Some(ds[last].addr)
    {
      NextSeen(ds, change, i);
      NextFirst(ds, change, i, false);
      NextFirst(ds, change, i, true);
      NextLast(ds, change, i, last);
      if !IsChange(ds[i], change) && ds[i].addr !in unique {
        unique := unique + {ds[i].addr};
        if ds[i].isSubaddress {
          sub := sub + 1;
          single := Some(ds[i].addr);
          last := i;
        } else {
          std := std + 1;
        }
      }
    }
  }

  lemma NoneSeen(ds: seq<Destination>, change: Option<Address>)
    ensures Seen(ds, change, 0) == {} && Firsts(ds, change, 0, false) == {} == Firsts(ds, change, 0, true)
  {
  }

  // ---- One output ----

  /** The public key published for an output of its own: sD for a subaddress, sB otherwise. */
  function AdditionalPub<P>(e: Curve<P>, d: Destination, s: Scalar): Option<Bytes32> {
    if d.isSubaddress then ScalarmultKey(e, d.addr.spendKey, s) else Some(Encoded(e, s, e.base))
  }

  /** Change is derived from the sender's own view secret, everything else from the output's transaction secret. */
  function OutputDerivation<P>(e: Curve<P>, senderView: Scalar, txPub: Bytes32, txKey: Scalar, d: Destination,
      change: Option<Address>, additionalKey: Option<Scalar>): Option<Bytes32>
  {
    if IsChange(d, change) then KeyDerivation(e, txPub, senderView)
    else KeyDerivation(e, d.addr.viewKey,
      if d.isSubaddress && additionalKey.Some? then additionalKey.value else txKey)
  }

  // An output: a key or tag the failed derivation left unwritten is None.
  datatype Output = Output(amount: nat, key: Option<Bytes32>, tag: Option<byte>)

  /** What generate_output_ephemeral_keys leaves for output i once its derivation is known. */
  function KeyAndTag<P>(e: Curve<P>, derivation: Option<Bytes32>, i: nat, d: Destination, useTags: bool): Output {
    match derivation
    case None => Output(d.amount, None, None)
    case Some(v) =>
      Output(d.amount, DerivePublicKey(e, v, i, d.addr.spendKey),
        if useTags then Some(DeriveViewTag(e, v, i)) else None)
  }

  /** The amount key pushed for output i: from version 2 on, and only once its derivation is known. */
  function AmountKey<P>(e: Curve<P>, version: nat, derivation: Option<Bytes32>, i: nat): seq<Scalar> {
    if version > 1 && derivation.Some? then [DerivationToScalar(e, derivation.value, i)] else []
  }

  /**
    generate_output_ephemeral_keys. `thrown` stands for the exception on a spend key that is no point; a derivation that
    fails returns before the additional key and the amount key are pushed.
    */
  method GenerateOutputEphemeralKeys<P>(e: Curve<P>, version: nat, senderView: Scalar, txPub: Bytes32, txKey: Scalar,
      d: Destination, change: Option<Address>, i: nat, needAdditional: bool, additionalKeys: seq<Scalar>,
      pubs: seq<Bytes32>, amountKeys: seq<Scalar>, useTags: bool)
    returns (thrown: bool, pubs': seq<Bytes32>, amountKeys': seq<Scalar>, out: Output)
    requires needAdditional ==> i < |additionalKeys|
    ensures thrown <==> needAdditional && AdditionalPub(e, d, additionalKeys[i]).None?
    ensures var s := if needAdditional then Some(additionalKeys[i]) else None;
      var v := OutputDerivation(e, senderView, txPub, txKey, d, change, s);
      !thrown ==>
        && out == KeyAndTag(e, v, i, d, useTags)
        && pubs' == (if needAdditional && v.Some? then pubs + [AdditionalPub(e, d, additionalKeys[i]).value] else pubs)
        && amountKeys' == amountKeys + AmountKey(e, version, v, i)
  {
    hide KeyDerivation, ScalarmultKey, DerivePublicKey, DeriveViewTag, Encoded, DerivationToScalar;
    thrown, pubs', amountKeys', out := false, pubs, amountKeys, Output(d.amount, None, None);
    var secret, pub := 0, Encoded(e, 0, e.base);
    if needAdditional {
      secret := additionalKeys[i];
      if d.isSubaddress {
        var key := ScalarmultKey(e, d.addr.spendKey, secret);
        if key.None? {
          thrown := true;
          return;
        }
        pub := key.value;
      } else {
        pub := Encoded(e, secret, e.base);
      }
    }
    var derivation;
    if change.Some? && d.addr == change.value {
      derivation := KeyDerivation(e, txPub, senderView);
    } else {
      derivation := KeyDerivation(e, d.addr.viewKey, if d.isSubaddress && needAdditional then secret else txKey);
    }
    if derivation.None? {
      return;
    }
    if needAdditional {
      pubs' := pubs + [pub];
    }
    if version > 1 {
      amountKeys' := amountKeys' + [DerivationToScalar(e, derivation.value, i)];
    }
    if useTags {
      out := out.(tag := Some(DeriveViewTag(e, derivation.value, i)));
    }
    out := out.(key := DerivePublicKey(e, derivation.value, i, d.addr.spendKey));
  }

  // ---- All outputs ----

  // What a transaction publishes about its outputs.
  datatype Built = Built(txPub: Bytes32, additional: seq<Bytes32>, outs: seq<Output>, amountKeys: seq<Scalar>)

  ghost function OwnKey(ds: seq<Destination>, change: Option<Address>, additionalKeys: seq<Scalar>,
      i: nat): Option<Scalar> {
    if NeedsAdditional(ds, change) && i < |additionalKeys| then Some(additionalKeys[i]) else None
  }

  /** Output i as its destination asks for. */
  ghost predicate OutputMade<P>(e: Curve<P>, senderView: Scalar, ds: seq<Destination>, change: Option<Address>,
      txKey: Scalar, additionalKeys: seq<Scalar>, useTags: bool, b: Built, i: nat)
    requires i < |ds| == |b.outs|
  {
    var v := OutputDerivation(e, senderView, b.txPub, txKey, ds[i], change, OwnKey(ds, change, additionalKeys, i));
    b.outs[i] == KeyAndTag(e, v, i, ds[i], useTags)
  }

  /** The transaction key: rD when the only destination is a subaddress, rB otherwise. */
  ghost predicate TxKeyMade<P>(e: Curve<P>, ds: seq<Destination>, change: Option<Address>, txKey: Scalar,
      txPub: Bytes32) {
    && (Lone(ds, change) ==>
          forall i :: 0 <= i < |ds| && !IsChange(ds[i], change) ==>
            ScalarmultKey(e, ds[i].addr.spendKey, txKey) == Some(txPub))
    && (!Lone(ds, change) ==> txPub == Encoded(e, txKey, e.base))
  }

  /** The amount keys of the first n outputs, in order. */
  ghost function AmountKeys<P>(e: Curve<P>, version: nat, senderView: Scalar, ds: seq<Destination>,
      change: Option<Address>, txPub: Bytes32, txKey: Scalar, additionalKeys: seq<Scalar>, n: nat): seq<Scalar>
    requires n <= |ds|
  {
    if n == 0 then []
    else
      var v := OutputDerivation(e, senderView, txPub, txKey, ds[n - 1], change,
        OwnKey(ds, change, additionalKeys, n - 1));
      AmountKeys(e, version, senderView, ds, change, txPub, txKey, additionalKeys, n - 1)
      + AmountKey(e, version, v, n - 1)
  }

  /** From version 2 on, when every derivation succeeds, each output has its amount key at its own index. */
  lemma {:induction false} AmountKeysAligned<P>(e: Curve<P>, version: nat, senderView: Scalar, ds: seq<Destination>,
      change: Option<Address>, txPub: Bytes32, txKey: Scalar, additionalKeys: seq<Scalar>, n: nat)
    requires n <= |ds| && version > 1
    requires forall i :: 0 <= i < n ==>
      OutputDerivation(e, senderView, txPub, txKey, ds[i], change, OwnKey(ds, change, additionalKeys, i)).Some?
    ensures var keys := AmountKeys(e, version, senderView, ds, change, txPub, txKey, additionalKeys, n);
      |keys| == n && forall i :: 0 <= i < n ==>
        keys[i] == DerivationToScalar(e,
          OutputDerivation(e, senderView, txPub, txKey, ds[i], change, OwnKey(ds, change, additionalKeys, i)).value, i)
    decreases n
  {
    hide OutputDerivation, DerivationToScalar;
    if n > 0 {
      AmountKeysAligned(e, version, senderView, ds, change, txPub, txKey, additionalKeys, n - 1);
    }
  }

  /** Below version 2 there are none. */
  lemma {:induction false} NoAmountKeys<P>(e: Curve<P>, version: nat, senderView: Scalar, ds: seq<Destination>,
      change: Option<Address>, txPub: Bytes32, txKey: Scalar, additionalKeys: seq<Scalar>, n: nat)
    requires n <= |ds| && version <= 1
    ensures AmountKeys(e, version, senderView, ds, change, txPub, txKey, additionalKeys, n) == []
    decreases n
  {
    hide OutputDerivation;
    if n > 0 {
      NoAmountKeys(e, version, senderView, ds, change, txPub, txKey, additionalKeys, n - 1);
    }
  }

  ghost predicate Made<P>(e: Curve<P>, senderView: Scalar, ds: seq<Destination>, change: Option<Address>,
      txKey: Scalar, additionalKeys: seq<Scalar>, useTags: bool, b: Built)
  {
    && |b.outs| == |ds| && TxKeyMade(e, ds, change, txKey, b.txPub)
    && |b.additional| == |additionalKeys| == (if NeedsAdditional(ds, change) then |ds| else 0)
    && (forall i :: 0 <= i < |ds| ==> OutputMade(e, senderView, ds, change, txKey, additionalKeys, useTags, b, i))
    && (forall i :: 0 <= i < |b.additional| ==> AdditionalPub(e, ds[i], additionalKeys[i]) == Some(b.additional[i]))
  }

  /** With a lone subaddress, every destination besides change has its address. */
  lemma LoneAddress(ds: seq<Destination>, change: Option<Address>, last: nat, j: nat)
    requires Lone(ds, change) && last < |ds| && LastSubaddress(ds, change, |ds|, last)
    requires j < |ds| && !IsChange(ds[j], change)
    ensures ds[j].addr == ds[last].addr
  {
    var f := FirstOf(ds, change, j);
    var subs := Firsts(ds, change, |ds|, true);
    assert f in Firsts(ds, change, |ds|, ds[f].isSubaddress);
    assert last in subs && f in subs;
    Singleton(subs, last, f);
  }

  lemma Singleton(s: set<nat>, x: nat, y: nat)
    requires |s| == 1 && x in s && y in s
    ensures x == y
  {
    assert |s - {x}| == 0;
  }

  lemma FirstOf(ds: seq<Destination>, change: Option<Address>, j: nat) returns (f: nat)
    requires j < |ds| && !IsChange(ds[j], change)
    ensures f <= j && First(ds, change, f) && ds[f].addr == ds[j].addr
  {
    if First(ds, change, j) {
      f := j;
    } else {
      var k :| 0 <= k < j && ds[k].addr == ds[j].addr;
      f := FirstOf(ds, change, k);
    }
  }

  /** The keys of destination d that the construction reads are points. */
  predicate KeysDecode<P>(e: Curve<P>, d: Destination, change: Option<Address>) {
    (d.isSubaddress ==> e.decode(d.addr.spendKey).Some?) && (!IsChange(d, change) ==> e.decode(d.addr.viewKey).Some?)
  }

  /** Exactly when construct_tx_with_tx_key gets past its outputs. */
  ghost predicate Constructible<P>(e: Curve<P>, version: nat, ds: seq<Destination>, change: Option<Address>,
      additionalKeys: seq<Scalar>)
  {
    && (Lone(ds, change) ==> forall i :: 0 <= i < |ds| && !IsChange(ds[i], change) ==>
      e.decode(ds[i].addr.spendKey).Some?)
    && |additionalKeys| == (if NeedsAdditional(ds, change) then |ds| else 0)
    && (forall i :: 0 <= i < |ds| ==> ds[i].amount > 0 || version > 1)
    && (NeedsAdditional(ds, change) ==> forall i :: 0 <= i < |ds| ==> KeysDecode(e, ds[i], change))
  }

  /** The transaction public key, or None for the exception on a spend key that is no point. */
  method TxPublicKey<P>(e: Curve<P>, ds: seq<Destination>, change: Option<Address>, txKey: Scalar)
    returns (txPub: Option<Bytes32>, need: bool)
    ensures need == NeedsAdditional(ds, change)
    ensures txPub.Some? ==> TxKeyMade(e, ds, change, txKey, txPub.value)
    ensures txPub.Some? <==>
      (Lone(ds, change) ==> forall i :: 0 <= i < |ds| && !IsChange(ds[i], change) ==>
        e.decode(ds[i].addr.spendKey).Some?)
  {
    hide Encoded, Firsts, LastSubaddress;
    var std, sub, single := ClassifyAddresses(ds, change);
    need := sub > 0 && (std > 0 || sub > 1);
    if std == 0 && sub == 1 {
      ghost var last :| 0 <= last < |ds| && LastSubaddress(ds, change, |ds|, last) && single == Some(ds[last].addr);
      forall j | 0 <= j < |ds| && !IsChange(ds[j], change) ensures ds[j].addr == ds[last].addr {
        LoneAddress(ds, change, last, j);
      }
      LastIsNotChange(ds, change, last);
      txPub := ScalarmultKey(e, single.value.spendKey, txKey);
    } else {
      txPub := Some(Encoded(e, txKey, e.base));
    }
  }

  lemma LastIsNotChange(ds: seq<Destination>, change: Option<Address>, last: nat)
    requires last < |ds| && LastSubaddress(ds, change, |ds|, last)
    ensures !IsChange(ds[last], change)
  {
  }

  /** A destination with a key s of its own gets that key published and its output derived. */
  ghost predicate OwnKeyWorks<P>(e: Curve<P>, senderView: Scalar, txPub: Bytes32, txKey: Scalar, d: Destination,
      change: Option<Address>, s: Scalar)
  {
    AdditionalPub(e, d, s).Some? && OutputDerivation(e, senderView, txPub, txKey, d, change, Some(s)).Some?
  }

  lemma OwnKeyDefined<P(!new)>(e: Curve<P>, senderView: Scalar, txPub: Bytes32, txKey: Scalar, d: Destination,
      change: Option<Address>, s: Scalar)
    requires Lawful(e) && txPub == Encoded(e, txKey, e.base)
    ensures OwnKeyWorks(e, senderView, txPub, txKey, d, change, s) <==> KeysDecode(e, d, change)
    ensures AdditionalPub(e, d, s).None? ==> !KeysDecode(e, d, change)
  {
    hide Times;
  }

  lemma NotBoth(ds: seq<Destination>, change: Option<Address>)
    ensures NeedsAdditional(ds, change) ==> !Lone(ds, change)
  {
  }

  lemma DecodedKeys<P>(e: Curve<P>, ds: seq<Destination>, change: Option<Address>)
    requires forall i :: 0 <= i < |ds| ==> KeysDecode(e, ds[i], change)
    ensures forall i :: 0 <= i < |ds| ==>
      && (ds[i].isSubaddress ==> e.decode(ds[i].addr.spendKey).Some?)
      && (change != Some(ds[i].addr) ==> e.decode(ds[i].addr.viewKey).Some?)
  {
  }

  /** The output part of construct_tx_with_tx_key. */
  method ConstructOutputs<P(!new)>(e: Curve<P>, version: nat, senderView: Scalar, ds: seq<Destination>,
      change: Option<Address>, txKey: Scalar, additionalKeys: seq<Scalar>, useTags: bool) returns (r: Option<Built>)
    requires Lawful(e)
    ensures r.Some? ==> Made(e, senderView, ds, change, txKey, additionalKeys, useTags, r.value)
    ensures r.Some? ==>
      r.value.amountKeys == AmountKeys(e, version, senderView, ds, change, r.value.txPub, txKey, additionalKeys, |ds|)
    ensures r.Some? <==> Constructible(e, version, ds, change, additionalKeys)
    ensures r.Some? && version <= 1 ==> forall i :: 0 <= i < |ds| ==> ds[i].amount > 0
    ensures r.Some? && NeedsAdditional(ds, change) ==> |additionalKeys| == |ds|
    ensures r.Some? && NeedsAdditional(ds, change) ==> forall i :: 0 <= i < |ds| ==>
      && (ds[i].isSubaddress ==> e.decode(ds[i].addr.spendKey).Some?)
      && (change != Some(ds[i].addr) ==> e.decode(ds[i].addr.viewKey).Some?)
  {
    hide Encoded, Lawful, KeyAndTag, OutputDerivation, AdditionalPub, Firsts, KeysDecode, AmountKey,
      NeedsAdditional, Lone;
    var txPub, need := TxPublicKey(e, ds, change, txKey);
    if txPub.None? {
      return None;
    }
    NotBoth(ds, change);
    if need && |ds| != |additionalKeys| {
      return None;
    }
    var pubs, outs, amountKeys := [], [], [];
    ghost var all := true;
    for i := 0 to |ds|
      invariant |outs| == i && |pubs| <= i && (!need ==> pubs == [])
      invariant forall k :: 0 <= k < i ==> ds[k].amount > 0 || version > 1
      invariant forall k :: 0 <= k < i ==>
        outs[k] == KeyAndTag(e, OutputDerivation(e, senderView, txPub.value, txKey, ds[k], change,
          OwnKey(ds, change, additionalKeys, k)), k, ds[k], useTags)
      invariant amountKeys == AmountKeys(e, version, senderView, ds, change, txPub.value, txKey, additionalKeys, i)
      invariant need ==> (all <==> |pubs| == i)
      invariant need && all ==> forall k :: 0 <= k < i ==> AdditionalPub(e, ds[k], additionalKeys[k]) == Some(pubs[k])
      invariant need ==> (all <==> forall k :: 0 <= k < i ==> KeysDecode(e, ds[k], change))
    {
      if ds[i].amount == 0 && version <= 1 {
        return None;
      }
      if need {
        OwnKeyDefined(e, senderView, txPub.value, txKey, ds[i], change, additionalKeys[i]);
      }
      var thrown, pubs', amountKeys', out := GenerateOutputEphemeralKeys(e, version, senderView, txPub.value, txKey,
        ds[i], change, i, need, additionalKeys, pubs, amountKeys, useTags);
      if thrown {
        return None;
      }
      all := all && (need ==> KeysDecode(e, ds[i], change));
      pubs, amountKeys := pubs', amountKeys';
      outs := outs + [out];
    }
    if |pubs| != |additionalKeys| {
      return None;
    }
    if need {
      DecodedKeys(e, ds, change);
    }
    r := Some(Built(txPub.value, pubs, outs, amountKeys));
  }

  /** The transaction key is a multiple of the base point or of a point among the destinations. */
  lemma TxKeyDecodes<P(!new)>(e: Curve<P>, ds: seq<Destination>, change: Option<Address>, txKey: Scalar, txPub: Bytes32)
    requires Lawful(e) && TxKeyMade(e, ds, change, txKey, txPub)
    ensures e.decode(txPub).Some?
  {
    hide Times;
    if Lone(ds, change) {
      var subs := Firsts(ds, change, |ds|, true);
      assert subs != {};
      var f :| f in subs;
      assert !IsChange(ds[f], change) && ScalarmultKey(e, ds[f].addr.spendKey, txKey) == Some(txPub);
    }
  }

  lemma DecodedDerivation<P>(e: Curve<P>, key: Bytes32, a: Scalar)
    ensures KeyDerivation(e, key, a).Some? <==> e.decode(key).Some?
  {
  }

  /** Which outputs of a constructed transaction have a key: those whose destination's keys are points. */
  lemma KeyPresent<P(!new)>(e: Curve<P>, senderView: Scalar, ds: seq<Destination>, change: Option<Address>,
      txKey: Scalar, additionalKeys: seq<Scalar>, useTags: bool, b: Built, i: nat)
    requires Lawful(e) && Made(e, senderView, ds, change, txKey, additionalKeys, useTags, b) && i < |ds|
    ensures b.outs[i].key.Some? <==>
      e.decode(ds[i].addr.spendKey).Some? && (IsChange(ds[i], change) || e.decode(ds[i].addr.viewKey).Some?)
  {
    hide Times, Lawful, Lone, NeedsAdditional, KeyDerivation, DerivationToScalar;
    assert OutputMade(e, senderView, ds, change, txKey, additionalKeys, useTags, b, i);
    TxKeyDecodes(e, ds, change, txKey, b.txPub);
    DecodedDerivation(e, b.txPub, senderView);
    var own := OwnKey(ds, change, additionalKeys, i);
    DecodedDerivation(e, ds[i].addr.viewKey, if ds[i].isSubaddress && own.Some? then own.value else txKey);
  }

  /** Which carry a view tag: with tags in use, those whose view key is a point. Each carries its amount. */
  lemma TagPresent<P(!new)>(e: Curve<P>, senderView: Scalar, ds: seq<Destination>, change: Option<Address>,
      txKey: Scalar, additionalKeys: seq<Scalar>, useTags: bool, b: Built, i: nat)
    requires Lawful(e) && Made(e, senderView, ds, change, txKey, additionalKeys, useTags, b) && i < |ds|
    ensures b.outs[i].amount == ds[i].amount
    ensures b.outs[i].tag.Some? <==> useTags && (IsChange(ds[i], change) || e.decode(ds[i].addr.viewKey).Some?)
  {
    hide Times, Lawful, Lone, NeedsAdditional, KeyDerivation, DerivationToScalar;
    assert OutputMade(e, senderView, ds, change, txKey, additionalKeys, useTags, b, i);
    TxKeyDecodes(e, ds, change, txKey, b.txPub);
    DecodedDerivation(e, b.txPub, senderView);
    var own := OwnKey(ds, change, additionalKeys, i);
    DecodedDerivation(e, ds[i].addr.viewKey, if ds[i].isSubaddress && own.Some? then own.value else txKey);
  }

  /** A standard destination with a view key that is no point is accepted, and its output left without a key. */
  lemma KeyLeftOut<P(!new)>(e: Curve<P>, version: nat, senderView: Scalar, addr: Address, amount: nat, txKey: Scalar,
      useTags: bool)
    requires Lawful(e) && amount > 0 && e.decode(addr.viewKey).None?
    ensures var ds := [Destination(amount, addr, false)];
      && Constructible(e, version, ds, None, [])
      && forall b :: Made(e, senderView, ds, None, txKey, [], useTags, b) ==> b.outs[0].key.None?
  {
    var ds := [Destination(amount, addr, false)];
    NoSubaddresses(ds, None);
    hide Lawful, Made, Lone, NeedsAdditional;
    forall b | Made(e, senderView, ds, None, txKey, [], useTags, b) ensures |b.outs| == 1 && b.outs[0].key.None? {
      MadeSize(e, senderView, ds, None, txKey, [], useTags, b);
      KeyPresent(e, senderView, ds, None, txKey, [], useTags, b, 0);
    }
  }

  lemma MadeSize<P>(e: Curve<P>, senderView: Scalar, ds: seq<Destination>, change: Option<Address>, txKey: Scalar,
      additionalKeys: seq<Scalar>, useTags: bool, b: Built)
    requires Made(e, senderView, ds, change, txKey, additionalKeys, useTags, b)
    ensures |b.outs| == |ds|
  {
  }

  lemma NoSubaddresses(ds: seq<Destination>, change: Option<Address>)
    requires forall j :: 0 <= j < |ds| ==> !ds[j].isSubaddress
    ensures !Lone(ds, change) && !NeedsAdditional(ds, change)
  {
    assert Firsts(ds, change, |ds|, true) == {};
  }
}
