// Inputs on which the output code falls short, over the integers modulo l: a transaction constructed without an output
// key, and an output its owner does not recognise.

module Witnesses {
  import opened Wrappers
  import opened ByteStrings
  import opened Curves
  import opened Groups
  import opened Keys
  import opened OutputBuilding
  import opened OutputReceiving
  import opened Premises
  import opened Scalars
  import StealthOutputs
  import Varints

  lemma LIsNoPoint()
    ensures Decode(LeBytes(L, 32)).None?
  {
    Pow256Value();
    LeBytesValue(L, 32);
  }

  /** Paid to a standard address whose view key is no point, a transaction is constructed and its output has no key. */
  lemma ConstructedWithoutKey(fastHash: seq<byte> -> Bytes32, b: Built)
    ensures var e, ds := Residues(fastHash), [Destination(1, Keys.Address(LeBytes(L, 32), Encode(1)), false)];
      && Constructible(e, 2, ds, None, [])
      && (Made(e, 1, ds, None, 1, [], true, b) ==> |b.outs| == 1 && b.outs[0].key.None?)
  {
    LIsNoPoint();
    PremisesHold(fastHash);
    KeyLeftOut(Residues(fastHash), 2, 1, Keys.Address(LeBytes(L, 32), Encode(1)), 1, 1, true);
  }

  /** A hash that keeps the first 32 bytes. */
  function FirstBytes(data: seq<byte>): Bytes32 { if |data| >= 32 then data[..32] else seq(32, _ => 0) }

  function Curve0(): Curve<Residue> { Residues(FirstBytes) }

  lemma ScalarIs(x: Residue, i: nat)
    ensures DerivationToScalar(Curve0(), Encode(x), i) == x
  {
    hide Encode, Decode, Le, LeBytes, Varints.Encode;
    var data := Encode(x) + Varints.Encode(i);
    assert data[..32] == Encode(x);
    DecodeEncode(x);
  }

  lemma MultipleIs(n: nat, x: Residue, v: Residue)
    requires n * x == v
    ensures Times(Z, n, x) == v
  {
    TimesIs(n, x, L);
  }

  // The account with view secret 1 and spend secret 2, and its table.
  const ACCOUNT: Account := Account(Keys.Address(Encode(1), Encode(2)), 1, 2, [])

  function Table(): map<Bytes32, Index> { map[Encode(2) := Index(0, 0)] }

  // Its main address twice among the destinations, the first time flagged as a subaddress.
  function Conflicting(): seq<Destination> {
    [Destination(1, ACCOUNT.address, true), Destination(1, ACCOUNT.address, false)]
  }

  lemma AccountHolds()
    ensures Holds(Curve0(), ACCOUNT, 2) && HonestTable(Curve0(), ACCOUNT, Table())
    ensures GetSubaddress(Curve0(), ACCOUNT, Table()[Encode(2)]) == Some(Conflicting()[1].addr)
  {
    MultipleIs(1, 1, 1);
    MultipleIs(2, 1, 2);
  }

  lemma ConflictingIsLone()
    ensures Lone(Conflicting(), None) && !NeedsAdditional(Conflicting(), None)
  {
    var ds := Conflicting();
    assert First(ds, None, 0) && !First(ds, None, 1);
    assert Firsts(ds, None, 2, true) == {0} && Firsts(ds, None, 2, false) == {};
  }

  /** Eight times the product of two scalars of 1, with a point of value x. */
  lemma DerivationIs(x: Residue)
    requires x < 8
    ensures KeyDerivation(Curve0(), Encode(x), 1) == Some(Encode(8 * x))
  {
    hide Encode, Decode, Le, LeBytes, Times;
    DecodeEncode(x);
    MultipleIs(1, x, x);
  }

  lemma ConflictIsConstructible()
    ensures Constructible(Curve0(), 2, Conflicting(), None, [])
  {
    ConflictingIsLone();
    DecodeEncode(2);
  }

  lemma LostOutput(b: Built)
    requires Made(Curve0(), 1, Conflicting(), None, 1, [], false, b)
    ensures |b.outs| == 2 && b.outs[1].key == Some(Encode(10))
    ensures IsOutToAccPrecomp(Curve0(), Table(), Encode(10), SharedDerivation(Curve0(), b.txPub, ACCOUNT.viewSecret),
      Received(Curve0(), b.additional, ACCOUNT.viewSecret), 1, None).None?
  {
    hide Times, Lone, NeedsAdditional, KeyDerivation, DerivationToScalar;
    var e, ds := Curve0(), Conflicting();
    ConflictingIsLone();
    DecodeEncode(2);
    assert ScalarmultKey(e, ds[0].addr.spendKey, 1) == Some(b.txPub);
    MultipleIs(1, 2, 2);
    assert OutputMade(e, 1, ds, None, 1, [], false, b, 1);
    DerivationIs(1);
    DerivationIs(2);
    KeysOfConflict();
  }

  /** The transaction is constructed, but the owner does not recognise the second output. */
  lemma ConflictingFlagsLose(b: Built)
    ensures Holds(Curve0(), ACCOUNT, 2) && HonestTable(Curve0(), ACCOUNT, Table())
    ensures GetSubaddress(Curve0(), ACCOUNT, Table()[Encode(2)]) == Some(Conflicting()[1].addr)
    ensures !StealthOutputs.Served(Conflicting(), None, 1)
    ensures Constructible(Curve0(), 2, Conflicting(), None, [])
    ensures Made(Curve0(), 1, Conflicting(), None, 1, [], false, b) ==>
      |b.outs| == 2 && b.outs[1].key == Some(Encode(10))
      && IsOutToAccPrecomp(Curve0(), Table(), Encode(10), SharedDerivation(Curve0(), b.txPub, ACCOUNT.viewSecret),
           Received(Curve0(), b.additional, ACCOUNT.viewSecret), 1, None).None?
  {
    hide Holds, HonestTable, GetSubaddress, Constructible, Made, IsOutToAccPrecomp, Lone, Received, SharedDerivation;
    AccountHolds();
    ConflictingIsLone();
    ConflictIsConstructible();
    if Made(Curve0(), 1, Conflicting(), None, 1, [], false, b) {
      LostOutput(b);
    }
  }

  /** The output key is 2 + 8, and what the owner takes off it is 16. */
  lemma KeysOfConflict()
    ensures DerivePublicKey(Curve0(), Encode(8), 1, Encode(2)) == Some(Encode(10))
    ensures DeriveSubaddressPublicKey(Curve0(), Encode(10), Encode(16), 1) == Some(Encode(L - 6))
    ensures Encode(L - 6) !in Table()
  {
    hide Times, DerivationToScalar, Encode, Decode;
    DecodeEncode(2);
    DecodeEncode(10);
    DecodeEncode(L - 6);
    ScalarIs(8, 1);
    ScalarIs(16, 1);
    MultipleIs(8, 1, 8);
    MultipleIs(16, 1, 16);
  }
}
