// encrypt_payment_id: eight bytes masked with the hash of a key derivation, in place.

module PaymentIds {
  import opened Wrappers
  import opened ByteStrings
  import opened Curves
  import opened Groups
  import opened Keys

  /** The mask: the hash of the derivation followed by HASH_KEY_ENCRYPTED_PAYMENT_ID. */
  function Mask<P>(e: Curve<P>, derivation: Bytes32): Bytes32 { e.fastHash(derivation + [0x8d]) }

  function Masked(id: seq<bv8>, mask: Bytes32): (r: seq<bv8>)
    requires |id| == 8
    ensures |r| == 8
  {
    seq(8, b requires 0 <= b < 8 => id[b] ^ (mask[b] as bv8))
  }

  method EncryptPaymentId<P(!new)>(e: Curve<P>, id: array<bv8>, publicKey: Bytes32, secretKey: Scalar)
    returns (ok: bool)
    requires id.Length == 8
    modifies id
    ensures ok <==> e.decode(publicKey).Some?
    ensures ok ==> id[..] == Masked(old(id[..]), Mask(e, KeyDerivation(e, publicKey, secretKey).value))
    ensures ok ==> forall k :: 0 <= k < 8 ==>
      id[k] == old(id[k]) ^ (e.fastHash(KeyDerivation(e, publicKey, secretKey).value + [0x8d])[k] as bv8)
    ensures !ok ==> id[..] == old(id[..])
  {
    hide Times;
    var derivation := KeyDerivation(e, publicKey, secretKey);
    if derivation.None? {
      return false;
    }
    var hash := Mask(e, derivation.value);
    for b := 0 to 8
      invariant forall k :: 0 <= k < b ==> id[k] == old(id[k]) ^ (hash[k] as bv8)
      invariant forall k :: b <= k < 8 ==> id[k] == old(id[k])
    {
      id[b] := id[b] ^ (hash[b] as bv8);
    }
    return true;
  }

  lemma XorTwice(x: bv8, y: bv8)
    ensures (x ^ y) ^ y == x
  {
  }

  lemma MaskedTwice(id: seq<bv8>, mask: Bytes32)
    requires |id| == 8
    ensures Masked(Masked(id, mask), mask) == id
  {
    forall b | 0 <= b < 8 ensures Masked(Masked(id, mask), mask)[b] == id[b] {
      XorTwice(id[b], mask[b] as bv8);
    }
  }

  /**
    The sender masks with the recipient's view key a x and the transaction secret r, the recipient unmasks with the
    transaction key r x and the view secret a: for the base point, or for the spend key of a lone subaddress, as x.
    */
  lemma RecipientReads<P(!new)>(e: Curve<P>, id: seq<bv8>, a: Scalar, r: Scalar, x: P)
    requires Lawful(e) && |id| == 8
    ensures
      var sent := KeyDerivation(e, Encoded(e, a, x), r);
      var received := KeyDerivation(e, Encoded(e, r, x), a);
      sent.Some? && received.Some? && Masked(Masked(id, Mask(e, sent.value)), Mask(e, received.value)) == id
  {
    hide KeyDerivation, Times;
    Shared(e, a, r, x);
    MaskedTwice(id, Mask(e, KeyDerivation(e, Encoded(e, a, x), r).value));
  }
}
