// encode_addr and decode_addr: a varint tag, the data and four bytes of their hash, in base 58.

module Addresses {
  import opened Arithmetic
  import opened Wrappers
  import opened ByteStrings
  import Base58
  import Varints

  datatype Address = Address(tag: nat, data: seq<byte>)

  /** The first four bytes of the hash. */
  function Checksum(hash: seq<byte> -> Bytes32, payload: seq<byte>): (c: seq<byte>)
    ensures |c| == 4
  {
    hash(payload)[..4]
  }

  function Encoded(hash: seq<byte> -> Bytes32, a: Address): string
  {
    var payload := Varints.Encode(a.tag) + a.data;
    Base58.Encode(payload + Checksum(hash, payload))
  }

  method EncodeAddr(hash: seq<byte> -> Bytes32, tag: nat, data: seq<byte>) returns (addr: string)
    ensures addr == Encoded(hash, Address(tag, data))
  {
    var buf := Varints.WriteVarint(tag);
    buf := buf + data;
    addr := Base58.EncodeData(buf + hash(buf)[..4]);
  }

  /** The payload behind an address whose checksum holds. */
  predicate Carries(hash: seq<byte> -> Bytes32, addr: string, payload: seq<byte>)
  {
    |payload| > 0 && addr == Base58.Encode(payload + Checksum(hash, payload))
  }

  /** The tag read off the front of a payload and what is left; a tag cut short counts as read. */
  function Parsed(payload: seq<byte>): Option<Address> {
    var r := Varints.Read(64, payload, 0);
    if r.Done? && r.end <= |payload| then Some(Address(r.value, payload[r.end..]))
    else if r.Cut? && 0 < r.end <= |payload| then Some(Address(r.partial, payload[r.end..]))
    else None
  }

  method DecodeAddr(hash: seq<byte> -> Bytes32, addr: string) returns (r: Option<Address>)
    ensures r.Some? ==> exists payload :: Carries(hash, addr, payload)
    ensures forall payload :: Carries(hash, addr, payload) ==> r == Parsed(payload)
  {
    hide Varints.Read, Varints.Encode, Base58.Encode, Base58.Decode, Checksum, Carries, Pow2;
    var decoded := Base58.DecodeData(addr);
    if decoded.None? || |decoded.value| <= 4 {
      NothingCarried(hash, addr);
      return None;
    }
    var payload := decoded.value[..|decoded.value| - 4];
    if Checksum(hash, payload) != decoded.value[|decoded.value| - 4..] {
      NothingCarried(hash, addr);
      return None;
    }
    assert decoded.value == payload + Checksum(hash, payload);
    OneCarried(hash, addr, payload);
    var read, tag := Varints.ReadVarint(64, payload);
    Varints.CutOrDone(64, payload, 0);
    if read <= 0 {
      return None;
    }
    r := Some(Address(tag, payload[read..]));
  }

  lemma NothingCarried(hash: seq<byte> -> Bytes32, addr: string)
    requires var d := Base58.Decode(addr);
      d.None? || |d.value| <= 4 || Checksum(hash, d.value[..|d.value| - 4]) != d.value[|d.value| - 4..]
    ensures forall payload :: !Carries(hash, addr, payload)
  {
    forall payload ensures !Carries(hash, addr, payload) {
      var whole := payload + Checksum(hash, payload);
      Base58.Bijection(addr, whole);
      assert whole[..|whole| - 4] == payload && whole[|whole| - 4..] == Checksum(hash, payload);
    }
  }

  /** An address carries at most one payload. */
  lemma OneCarried(hash: seq<byte> -> Bytes32, addr: string, payload: seq<byte>)
    requires |payload| > 0
    requires Base58.Decode(addr) == Some(payload + Checksum(hash, payload))
    ensures Carries(hash, addr, payload)
    ensures forall other :: Carries(hash, addr, other) ==> other == payload
  {
    Base58.Bijection(addr, payload + Checksum(hash, payload));
    forall other | Carries(hash, addr, other) ensures other == payload {
      Base58.Bijection(addr, other + Checksum(hash, other));
      assert (other + Checksum(hash, other))[..|other|] == other;
      assert (payload + Checksum(hash, payload))[..|payload|] == payload;
    }
  }

  /**
    A payload under the checksum of another is refused, unless the hash of both begins with the same four bytes; so a
    payload passes under its own.
    */
  lemma AlteredPayload(hash: seq<byte> -> Bytes32, p: seq<byte>, q: seq<byte>)
    requires |q| > 0
    ensures (exists payload :: Carries(hash, Base58.Encode(q + hash(p)[..4]), payload))
      <==> hash(p)[..4] == hash(q)[..4]
  {
    hide Base58.Encode;
    var addr := Base58.Encode(q + hash(p)[..4]);
    Base58.Bijection(addr, q + hash(p)[..4]);
    if hash(p)[..4] == hash(q)[..4] {
      assert Carries(hash, addr, q);
    } else {
      assert (q + hash(p)[..4])[..|q|] == q && (q + hash(p)[..4])[|q|..] == hash(p)[..4];
      NothingCarried(hash, addr);
    }
  }

  /** decode_addr inverts encode_addr for every 64-bit tag and all data. */
  lemma RoundTrip(hash: seq<byte> -> Bytes32, a: Address)
    requires a.tag < Pow2(64)
    ensures Carries(hash, Encoded(hash, a), Varints.Encode(a.tag) + a.data)
    ensures Parsed(Varints.Encode(a.tag) + a.data) == Some(a)
  {
    hide Checksum, Varints.Read, Base58.Encode, Pow2;
    Varints.RoundTrip(64, a.tag, a.data);
    assert (Varints.Encode(a.tag) + a.data)[|Varints.Encode(a.tag)|..] == a.data;
  }

  /**
    What decode_addr accepts is what encode_addr writes for its result exactly when the last byte it read ends a tag.
    */
  lemma TagWasWhole(hash: seq<byte> -> Bytes32, addr: string, payload: seq<byte>, a: Address)
    requires Carries(hash, addr, payload) && Parsed(payload) == Some(a)
    ensures 0 < |payload| - |a.data| <= |payload|
    ensures addr == Encoded(hash, a) <==> payload[|payload| - |a.data| - 1] < 128
  {
    hide Checksum, Varints.Read, Base58.Encode;
    Varints.CutOrDone(64, payload, 0);
    var r := Varints.Read(64, payload, 0);
    if r.Done? {
      Varints.ReadIsCanonical(64, payload, 0);
      assert payload[0..r.end] + payload[r.end..] == payload;
    } else if addr == Encoded(hash, a) {
      OnePayload(hash, addr, payload, Varints.Encode(a.tag) + a.data);
    }
  }

  /**
    What decode_addr accepts is what encode_addr writes for its result exactly when some byte of the payload ends a tag.
    */
  lemma AcceptedIsWritten(hash: seq<byte> -> Bytes32, addr: string, payload: seq<byte>, a: Address)
    requires Carries(hash, addr, payload) && Parsed(payload) == Some(a)
    ensures addr == Encoded(hash, a) <==> exists k :: 0 <= k < |payload| && payload[k] < 128
  {
    hide Encoded, Carries, Varints.Read;
    TagWasWhole(hash, addr, payload, a);
    Varints.CutOrDone(64, payload, 0);
    assert payload[|payload| - |a.data| - 1] < 128 ==> exists k :: 0 <= k < |payload| && payload[k] < 128;
  }

  lemma OnePayload(hash: seq<byte> -> Bytes32, addr: string, p: seq<byte>, q: seq<byte>)
    requires Carries(hash, addr, p) && Carries(hash, addr, q)
    ensures p == q
  {
    Base58.Bijection(addr, p + Checksum(hash, p));
    OneCarried(hash, addr, p);
  }

  /** The payload 0x80 is accepted as tag 0 although no address is written with it. */
  lemma CutTagAccepted(hash: seq<byte> -> Bytes32)
    ensures Parsed([0x80]) == Some(Address(0, []))
    ensures Base58.Encode([0x80] + Checksum(hash, [0x80])) != Encoded(hash, Address(0, []))
  {
    var payload := [0x80];
    assert payload[1..] == [];
    assert Varints.Read(57, payload, 1) == Varints.Cut(0, 1);
    assert Varints.Read(64, payload, 0) == Varints.Above(0, 7, Varints.Cut(0, 1));
    TagWasWhole(hash, Base58.Encode(payload + Checksum(hash, payload)), payload, Address(0, []));
  }
}
