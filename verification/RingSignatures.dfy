// generate_ring_signature and check_ring_signature.

module RingSignatures {
  import opened Arithmetic
  import opened Wrappers
  import opened ByteStrings
  import opened Curves
  import opened Groups
  import opened Scalars
  import ScalarChecks
  import opened ScalarMult
  import opened ScalarValues
  import opened WindowedMult

  datatype Signature = Signature(c: Bytes32, r: Bytes32)

  predicate IsResidue(r: int, v: int) { r == v % L }

  predicate CanonicalSignature(s: Signature) { Le(s.c) < L && Le(s.r) < L }

  /** The pair of commitments of one ring member: cP + rB and rH(P) + cI, encoded. */
  ghost function Entry<P>(e: Curve<P>, image: P, key: Bytes32, s: Signature): seq<byte>
    requires e.decode(key).Some?
  {
    e.encode(Sum2(e.group, Le(s.c), e.decode(key).value, Le(s.r), e.base))
    + e.encode(Sum2(e.group, Le(s.r), e.hashToEc(key), Le(s.c), image))
  }

  function Flat(entries: seq<seq<byte>>): (r: seq<byte>)
    ensures |entries| == 0 ==> r == []
  {
    if |entries| == 0 then [] else Flat(entries[..|entries| - 1]) + entries[|entries| - 1]
  }

  lemma FlatNext(entries: seq<seq<byte>>, a: seq<byte>)
    ensures Flat(entries + [a]) == Flat(entries) + a
  {
    assert (entries + [a])[..|entries|] == entries;
  }

  /** The first n challenges c added up. */
  function Challenges(sigs: seq<Signature>, n: nat): (t: nat)
    requires n <= |sigs|
    ensures n == 0 ==> t == 0
  {
    if n == 0 then 0 else Challenges(sigs, n - 1) + Le(sigs[n - 1].c)
  }

  ghost function Entries<P>(e: Curve<P>, image: P, keys: seq<Bytes32>, sigs: seq<Signature>): (r: seq<seq<byte>>)
    requires |sigs| == |keys| && forall i :: 0 <= i < |keys| ==> e.decode(keys[i]).Some?
    ensures |r| == |keys| && forall i :: 0 <= i < |keys| ==> r[i] == Entry(e, image, keys[i], sigs[i])
  {
    seq(|keys|, i requires 0 <= i < |keys| => Entry(e, image, keys[i], sigs[i]))
  }

  /** Everything the challenges commit to. */
  ghost function Commitments<P>(e: Curve<P>, prefix: Bytes32, image: P, keys: seq<Bytes32>,
      sigs: seq<Signature>): seq<byte>
    requires |sigs| == |keys| && forall i :: 0 <= i < |keys| ==> e.decode(keys[i]).Some?
  {
    prefix + Flat(Entries(e, image, keys, sigs))
  }

  /** The verification equation: canonical scalars, valid points, and challenges that sum to the hash modulo l. */
  ghost predicate Accepted<P>(e: Curve<P>, prefix: Bytes32, image: Bytes32, keys: seq<Bytes32>, sigs: seq<Signature>) {
    && |sigs| == |keys| && e.decode(image).Some?
    && (forall i :: 0 <= i < |keys| ==> CanonicalSignature(sigs[i]) && e.decode(keys[i]).Some?)
    && Challenges(sigs, |sigs|) % L == HashScalar(e, Commitments(e, prefix, e.decode(image).value, keys, sigs))
  }

  lemma NextChallenge(sigs: seq<Signature>, i: nat)
    requires i < |sigs|
    ensures Challenges(sigs, i + 1) % L == (Challenges(sigs, i) % L + Le(sigs[i].c)) % L
  {
    ModSum(Challenges(sigs, i), Le(sigs[i].c), L);
  }

  /**
    The part of the loop body both functions share: the two commitments of a member, from its challenge and response.
    */
  method CommitMember<P(!new)>(e: Curve<P>, image: P, imagePre: seq<P>, key: Bytes32, s: Signature)
    returns (ab: Option<seq<byte>>)
    requires Lawful(e) && OddMultiples(e.group, imagePre, image) && CanonicalSignature(s)
    ensures ab.None? <==> e.decode(key).None?
    ensures ab.Some? ==> ab.value == Entry(e, image, key, s)
  {
    CanonicalTop(s.c);
    CanonicalTop(s.r);
    var point := e.decode(key);
    if point.None? {
      return None;
    }
    var tmp2 := DoubleScalarmultBase(e.group, s.c, point.value, s.r, e.baseOdd, e.base);
    var a := e.encode(tmp2);
    tmp2 := DoubleScalarmultPrecomp(e.group, s.r, e.hashToEc(key), s.c, imagePre, image);
    ab := Some(a + e.encode(tmp2));
  }

  /** The last steps of the check: sum the hash of the buffer to nothing. */
  method SumsToHash<P>(e: Curve<P>, buf: seq<byte>, sum: Bytes32) returns (ok: bool)
    requires Le(sum) < L
    ensures ok <==> Le(sum) == HashScalar(e, buf)
  {
    var h := HashToScalar(e, buf);
    var d := SubScalars(h, sum);
    DifferenceZero(Le(h), Le(sum), L);
    var nonzero := ScalarChecks.ScIsNonzero(d);
    ok := nonzero == 0;
  }

  /** image_pre */
  method ImageTable<P(!new)>(e: Curve<P>, image: P) returns (table: seq<P>)
    requires Lawful(e)
    ensures OddMultiples(e.group, table, image)
  {
    var imagePre := new P[8](_ => image);
    DsmPrecomp(e.group, imagePre, image);
    table := imagePre[..];
  }

  method CheckRingSignature<P(!new)>(e: Curve<P>, prefix: Bytes32, image: Bytes32, keys: seq<Bytes32>,
      sigs: seq<Signature>)
    returns (ok: bool)
    requires Lawful(e) && |sigs| == |keys|
    ensures ok <==> Accepted(e, prefix, image, keys, sigs)
  {
    hide Entry, Entries, Lawful, OddMultiples, Le, HashScalar, Flat, Challenges;
    var imageUnp := e.decode(image);
    if imageUnp.None? {
      return false;
    }
    var imagePre := ImageTable(e, imageUnp.value);
    var sum := ZeroScalar();
    var buf: seq<byte> := prefix;
    ghost var entries := [];
    for i := 0 to |keys|
      invariant forall j :: 0 <= j < i ==> CanonicalSignature(sigs[j]) && e.decode(keys[j]).Some?
      invariant |entries| == i && buf == prefix + Flat(entries)
      invariant forall j :: 0 <= j < i ==> entries[j] == Entry(e, imageUnp.value, keys[j], sigs[j])
      invariant Le(sum) == Challenges(sigs, i) % L
    {
      var c := CheckScalar(sigs[i].c);
      var r := CheckScalar(sigs[i].r);
      if c != 0 || r != 0 {
        return false;
      }
      var ab := CommitMember(e, imageUnp.value, imagePre, keys[i], sigs[i]);
      if ab.None? {
        return false;
      }
      FlatNext(entries, ab.value);
      entries := entries + [ab.value];
      buf := buf + ab.value;
      NextChallenge(sigs, i);
      sum := AddScalars(sum, sigs[i].c);
    }
    assert entries == Entries(e, imageUnp.value, keys, sigs);
    ok := SumsToHash(e, buf, sum);
  }

  /** The signer's own commitments, kB and kH(P). */
  ghost function SignerEntry<P>(e: Curve<P>, key: Bytes32, k: Bytes32): seq<byte> {
    e.encode(Times(e.group, Le(k), e.base)) + e.encode(Times(e.group, Le(k), e.hashToEc(key)))
  }

  method CommitSigner<P(!new)>(e: Curve<P>, key: Bytes32, k: Bytes32) returns (ab: seq<byte>)
    requires Lawful(e) && Le(k) < L
    ensures ab == SignerEntry(e, key, k)
  {
    CanonicalTop(k);
    var tmp3 := ScalarmultBase(e.group, k, e.baseRows, e.base);
    var a := e.encode(tmp3);
    var tmp2 := Scalarmult(e.group, k, e.hashToEc(key));
    ab := a + e.encode(tmp2);
  }

  /** The signer's key and key image belong to the secret: what the debug build asserts. */
  ghost predicate Owns<P>(e: Curve<P>, sec: Bytes32, key: Bytes32, image: Bytes32) {
    && key == e.encode(Times(e.group, Le(sec), e.base))
    && image == e.encode(Times(e.group, Le(sec), e.hashToEc(key)))
  }

  /** c (sec x) + r x == k x for r == k - c sec modulo l, in either order of the sum. */
  lemma ResponseCloses<P(!new)>(g: Group<P>, c: int, sec: int, r: int, k: int, x: P)
    requires IsAbelian(g) && Times(g, L, x) == g.zero && r == (k - c * sec) % L
    ensures Sum2(g, c, Times(g, sec, x), r, x) == Times(g, k, x) == Sum2(g, r, x, c, Times(g, sec, x))
  {
    hide Times;
    TimesProduct(g, c, sec, x);
    TimesSum(g, c * sec, r, x);
    ModSum(k - c * sec, c * sec, L);
    ModularTimes(g, c * sec + r, k, x);
    Laws(g, Times(g, c * sec, x), Times(g, r, x), x);
  }

  /** With the closing response, the check recomputes the signer's commitments. */
  lemma SignerRecomputed<P(!new)>(e: Curve<P>, image: Bytes32, key: Bytes32, sec: Bytes32, k: Bytes32, s: Signature)
    requires Lawful(e) && Owns(e, sec, key, image) && IsResidue(Le(s.r), Le(k) - Le(s.c) * Le(sec))
    ensures e.decode(key).Some? && e.decode(image).Some?
    ensures Entry(e, e.decode(image).value, key, s) == SignerEntry(e, key, k)
  {
    ResponseCloses(e.group, Le(s.c), Le(sec), Le(s.r), Le(k), e.base);
    ResponseCloses(e.group, Le(s.c), Le(sec), Le(s.r), Le(k), e.hashToEc(key));
  }

  /** The first n challenges but the signer's. */
  function OtherChallenges(sigs: seq<Signature>, n: nat, signer: nat): (t: nat)
    requires n <= |sigs|
    ensures n == 0 ==> t == 0
  {
    if n == 0 then 0
    else OtherChallenges(sigs, n - 1, signer) + if n - 1 == signer then 0 else Le(sigs[n - 1].c)
  }

  lemma NextOther(sigs: seq<Signature>, i: nat, signer: nat)
    requires i < |sigs|
    ensures i == signer ==> OtherChallenges(sigs, i + 1, signer) == OtherChallenges(sigs, i, signer)
    ensures i != signer ==>
      OtherChallenges(sigs, i + 1, signer) % L == (OtherChallenges(sigs, i, signer) % L + Le(sigs[i].c)) % L
  {
    ModSum(OtherChallenges(sigs, i, signer), Le(sigs[i].c), L);
  }

  lemma {:induction false} AllChallenges(sigs: seq<Signature>, draws: seq<Signature>, n: nat, signer: nat)
    requires n <= |sigs| == |draws| && signer < |sigs|
    requires forall i :: 0 <= i < |sigs| && i != signer ==> sigs[i] == draws[i]
    ensures Challenges(sigs, n) == OtherChallenges(draws, n, signer) + if signer < n then Le(sigs[signer].c) else 0
    decreases n
  {
    if n > 0 {
      AllChallenges(sigs, draws, n - 1, signer);
    }
  }

  lemma ChallengesClose(others: int, c: int, h: int)
    requires 0 <= h < L && c == (h - others % L) % L
    ensures (others + c) % L == h
  {
    ModSum(others, c, L);
    ModSum(h - others % L, others % L, L);
  }

  lemma ClosingSignature(s: Signature, others: int, sec: int, k: int, h: int)
    requires 0 <= h < L && Le(s.c) == (h - others % L) % L && Le(s.r) == (k - Le(s.c) * sec) % L
    ensures CanonicalSignature(s) && IsResidue(h, others + Le(s.c)) && IsResidue(Le(s.r), k - Le(s.c) * sec)
  {
    hide Le;
    ChallengesClose(others, Le(s.c), h);
  }

  /** The loop of generate_ring_signature: draws for the other members, and the commitments of all. */
  method CommitRing<P(!new)>(e: Curve<P>, prefix: Bytes32, image: P, imagePre: seq<P>, keys: seq<Bytes32>, signer: nat,
      k: Bytes32, draws: seq<Signature>, sig: array<Signature>)
    returns (ok: bool, buf: seq<byte>, sum: Bytes32, ghost entries: seq<seq<byte>>)
    requires Lawful(e) && OddMultiples(e.group, imagePre, image) && signer < |keys| == |draws| == sig.Length
    requires Le(k) < L && forall i :: 0 <= i < |draws| ==> CanonicalSignature(draws[i])
    modifies sig
    ensures ok <==> forall i :: 0 <= i < |keys| && i != signer ==> e.decode(keys[i]).Some?
    ensures ok ==> |entries| == |keys| && buf == prefix + Flat(entries)
    ensures ok ==> entries[signer] == SignerEntry(e, keys[signer], k)
    ensures ok ==> forall i :: 0 <= i < |keys| && i != signer ==>
      sig[i] == draws[i] && entries[i] == Entry(e, image, keys[i], draws[i])
    ensures ok ==> Le(sum) == OtherChallenges(draws, |keys|, signer) % L
  {
    hide Entry, SignerEntry, Lawful, OddMultiples, Le, Flat, OtherChallenges, CanonicalSignature;
    ok, buf, entries := false, prefix, [];
    sum := ZeroScalar();
    for i := 0 to |keys|
      invariant forall j :: 0 <= j < i && j != signer ==> sig[j] == draws[j] && e.decode(keys[j]).Some?
      invariant |entries| == i && buf == prefix + Flat(entries)
      invariant forall j :: 0 <= j < i && j != signer ==> entries[j] == Entry(e, image, keys[j], draws[j])
      invariant signer < i ==> entries[signer] == SignerEntry(e, keys[signer], k)
      invariant Le(sum) == OtherChallenges(draws, i, signer) % L
    {
      NextOther(draws, i, signer);
      var ab;
      if i == signer {
        ab := CommitSigner(e, keys[i], k);
      } else {
        sig[i] := draws[i];
        var member := CommitMember(e, image, imagePre, keys[i], sig[i]);
        if member.None? {
          return;
        }
        ab := member.value;
        sum := AddScalars(sum, sig[i].c);
      }
      FlatNext(entries, ab);
      entries := entries + [ab];
      buf := buf + ab;
    }
    ok := true;
  }

  /**
    Fills sig with one signature over the ring. k and draws are the random scalars. The run aborts (ok is false) when
    the key image or another member's key does not decode; otherwise the check accepts what it wrote.
    */
  method GenerateRingSignature<P(!new)>(e: Curve<P>, prefix: Bytes32, image: Bytes32, keys: seq<Bytes32>,
      sec: Bytes32, signer: nat, k: Bytes32, draws: seq<Signature>, sig: array<Signature>) returns (ok: bool)
    requires Lawful(e) && signer < |keys| == |draws| == sig.Length
    requires Le(sec) < L && Le(k) < L && forall i :: 0 <= i < |draws| ==> CanonicalSignature(draws[i])
    modifies sig
    ensures ok <==> e.decode(image).Some? && forall i :: 0 <= i < |keys| && i != signer ==> e.decode(keys[i]).Some?
    ensures ok && Owns(e, sec, keys[signer], image) ==> Accepted(e, prefix, image, keys, sig[..])
    ensures ok ==> forall i :: 0 <= i < |keys| && i != signer ==> sig[i] == draws[i]
  {
    hide Entry, Entries, SignerEntry, Lawful, OddMultiples, Le, HashScalar, Flat, OtherChallenges, Challenges,
      Accepted, Owns, IsResidue, CanonicalSignature;
    var imageUnp := e.decode(image);
    if imageUnp.None? {
      return false;
    }
    var imagePre := ImageTable(e, imageUnp.value);
    var buf, sum;
    ghost var entries;
    ok, buf, sum, entries := CommitRing(e, prefix, imageUnp.value, imagePre, keys, signer, k, draws, sig);
    if !ok {
      return;
    }
    var h := HashToScalar(e, buf);
    var c := SubScalars(h, sum);
    var r := MulSubScalars(c, sec, k);
    sig[signer] := Signature(c, r);
    ClosingSignature(sig[signer], OtherChallenges(draws, |keys|, signer), Le(sec), Le(k), Le(h));
    if Owns(e, sec, keys[signer], image) {
      SignerFits(e, image, keys, sec, signer, k, draws, sig[..], entries);
      Completes(e, prefix, image, keys, signer, draws, sig[..], entries,
        OtherChallenges(draws, |keys|, signer) + Le(c));
    }
  }

  /** With the signer's response, every entry is the one the check recomputes. */
  lemma SignerFits<P(!new)>(e: Curve<P>, image: Bytes32, keys: seq<Bytes32>, sec: Bytes32, signer: nat, k: Bytes32,
      draws: seq<Signature>, sigs: seq<Signature>, entries: seq<seq<byte>>)
    requires Lawful(e) && signer < |keys| == |draws| == |sigs| == |entries| && e.decode(image).Some?
    requires Owns(e, sec, keys[signer], image)
    requires forall i :: 0 <= i < |keys| && i != signer ==>
      && e.decode(keys[i]).Some? && sigs[i] == draws[i] && CanonicalSignature(sigs[i])
      && entries[i] == Entry(e, e.decode(image).value, keys[i], draws[i])
    requires entries[signer] == SignerEntry(e, keys[signer], k) && CanonicalSignature(sigs[signer])
    requires IsResidue(Le(sigs[signer].r), Le(k) - Le(sigs[signer].c) * Le(sec))
    ensures forall i :: 0 <= i < |keys| ==> e.decode(keys[i]).Some? && CanonicalSignature(sigs[i])
    ensures forall i :: 0 <= i < |keys| ==> entries[i] == Entry(e, e.decode(image).value, keys[i], sigs[i])
  {
    hide Entry, SignerEntry, Lawful, Le, Owns, IsResidue, CanonicalSignature;
    SignerRecomputed(e, image, keys[signer], sec, k, sigs[signer]);
  }

  lemma Completes<P(!new)>(e: Curve<P>, prefix: Bytes32, image: Bytes32, keys: seq<Bytes32>, signer: nat,
      draws: seq<Signature>, sigs: seq<Signature>, entries: seq<seq<byte>>, total: int)
    requires signer < |keys| == |draws| == |sigs| == |entries| && e.decode(image).Some?
    requires forall i :: 0 <= i < |keys| ==> e.decode(keys[i]).Some? && CanonicalSignature(sigs[i])
    requires forall i :: 0 <= i < |keys| ==> entries[i] == Entry(e, e.decode(image).value, keys[i], sigs[i])
    requires forall i :: 0 <= i < |keys| && i != signer ==> sigs[i] == draws[i]
    requires total == OtherChallenges(draws, |keys|, signer) + Le(sigs[signer].c)
    requires IsResidue(HashScalar(e, prefix + Flat(entries)), total)
    ensures Accepted(e, prefix, image, keys, sigs)
  {
    hide Entry, Entries, Le, HashScalar, Flat, OtherChallenges, Challenges;
    assert entries == Entries(e, e.decode(image).value, keys, sigs);
    AllChallenges(sigs, draws, |keys|, signer);
    assert Challenges(sigs, |sigs|) == total;
  }

  lemma DifferenceZero(x: int, y: int, m: int)
    requires 0 <= x < m && 0 <= y < m
    ensures (x - y) % m == 0 <==> x == y
  {
    if x < y {
      assert (x - y) % m == x - y + m by {
        SameResidue(x - y, x - y + m, 1, m);
      }
    }
  }
}
