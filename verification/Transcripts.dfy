// What a ring signature commits to: the string its challenges answer, and what two answers to one string give away.

module Transcripts {
  import opened Wrappers
  import opened ByteStrings
  import opened Curves
  import opened Groups
  import opened RingSignatures
  import opened Scalars

  // ---- The string the challenges answer ----

  /** At position k stand the encodings of cP + rB and rH(P) + cI. */
  ghost predicate CommitsAt<P>(e: Curve<P>, image: P, key: Bytes32, point: P, s: Signature, t: seq<byte>, k: nat) {
    && k + 64 <= |t|
    && t[k..k + 32] ==
      e.encode(e.group.add(Times(e.group, Le(s.c), point), Times(e.group, Le(s.r), e.base)))
    && t[k + 32..k + 64] ==
      e.encode(e.group.add(Times(e.group, Le(s.r), e.hashToEc(key)), Times(e.group, Le(s.c), image)))
  }

  /** The prefix, then the commitments of every member in ring order. */
  ghost predicate IsTranscript<P>(e: Curve<P>, prefix: Bytes32, image: Bytes32, keys: seq<Bytes32>,
      sigs: seq<Signature>, t: seq<byte>)
  {
    && |sigs| == |keys| && |t| == 32 + 64 * |keys| && t[..32] == prefix && e.decode(image).Some?
    && forall i :: 0 <= i < |keys| ==>
      && e.decode(keys[i]).Some?
      && CommitsAt(e, e.decode(image).value, keys[i], e.decode(keys[i]).value, sigs[i], t, 32 + 64 * i)
  }

  lemma EntryCommits<P>(e: Curve<P>, image: P, key: Bytes32, s: Signature, t: seq<byte>, k: nat)
    requires e.decode(key).Some? && k + 64 <= |t| && t[k..k + 64] == Entry(e, image, key, s)
    ensures CommitsAt(e, image, key, e.decode(key).value, s, t, k)
  {
    hide Times;
    assert t[k..k + 32] == t[k..k + 64][..32];
    assert t[k + 32..k + 64] == t[k..k + 64][32..];
  }

  lemma {:induction false} FlatAt(entries: seq<seq<byte>>)
    requires forall i :: 0 <= i < |entries| ==> |entries[i]| == 64
    ensures |Flat(entries)| == 64 * |entries|
    ensures forall i :: 0 <= i < |entries| ==> Flat(entries)[64 * i..64 * i + 64] == entries[i]
  {
    if |entries| > 0 {
      var n := |entries| - 1;
      FlatAt(entries[..n]);
      forall i | 0 <= i < |entries| ensures Flat(entries)[64 * i..64 * i + 64] == entries[i] {
        if i < n {
          assert Flat(entries)[64 * i..64 * i + 64] == Flat(entries[..n])[64 * i..64 * i + 64];
        }
      }
    }
  }

  /** What the check hashes is a transcript. */
  lemma HashedIsTranscript<P>(e: Curve<P>, prefix: Bytes32, image: Bytes32, keys: seq<Bytes32>, sigs: seq<Signature>)
    requires |sigs| == |keys| && e.decode(image).Some? && forall i :: 0 <= i < |keys| ==> e.decode(keys[i]).Some?
    ensures IsTranscript(e, prefix, image, keys, sigs, Commitments(e, prefix, e.decode(image).value, keys, sigs))
  {
    hide Times, Flat, CommitsAt;
    var entries := Entries(e, e.decode(image).value, keys, sigs);
    var t := Commitments(e, prefix, e.decode(image).value, keys, sigs);
    FlatAt(entries);
    assert t[..32] == prefix;
    forall i | 0 <= i < |keys|
      ensures CommitsAt(e, e.decode(image).value, keys[i], e.decode(keys[i]).value, sigs[i], t, 32 + 64 * i)
    {
      assert t[32 + 64 * i..32 + 64 * i + 64] == Flat(entries)[64 * i..64 * i + 64];
      EntryCommits(e, e.decode(image).value, keys[i], sigs[i], t, 32 + 64 * i);
    }
  }

  /** There is one transcript only. */
  lemma TranscriptUnique<P>(e: Curve<P>, prefix: Bytes32, image: Bytes32, keys: seq<Bytes32>, sigs: seq<Signature>,
      t: seq<byte>, u: seq<byte>)
    requires IsTranscript(e, prefix, image, keys, sigs, t) && IsTranscript(e, prefix, image, keys, sigs, u)
    ensures t == u
  {
    hide Times;
    forall k | 0 <= k < |t| ensures t[k] == u[k] {
      if k < 32 {
        assert t[k] == t[..32][k] && u[k] == u[..32][k];
      } else {
        var i, j := (k - 32) / 64, (k - 32) % 64;
        var at := 32 + 64 * i;
        assert CommitsAt(e, e.decode(image).value, keys[i], e.decode(keys[i]).value, sigs[i], t, at);
        assert CommitsAt(e, e.decode(image).value, keys[i], e.decode(keys[i]).value, sigs[i], u, at);
        if j < 32 {
          assert t[k] == t[at..at + 32][j] && u[k] == u[at..at + 32][j];
        } else {
          assert t[k] == t[at + 32..at + 64][j - 32] && u[k] == u[at + 32..at + 64][j - 32];
        }
      }
    }
  }

  // ---- Acceptance ----

  /** Changing one challenge changes the sum by as much. */
  lemma {:induction false} OneChallenge(sigs: seq<Signature>, i: nat, s: Signature, n: nat)
    requires i < |sigs| && n <= |sigs|
    ensures Challenges(sigs[i := s], n) - Challenges(sigs, n) == if i < n then Le(s.c) - Le(sigs[i].c) else 0
    decreases n
  {
    hide Le;
    if n > 0 {
      OneChallenge(sigs, i, s, n - 1);
    }
  }

  /**
    The check accepts exactly when scalars are canonical, keys and image are points, and the challenges add up to the
    hash of the transcript.
    */
  lemma AcceptedExactly<P>(e: Curve<P>, prefix: Bytes32, image: Bytes32, keys: seq<Bytes32>, sigs: seq<Signature>)
    ensures Accepted(e, prefix, image, keys, sigs) <==>
      && (forall i :: 0 <= i < |sigs| ==> Le(sigs[i].c) < L && Le(sigs[i].r) < L)
      && exists t :: (
        && IsTranscript(e, prefix, image, keys, sigs, t)
        && Challenges(sigs, |sigs|) % L == Le(e.fastHash(t)) % L)
  {
    hide Times, Le, Flat, Challenges, IsTranscript;
    if |sigs| == |keys| && e.decode(image).Some? && forall i :: 0 <= i < |keys| ==> e.decode(keys[i]).Some? {
      HashedIsTranscript(e, prefix, image, keys, sigs);
      var u := Commitments(e, prefix, e.decode(image).value, keys, sigs);
      forall t | IsTranscript(e, prefix, image, keys, sigs, t) ensures t == u {
        TranscriptUnique(e, prefix, image, keys, sigs, t, u);
      }
    } else {
      NoTranscript(e, prefix, image, keys, sigs);
    }
  }

  lemma NoTranscript<P>(e: Curve<P>, prefix: Bytes32, image: Bytes32, keys: seq<Bytes32>, sigs: seq<Signature>)
    requires !(|sigs| == |keys| && e.decode(image).Some? && forall i :: 0 <= i < |keys| ==> e.decode(keys[i]).Some?)
    ensures forall t :: !IsTranscript(e, prefix, image, keys, sigs, t)
  {
    hide Times, CommitsAt;
  }

  /** Where the hash takes the sum of the challenges on one string only, that string is the transcript. */
  lemma AnswersOne<P>(e: Curve<P>, prefix: Bytes32, image: Bytes32, keys: seq<Bytes32>, sigs: seq<Signature>,
      t: seq<byte>)
    requires Accepted(e, prefix, image, keys, sigs) && OnlyOn(e, t, Challenges(sigs, |sigs|) % L)
    ensures IsTranscript(e, prefix, image, keys, sigs, t)
  {
    hide Accepted, IsTranscript, Le, Challenges;
    AcceptedExactly(e, prefix, image, keys, sigs);
  }

  /**
    Signatures with one sum of challenges, accepted for two prefixes, images or rings, have one transcript, or yield two
    transcripts that collide.
    */
  lemma SumsBind<P>(e: Curve<P>, prefix: Bytes32, image: Bytes32, keys: seq<Bytes32>, sigs: seq<Signature>,
      prefix': Bytes32, image': Bytes32, keys': seq<Bytes32>, sigs': seq<Signature>)
      returns (t: seq<byte>, t': seq<byte>)
    requires Accepted(e, prefix, image, keys, sigs) && Accepted(e, prefix', image', keys', sigs')
    requires Challenges(sigs, |sigs|) % L == Challenges(sigs', |sigs'|) % L
    ensures IsTranscript(e, prefix, image, keys, sigs, t) && IsTranscript(e, prefix', image', keys', sigs', t')
    ensures t == t' || Collide(e, t, t')
  {
    hide Accepted, IsTranscript, Le, Challenges;
    AcceptedExactly(e, prefix, image, keys, sigs);
    AcceptedExactly(e, prefix', image', keys', sigs');
    t :| IsTranscript(e, prefix, image, keys, sigs, t) && Challenges(sigs, |sigs|) % L == Le(e.fastHash(t)) % L;
    t' :| IsTranscript(e, prefix', image', keys', sigs', t')
      && Challenges(sigs', |sigs'|) % L == Le(e.fastHash(t')) % L;
  }

  /** A signature accepted for two different prefixes yields two transcripts that collide. */
  lemma PrefixBound<P>(e: Curve<P>, prefix: Bytes32, prefix': Bytes32, image: Bytes32, keys: seq<Bytes32>,
      sigs: seq<Signature>) returns (t: seq<byte>, t': seq<byte>)
    requires Accepted(e, prefix, image, keys, sigs) && Accepted(e, prefix', image, keys, sigs) && prefix != prefix'
    ensures Collide(e, t, t') && |t| >= 32 && |t'| >= 32 && t[..32] == prefix && t'[..32] == prefix'
  {
    hide Accepted, Le, Challenges, CommitsAt;
    t, t' := SumsBind(e, prefix, image, keys, sigs, prefix', image, keys, sigs);
  }

  // ---- What two answers give away ----

  lemma Difference<P(!new)>(g: Group<P>, c: int, c': int, x: P, r: int, r': int, y: P)
    requires IsAbelian(g)
    requires g.add(Times(g, c, x), Times(g, r, y)) == g.add(Times(g, c', x), Times(g, r', y))
    ensures Times(g, c - c', x) == Times(g, r' - r, y)
  {
    hide Times;
    TimesSum(g, c - c', c', x);
    TimesSum(g, r' - r, r, y);
    var u, v, cx, ry := Times(g, c - c', x), Times(g, r' - r, y), Times(g, c', x), Times(g, r, y);
    Laws(g, u, cx, ry);
    Laws(g, v, ry, cx);
    Laws(g, ry, cx, cx);
    Laws(g, cx, ry, v);
    Laws(g, ry, v, v);
    assert g.add(g.add(u, cx), ry) == g.add(cx, g.add(v, ry));
    assert g.add(g.add(u, cx), ry) == g.add(u, g.add(cx, ry));
    assert g.add(cx, g.add(v, ry)) == g.add(v, g.add(cx, ry)) by {
      Laws(g, cx, g.add(v, ry), cx);
      Laws(g, v, ry, cx);
    }
    Cancel(g, u, v, g.add(cx, ry));
  }

  /**
    Two signatures of a member that commit to the same points: the difference of the challenges takes its key to the
    same multiple of the base point as it takes the image to of the hashed point, so they have one secret.
    */
  lemma TwoAnswers<P(!new)>(e: Curve<P>, image: P, key: Bytes32, point: P, s: Signature, s': Signature, t: seq<byte>,
      k: nat)
    requires Lawful(e) && CommitsAt(e, image, key, point, s, t, k) && CommitsAt(e, image, key, point, s', t, k)
    ensures Times(e.group, Le(s.c) - Le(s'.c), point) == Times(e.group, Le(s'.r) - Le(s.r), e.base)
    ensures Times(e.group, Le(s.c) - Le(s'.c), image) == Times(e.group, Le(s'.r) - Le(s.r), e.hashToEc(key))
  {
    hide Times, Le;
    var g := e.group;
    var a, a' := g.add(Times(g, Le(s.c), point), Times(g, Le(s.r), e.base)),
      g.add(Times(g, Le(s'.c), point), Times(g, Le(s'.r), e.base));
    var b, b' := g.add(Times(g, Le(s.r), e.hashToEc(key)), Times(g, Le(s.c), image)),
      g.add(Times(g, Le(s'.r), e.hashToEc(key)), Times(g, Le(s'.c), image));
    assert e.decode(e.encode(a)) == Some(a) && e.decode(e.encode(a')) == Some(a');
    assert e.decode(e.encode(b)) == Some(b) && e.decode(e.encode(b')) == Some(b');
    Difference(g, Le(s.c), Le(s'.c), point, Le(s.r), Le(s'.r), e.base);
    Difference(g, Le(s'.r), Le(s.r), e.hashToEc(key), Le(s'.c), Le(s.c), image);
  }
}
