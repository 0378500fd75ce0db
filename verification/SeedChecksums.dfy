// What the checksum word of a seed catches: of all words of the list, one completes the words of a key.

module SeedChecksums {
  import opened Wrappers
  import opened ByteStrings
  import opened ElectrumWords

  // ---- What the checksum is taken of ----

  /** One word adds the list's own prefix of it, or nothing when the list does not have it. */
  lemma PrefixesOne(l: Language, w: string)
    ensures Prefixes(l, []) == ""
    ensures var found := FindWord(l, w, true);
      Prefixes(l, [w]) == if found.Some? then l.prefix(l.words[found.value]) else ""
  {
    hide FindWord;
    assert [w][..0] == [];
    assert Prefixes(l, []) == "";
  }

  /** The words of a seed add theirs in order. */
  lemma {:induction false} PrefixesJoin(l: Language, seed: seq<string>, more: seq<string>)
    ensures Prefixes(l, seed + more) == Prefixes(l, seed) + Prefixes(l, more)
    decreases |more|
  {
    hide FindWord, Trimmed;
    if |more| == 0 {
      assert seed + more == seed;
    } else {
      PrefixesJoin(l, seed, more[..|more| - 1]);
      assert (seed + more)[..|seed + more| - 1] == seed + more[..|more| - 1];
    }
  }

  // ---- The word that completes a seed ----

  /** The last word is compared with the one the checksum of the others selects, by prefix and up to case. */
  lemma CheckedWord(l: Language, crc: string -> nat, front: seq<string>, w: string)
    requires |front| > 0
    ensures ChecksumHolds(l, crc, front + [w]) <==>
      l.fold(l.prefix(front[crc(Prefixes(l, front)) % |front|])) == l.fold(l.prefix(w))
  {
    assert (front + [w])[..|front|] == front;
  }

  /** Seeds that differ in their last words only and are both accepted end in the same word up to prefix and case. */
  method TestTwoWords(l: Language, crc: string -> nat, front: seq<string>, w: string, w': string)
    returns (ok: Option<bool>, ok': Option<bool>)
    requires |front| > 0
    ensures ok.Some? <==> AllKnown(l, front, true)
    ensures ok'.Some? <==> AllKnown(l, front, true)
    ensures ok == Some(true) ==>
      ok' == Some(l.fold(l.prefix(w)) == l.fold(l.prefix(w')))
  {
    hide FindWord, Prefixes, ChecksumHolds;
    CheckedWord(l, crc, front, w);
    CheckedWord(l, crc, front, w');
    assert (front + [w])[..|front|] == front && (front + [w'])[..|front|] == front;
    ok := ChecksumTest(l, crc, front + [w]);
    ok' := ChecksumTest(l, crc, front + [w']);
  }

  /** Known words are completed by exactly one word of the list. */
  lemma OneWordCompletes(l: Language, crc: string -> nat, front: seq<string>) returns (c: nat)
    requires Usable(l) && |front| > 0 && AllKnown(l, front, true)
    ensures c < N && FindWord(l, front[crc(Prefixes(l, front)) % |front|], true) == Some(c)
    ensures forall j :: 0 <= j < N ==> (ChecksumHolds(l, crc, front + [l.words[j]]) <==> j == c)
  {
    hide Prefixes, ChecksumHolds;
    UsableSize(l);
    var chosen := front[crc(Prefixes(l, front)) % |front|];
    c := FindWord(l, chosen, true).value;
    forall j | 0 <= j < N ensures ChecksumHolds(l, crc, front + [l.words[j]]) <==> j == c {
      CheckedWord(l, crc, front, l.words[j]);
      DifferentPrefixes(l, j, c);
    }
  }

  lemma DifferentPrefixes(l: Language, i: nat, j: nat)
    requires Usable(l) && i < N && j < N
    ensures SameWord(l, l.prefix(l.words[i]), l.prefix(l.words[j])) <==> i == j
  {
    assert Trimmed(l)[i] == l.prefix(l.words[i]) && Trimmed(l)[j] == l.prefix(l.words[j]);
  }

  /** The index of the word that follows the words of a key. */
  function ChecksumWord(l: Language, crc: string -> nat, src: seq<byte>): (c: nat)
    requires |l.words| == N && |src| > 0 && |src| % 4 == 0
    ensures c < N
  {
    var indices := Indices(src, |src| / 4);
    indices[crc(Prefixes(l, Spelled(l, indices))) % |indices|]
  }

  /** A word on top of the words of n groups is their checksum, with their length expected or none. */
  lemma WithChecksum(n: nat, len: nat)
    requires len == 0 || len == 4 * n
    ensures HasChecksum(3 * n + 1, len) && RightLength(3 * n + 1, len) && Triples(3 * n + 1, len) == n
  {
  }

  /**
    The words of a key followed by word j of the list, read without an expected length or with the key's: back comes the
    key for one j, and nothing for the others.
    */
  method ReadWithLastWord(l: Language, crc: string -> nat, src: seq<byte>, j: nat, len: nat)
    returns (back: Option<seq<byte>>)
    requires Usable(l) && |src| > 0 && |src| % 4 == 0 && j < N && (len == 0 || len == |src|)
    ensures |l.words| == N
    ensures back == if j == ChecksumWord(l, crc, src) then Some(src) else None
  {
    hide Usable, Bytes, Indices, FindWord, Prefixes, ChecksumHolds, HasChecksum, RightLength, Triples;
    UsableSize(l);
    var written := BytesToWords(l, crc, src);
    var n := |src| / 4;
    WithChecksum(n, len);
    ghost var indices := Indices(src, n);
    ghost var store := Spelled(l, indices);
    KnownWords(l, store, indices, true);
    var words := written.value[..|written.value| - 1] + [l.words[j]];
    assert written.value[..|written.value| - 1] == store;
    ghost var c := OneWordCompletes(l, crc, store);
    FindsWord(l, j, true);
    assert AllKnown(l, words, true);
    assert Matched(l, words, true)[..3 * n] == indices;
    IndicesBijection(src, Matched(l, words, true), n);
    assert src[..4 * n] == src;
    back := WordsToBytes(l, crc, words, len, false);
  }

  /** The words of n groups alone: all words of their own length, half those of twice it, never words and a checksum. */
  lemma WithoutChecksum(n: nat, len: nat)
    requires n > 0 && len > 0
    ensures len == 4 * n || len == 8 * n ==>
      !HasChecksum(3 * n, len) && RightLength(3 * n, len) && Triples(3 * n, len) == n
  {
  }

  lemma ReadableLength(words: nat, len: nat)
    requires RightLength(words, len) && len > 0
    ensures len % 4 == 0 && (words == len * 3 / 4 / 2 || words == len * 3 / 4 || words == len * 3 / 4 + 1)
  {
  }

  /**
    The words of a key alone, read with an expected length: they give the key back when that is its length or twice it,
    and nothing when they are too few or too many for it.
    */
  method ReadWithoutChecksum(l: Language, crc: string -> nat, src: seq<byte>, len: nat)
    returns (back: Option<seq<byte>>)
    requires Usable(l) && |src| > 0 && |src| % 4 == 0 && len > 0
    ensures len == |src| || len == 2 * |src| ==> back == Some(src)
    ensures back.Some? ==> len % 4 == 0
    ensures back.Some? ==>
      var n := 3 * |src| / 4; n == len * 3 / 4 / 2 || n == len * 3 / 4 || n == len * 3 / 4 + 1
  {
    hide Usable, Bytes, Indices, FindWord, Prefixes, ChecksumHolds, HasChecksum, RightLength, Triples;
    UsableSize(l);
    var n := |src| / 4;
    WithoutChecksum(n, len);
    var written := BytesToWords(l, crc, src);
    ghost var indices := Indices(src, n);
    ghost var store := Spelled(l, indices);
    var words := written.value[..|written.value| - 1];
    assert words == store;
    KnownWords(l, store, indices, false);
    assert Matched(l, words, false) == indices;
    IndicesBijection(src, indices, n);
    assert src[..4 * n] == src && indices[..3 * n] == indices;
    if RightLength(3 * n, len) {
      ReadableLength(3 * n, len);
    }
    back := WordsToBytes(l, crc, words, len, false);
  }

  // ---- Lookup ----

  /** By prefix a word is known when the list has one of the same prefix, otherwise only when it has the word itself. */
  lemma KnownExactly(l: Language, w: string)
    ensures FindWord(l, w, true).Some? <==>
      exists i :: 0 <= i < |l.words| && l.fold(l.prefix(l.words[i])) == l.fold(l.prefix(w))
    ensures FindWord(l, w, false).Some? <==> exists i :: 0 <= i < |l.words| && l.fold(l.words[i]) == l.fold(w)
  {
    hide Find;
    var found, whole := Find(l, Trimmed(l), l.prefix(w), 0), Find(l, l.words, w, 0);
    assert forall i :: 0 <= i < |l.words| ==> Trimmed(l)[i] == l.prefix(l.words[i]);
    if found.None? {
      assert forall k :: 0 <= k < |Trimmed(l)| ==> !SameWord(l, Trimmed(l)[k], l.prefix(w));
    }
    if whole.None? {
      assert forall k :: 0 <= k < |l.words| ==> !SameWord(l, l.words[k], w);
    }
  }

  /** There are lists of 1626 such words. */
  lemma UsableExists() returns (l: Language)
    ensures Usable(l)
  {
    l := Language(seq(N, i requires 0 <= i < N => seq(i, _ => 'a')), w => w, w => w);
    forall i, j | 0 <= i < j < N ensures !SameWord(l, l.words[i], l.words[j]) {
      assert |l.words[i]| != |l.words[j]|;
    }
  }

  // ---- Spelling ----

  /** A lookup depends on a word up to case only. */
  lemma {:induction false} FindSame(l: Language, keys: seq<string>, w: string, w': string, i: nat)
    requires i <= |keys| && SameWord(l, w, w')
    ensures Find(l, keys, w, i) == Find(l, keys, w', i)
    decreases |keys| - i
  {
    if i < |keys| {
      FindSame(l, keys, w, w', i + 1);
    }
  }

  /** Seeds whose words agree up to prefix and case have the same indices, and pass or fail the checksum together. */
  lemma SpellingIsFree(l: Language, crc: string -> nat, seed: seq<string>, seed': seq<string>)
    requires |l.words| == N && 1 < |seed| == |seed'|
    requires forall k :: 0 <= k < |seed| ==> SameWord(l, l.prefix(seed[k]), l.prefix(seed'[k]))
    ensures AllKnown(l, seed, true) <==> AllKnown(l, seed', true)
    ensures AllKnown(l, seed, true) ==> Matched(l, seed, true) == Matched(l, seed', true)
    ensures ChecksumHolds(l, crc, seed) <==> ChecksumHolds(l, crc, seed')
  {
    hide FindWord, Prefixes, ChecksumHolds, SameWord;
    forall k | 0 <= k < |seed| ensures FindWord(l, seed[k], true) == FindWord(l, seed'[k], true) {
      FoundSame(l, seed[k], seed'[k]);
    }
    SamePrefixes(l, seed[..|seed| - 1], seed'[..|seed| - 1]);
    SameChecksum(l, crc, seed, seed');
  }

  lemma FoundSame(l: Language, w: string, w': string)
    requires SameWord(l, l.prefix(w), l.prefix(w'))
    ensures FindWord(l, w, true) == FindWord(l, w', true)
  {
    FindSame(l, Trimmed(l), l.prefix(w), l.prefix(w'), 0);
  }

  lemma SameChecksum(l: Language, crc: string -> nat, seed: seq<string>, seed': seq<string>)
    requires 1 < |seed| == |seed'|
    requires forall k :: 0 <= k < |seed| ==> SameWord(l, l.prefix(seed[k]), l.prefix(seed'[k]))
    requires Prefixes(l, seed[..|seed| - 1]) == Prefixes(l, seed'[..|seed| - 1])
    ensures ChecksumHolds(l, crc, seed) <==> ChecksumHolds(l, crc, seed')
  {
    hide Prefixes;
  }

  lemma {:induction false} SamePrefixes(l: Language, seed: seq<string>, seed': seq<string>)
    requires |seed| == |seed'|
    requires forall k :: 0 <= k < |seed| ==> FindWord(l, seed[k], true) == FindWord(l, seed'[k], true)
    ensures Prefixes(l, seed) == Prefixes(l, seed')
    decreases |seed|
  {
    hide FindWord;
    if |seed| > 0 {
      SamePrefixes(l, seed[..|seed| - 1], seed'[..|seed| - 1]);
    }
  }
}
