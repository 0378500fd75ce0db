// mnemonics/electrum-words.cpp: four bytes as three of 1626 words, with one of the words repeated as a checksum.

module ElectrumWords {
  import opened Arithmetic
  import opened Wrappers
  import opened ByteStrings

  const N: nat := 1626
  const TWO32: nat := 0x1_0000_0000

  datatype Triple = Triple(w1: nat, w2: nat, w3: nat) {
    predicate InList() { w1 < N && w2 < N && w3 < N }
  }

  /** The indices bytes_to_words writes for a 32-bit value. */
  function Split(x: nat): (t: Triple)
    requires x < TWO32
    ensures t.InList()
  {
    var w1 := x % N;
    var w2 := (x / N + w1) % N;
    Triple(w1, w2, (x / N / N + w2) % N)
  }

  /** The number the indices stand for in base 1626, each digit taken relative to the one before. */
  function Number(t: Triple): (v: nat)
    requires t.InList()
    ensures v < N * N * N < 2 * TWO32
  {
    t.w1 + N * ((N - t.w1 + t.w2) % N) + N * N * ((N - t.w2 + t.w3) % N)
  }

  /** words_to_bytes on one triple: computed in 32 bits, and refused when the residue of the result is off. */
  function Join(t: Triple): Option<nat>
    requires t.InList()
  {
    var w0 := (t.w1 + N * ((N - t.w1 + t.w2) % N) % TWO32 + N * N * ((N - t.w2 + t.w3) % N) % TWO32) % TWO32;
    if w0 % N == t.w1 then Some(w0) else None
  }

  /** The residue test refuses exactly the triples whose number needs more than 32 bits. */
  lemma JoinRange(t: Triple)
    requires t.InList()
    ensures Join(t) == if Number(t) < TWO32 then Some(Number(t)) else None
  {
    var a, b := (N - t.w1 + t.w2) % N, (N - t.w2 + t.w3) % N;
    WrapsOnce(t.w1, N * a, N * N * b);
    Residue(t.w1, a, b);
  }

  lemma WrapsOnce(x: nat, y: nat, z: nat)
    requires x + y + z < 2 * TWO32
    ensures var v := x + y + z; (x + y % TWO32 + z % TWO32) % TWO32 == if v < TWO32 then v else v - TWO32
  {
  }

  /** 2^32 is no multiple of 1626, so taking it off changes the residue. */
  lemma Residue(w: nat, a: nat, b: nat)
    requires w < N
    ensures var v := w + N * a + N * N * b; v % N == w && (v >= TWO32 ==> (v - TWO32) % N != w)
  {
  }

  lemma Relative(w: nat, q: nat)
    requires w < N
    ensures (N - w + (q + w) % N) % N == q % N
  {
    var d := q % N;
    assert (q + w) % N == if d + w < N then d + w else d + w - N;
  }

  lemma Absolute(w: nat, v: nat)
    requires w < N && v < N
    ensures ((N - w + v) % N + w) % N == v
  {
  }

  /** Three digits in base 1626 and back. */
  lemma Digits(d1: nat, d2: nat, d3: nat)
    requires d1 < N && d2 < N && d3 < N
    ensures var x := d1 + N * d2 + N * N * d3; x % N == d1 && x / N % N == d2 && x / N / N == d3
  {
    var x := d1 + N * d2 + N * N * d3;
    assert x / N == d2 + N * d3;
  }

  lemma SplitNumber(x: nat)
    requires x < TWO32
    ensures Number(Split(x)) == x
  {
    hide Number, Split;
    var q := x / N;
    SplitDigits(x, q, q / N);
    DigitsNumber(Split(x), q % N, q / N);
    Recomposed(x, q, q / N);
  }

  /** The base 1626 digits of x, read back from the indices. */
  lemma SplitDigits(x: nat, q: nat, r: nat)
    requires x < TWO32 && q == x / N && r == q / N
    ensures var t := Split(x); t.w1 == x % N && (N - t.w1 + t.w2) % N == q % N && (N - t.w2 + t.w3) % N == r
  {
    hide Split;
    var w1, w2 := x % N, (q + x % N) % N;
    SplitIs(x, q, r);
    Relative(w1, q);
    Relative(w2, r);
    TopDigit(x, q, r);
  }

  lemma SplitIs(x: nat, q: nat, r: nat)
    requires x < TWO32 && q == x / N && r == q / N
    ensures Split(x) == Triple(x % N, (q + x % N) % N, (r + (q + x % N) % N) % N)
  {
  }

  lemma TopDigit(x: nat, q: nat, r: nat)
    requires x < TWO32 && q == x / N && r == q / N
    ensures r % N == r
  {
  }

  lemma DigitsNumber(t: Triple, d2: nat, d3: nat)
    requires t.InList() && (N - t.w1 + t.w2) % N == d2 && (N - t.w2 + t.w3) % N == d3
    ensures Number(t) == t.w1 + N * d2 + N * N * d3
  {
  }

  lemma Recomposed(x: nat, q: nat, r: nat)
    requires q == x / N && r == q / N
    ensures x % N + N * (q % N) + N * N * r == x
  {
  }

  lemma NumberSplit(t: Triple)
    requires t.InList() && Number(t) < TWO32
    ensures Split(Number(t)) == t
  {
    var a, b := (N - t.w1 + t.w2) % N, (N - t.w2 + t.w3) % N;
    var x := Number(t);
    Digits(t.w1, a, b);
    Absolute(t.w1, t.w2);
    Absolute(t.w2, t.w3);
    ModSum(x / N, t.w1, N);
    assert (x / N + t.w1) % N == t.w2;
  }

  /** The triples accepted are exactly those written for some value, and they give it back. */
  lemma SplitJoin(t: Triple, x: nat)
    requires t.InList() && x < TWO32
    ensures Join(t) == Some(x) <==> t == Split(x)
  {
    JoinRange(t);
    SplitNumber(x);
    if Number(t) < TWO32 {
      NumberSplit(t);
    }
  }

  // ---- Seeds ----

  /** Group g of four bytes, read as a little-endian number. */
  function Group(src: seq<byte>, g: nat): (x: nat)
    requires 4 * g + 4 <= |src|
    ensures x < TWO32
  {
    Load4(src, 4 * g) as int
  }

  /** The word indices of the first g groups. */
  function Indices(src: seq<byte>, g: nat): (r: seq<nat>)
    requires 4 * g <= |src|
    ensures |r| == 3 * g && forall k :: 0 <= k < |r| ==> r[k] < N
  {
    if g == 0 then []
    else
      var t := Split(Group(src, g - 1));
      Indices(src, g - 1) + [t.w1, t.w2, t.w3]
  }

  /** The bytes the first g triples of indices stand for, if none of them is refused. */
  function Bytes(indices: seq<nat>, g: nat): Option<seq<byte>>
    requires 3 * g <= |indices| && forall k :: 0 <= k < |indices| ==> indices[k] < N
  {
    if g == 0 then Some([])
    else
      var x := Join(Triple(indices[3 * g - 3], indices[3 * g - 2], indices[3 * g - 1]));
      var front := Bytes(indices, g - 1);
      if front.None? || x.None? then None else Some(front.value + LeBytes(x.value, 4))
  }

  lemma FourBytesBack(src: seq<byte>, g: nat)
    requires 4 * g + 4 <= |src|
    ensures LeBytes(Group(src, g), 4) == src[4 * g..4 * g + 4]
  {
    var s := src[4 * g..4 * g + 4];
    LoadedFrom(s, 0);
    assert LeFrom(s, 4) == 0;
    assert Pow256(4) == TWO32;
    LeBytesValue(Group(src, g), 4);
    LeInjective(LeBytes(Group(src, g), 4), s);
  }

  /** Seeds stand for one value each: bytes come back from their own indices, and only from those. */
  lemma {:induction false} IndicesBijection(src: seq<byte>, indices: seq<nat>, g: nat)
    requires 4 * g <= |src| && 3 * g <= |indices| && forall k :: 0 <= k < |indices| ==> indices[k] < N
    ensures Bytes(indices, g) == Some(src[..4 * g]) <==> indices[..3 * g] == Indices(src, g)
    decreases g
  {
    hide Split, Join, LeBytes, Group;
    if g > 0 {
      IndicesBijection(src, indices, g - 1);
      var t := Triple(indices[3 * g - 3], indices[3 * g - 2], indices[3 * g - 1]);
      SplitJoin(t, Group(src, g - 1));
      FourBytesBack(src, g - 1);
      assert src[..4 * g] == src[..4 * g - 4] + src[4 * g - 4..4 * g];
      assert indices[..3 * g] == indices[..3 * g - 3] + [t.w1, t.w2, t.w3];
      JoinBytes(src, g - 1, t);
    }
  }

  lemma JoinBytes(src: seq<byte>, g: nat, t: Triple)
    requires 4 * g + 4 <= |src| && t.InList()
    ensures Join(t).Some? && LeBytes(Join(t).value, 4) == src[4 * g..4 * g + 4] ==> Join(t) == Some(Group(src, g))
  {
    JoinRange(t);
    if Join(t).Some? && LeBytes(Join(t).value, 4) == src[4 * g..4 * g + 4] {
      FourBytesBack(src, g);
      assert Pow256(4) == TWO32;
      LeBytesValue(Join(t).value, 4);
      LeBytesValue(Group(src, g), 4);
    }
  }

  // ---- Words of one language ----

  // A word list, the prefix its words are told apart by (utf8prefix at the unique prefix length, which leaves shorter
  // words as they are) and the canonical lower-case form in which words are compared.
  datatype Language = Language(words: seq<string>, prefix: string -> string, fold: string -> string)

  /** WordEqual */
  predicate SameWord(l: Language, a: string, b: string) { l.fold(a) == l.fold(b) }

  function Trimmed(l: Language): (keys: seq<string>)
    ensures |keys| == |l.words| && forall i :: 0 <= i < |keys| ==> keys[i] == l.prefix(l.words[i])
  {
    seq(|l.words|, i requires 0 <= i < |l.words| => l.prefix(l.words[i]))
  }

  /** 1626 words that differ, and whose prefixes differ, by more than their case. */
  ghost predicate Usable(l: Language) {
    && |l.words| == N
    && (forall i, j :: 0 <= i < j < N ==> !SameWord(l, Trimmed(l)[i], Trimmed(l)[j]))
    && (forall i, j :: 0 <= i < j < N ==> !SameWord(l, l.words[i], l.words[j]))
  }

  /** A word map: the index of the key that is the same word. */
  function Find(l: Language, keys: seq<string>, w: string, i: nat): (r: Option<nat>)
    requires i <= |keys|
    ensures r.Some? ==> i <= r.value < |keys| && SameWord(l, keys[r.value], w)
    ensures r.None? ==> forall k :: i <= k < |keys| ==> !SameWord(l, keys[k], w)
    decreases |keys| - i
  {
    if i == |keys| then None else if SameWord(l, keys[i], w) then Some(i) else Find(l, keys, w, i + 1)
  }

  /** Lookup by prefix, in the trimmed word map, or by the whole word. */
  function FindWord(l: Language, w: string, byPrefix: bool): (r: Option<nat>)
    ensures r.Some? ==> r.value < |l.words|
  {
    if byPrefix then Find(l, Trimmed(l), l.prefix(w), 0) else Find(l, l.words, w, 0)
  }

  lemma FindsWord(l: Language, i: nat, byPrefix: bool)
    requires Usable(l) && i < N
    ensures FindWord(l, l.words[i], byPrefix) == Some(i)
  {
    assert Trimmed(l)[i] == l.prefix(l.words[i]);
  }

  /** The list's own prefixes of the words of a seed, one after the other; words it does not have add nothing. */
  function Prefixes(l: Language, seed: seq<string>): string {
    if |seed| == 0 then ""
    else
      var found := FindWord(l, seed[|seed| - 1], true);
      Prefixes(l, seed[..|seed| - 1]) + if found.Some? then Trimmed(l)[found.value] else ""
  }

  predicate AllKnown(l: Language, seed: seq<string>, byPrefix: bool) {
    forall k :: 0 <= k < |seed| ==> FindWord(l, seed[k], byPrefix).Some?
  }

  /** create_checksum_index: None stands for the exception on an unknown word. */
  method CreateChecksumIndex(l: Language, crc: string -> nat, seed: seq<string>) returns (idx: Option<nat>)
    requires |seed| > 0
    ensures idx.Some? <==> AllKnown(l, seed, true)
    ensures idx.Some? ==> idx.value == crc(Prefixes(l, seed)) % |seed| < |seed|
  {
    hide FindWord, Trimmed;
    var trimmed := "";
    for i := 0 to |seed|
      invariant AllKnown(l, seed[..i], true) && trimmed == Prefixes(l, seed[..i])
    {
      assert seed[..i + 1][..i] == seed[..i];
      var found := FindWord(l, seed[i], true);
      if found.None? {
        return None;
      }
      trimmed := trimmed + Trimmed(l)[found.value];
    }
    assert seed[..|seed|] == seed;
    return Some(crc(trimmed) % |seed|);
  }

  /** The last word has the prefix of the one the checksum of the others selects. */
  predicate ChecksumHolds(l: Language, crc: string -> nat, seed: seq<string>)
    requires |seed| > 1
  {
    var front := seed[..|seed| - 1];
    SameWord(l, l.prefix(front[crc(Prefixes(l, front)) % |front|]), l.prefix(seed[|seed| - 1]))
  }

  /** checksum_test; on a single word the source divides by zero. */
  method ChecksumTest(l: Language, crc: string -> nat, seed: seq<string>) returns (ok: Option<bool>)
    requires |seed| != 1
    ensures |seed| == 0 ==> ok == Some(false)
    ensures |seed| > 1 ==> (ok.Some? <==> AllKnown(l, seed[..|seed| - 1], true))
    ensures |seed| > 1 && ok.Some? ==> (ok.value <==> ChecksumHolds(l, crc, seed))
  {
    if |seed| == 0 {
      return Some(false);
    }
    var front := seed[..|seed| - 1];
    var idx := CreateChecksumIndex(l, crc, front);
    if idx.None? {
      return None;
    }
    ok := Some(SameWord(l, l.prefix(front[idx.value]), l.prefix(seed[|seed| - 1])));
  }

  function Spelled(l: Language, indices: seq<nat>): (r: seq<string>)
    requires |l.words| == N && forall k :: 0 <= k < |indices| ==> indices[k] < N
    ensures |r| == |indices| && forall k :: 0 <= k < |r| ==> r[k] == l.words[indices[k]]
  {
    seq(|indices|, k requires 0 <= k < |indices| => l.words[indices[k]])
  }

  /** The words of src followed by the one their checksum selects. */
  ghost predicate WrittenAs(l: Language, crc: string -> nat, src: seq<byte>, words: seq<string>)
    requires |l.words| == N && |src| > 0 && |src| % 4 == 0
  {
    var store := Spelled(l, Indices(src, |src| / 4));
    words == store + [store[crc(Prefixes(l, store)) % |store|]]
  }

  /** bytes_to_words in a fixed language; the words are joined by spaces. */
  method BytesToWords(l: Language, crc: string -> nat, src: seq<byte>) returns (words: Option<seq<string>>)
    requires Usable(l)
    ensures words.Some? <==> |src| > 0 && |src| % 4 == 0
    ensures words.Some? ==> WrittenAs(l, crc, src, words.value)
  {
    hide Split, Group, FindWord, Usable;
    if |src| % 4 != 0 || |src| == 0 {
      return None;
    }
    UsableSize(l);
    var store: seq<string> := [];
    for i := 0 to |src| / 4
      invariant store == Spelled(l, Indices(src, i))
    {
      var t := Split(Group(src, i));
      store := store + [l.words[t.w1]] + [l.words[t.w2]] + [l.words[t.w3]];
    }
    KnownWords(l, store, Indices(src, |src| / 4), true);
    var idx := CreateChecksumIndex(l, crc, store);
    words := Some(store + [store[idx.value]]);
  }

  lemma UsableSize(l: Language)
    requires Usable(l)
    ensures |l.words| == N
  {
  }

  lemma KnownWords(l: Language, store: seq<string>, indices: seq<nat>, byPrefix: bool)
    requires Usable(l) && (forall k :: 0 <= k < |indices| ==> indices[k] < N) && store == Spelled(l, indices)
    ensures AllKnown(l, store, byPrefix)
    ensures forall k :: 0 <= k < |store| ==> FindWord(l, store[k], byPrefix) == Some(indices[k])
  {
    hide FindWord;
    forall k | 0 <= k < |store| ensures FindWord(l, store[k], byPrefix) == Some(indices[k]) {
      FindsWord(l, indices[k], byPrefix);
    }
  }

  /** The indices of the words of a seed. */
  function Matched(l: Language, seed: seq<string>, byPrefix: bool): (r: seq<nat>)
    requires |l.words| == N && AllKnown(l, seed, byPrefix)
    ensures |r| == |seed| && forall k :: 0 <= k < |r| ==> r[k] < N
  {
    seq(|seed|, k requires 0 <= k < |seed| => FindWord(l, seed[k], byPrefix).value)
  }

  /** find_seed_language with one language: every word looked up, by its prefix if a checksum follows. */
  method MatchWords(l: Language, seed: seq<string>, hasChecksum: bool) returns (indices: Option<seq<nat>>)
    requires |l.words| == N
    ensures indices.Some? <==> AllKnown(l, seed, hasChecksum)
    ensures indices.Some? ==> indices.value == Matched(l, seed, hasChecksum)
  {
    hide FindWord;
    var matched := [];
    for k := 0 to |seed|
      invariant |matched| == k && forall j :: 0 <= j < k ==> FindWord(l, seed[j], hasChecksum) == Some(matched[j])
      invariant forall j :: 0 <= j < k ==> matched[j] < N
    {
      var found := FindWord(l, seed[k], hasChecksum);
      if found.None? {
        return None;
      }
      matched := matched + [found.value];
    }
    indices := Some(matched);
  }

  /** The loop of words_to_bytes over triples of indices. */
  method JoinTriples(indices: seq<nat>, count: nat) returns (dst: Option<seq<byte>>)
    requires 3 * count <= |indices| && forall k :: 0 <= k < |indices| ==> indices[k] < N
    ensures dst == Bytes(indices, count)
  {
    hide Join, LeBytes;
    var bytes := [];
    for i := 0 to count
      invariant Bytes(indices, i) == Some(bytes)
    {
      var x := Join(Triple(indices[3 * i], indices[3 * i + 1], indices[3 * i + 2]));
      if x.None? {
        Refused(indices, i + 1, count);
        return None;
      }
      bytes := bytes + LeBytes(x.value, 4);
    }
    dst := Some(bytes);
  }

  /** Whether the last word of a seed is its checksum; without an expected number of bytes it always is. */
  predicate HasChecksum(words: nat, len: nat) { len == 0 || words == len * 3 / 4 + 1 }

  /**
    A number of words words_to_bytes reads: any without an expected length, or half the words, all, or all and a
    checksum.
    */
  predicate RightLength(words: nat, len: nat) {
    && len % 4 == 0
    && (len > 0 ==> words == len * 3 / 4 / 2 || words == len * 3 / 4 || words == len * 3 / 4 + 1)
  }

  /** The triples a seed of that many words is read as. */
  function Triples(words: nat, len: nat): (count: nat)
    ensures 3 * count <= words
  {
    if HasChecksum(words, len) && words > 0 then (words - 1) / 3 else words / 3
  }

  /** words_to_bytes in one language, expecting len bytes (0 if unknown); half the words come back as half the bytes. */
  method WordsToBytes(l: Language, crc: string -> nat, words: seq<string>, len: nat, duplicate: bool)
    returns (dst: Option<seq<byte>>)
    requires Usable(l) && (len == 0 ==> |words| != 1)
    ensures |l.words| == N
    ensures dst.Some? <==>
      && RightLength(|words|, len) && AllKnown(l, words, HasChecksum(|words|, len))
      && (HasChecksum(|words|, len) ==> |words| > 1 && ChecksumHolds(l, crc, words))
      && Bytes(Matched(l, words, HasChecksum(|words|, len)), Triples(|words|, len)).Some?
    ensures dst.Some? ==> dst == Bytes(Matched(l, words, HasChecksum(|words|, len)), Triples(|words|, len))
  {
    hide FindWord, Usable, Bytes, Prefixes, ChecksumHolds;
    UsableSize(l);
    var seed := words;
    if len % 4 != 0 {
      return None;
    }
    var hasChecksum := true;
    if len > 0 {
      var expected := len * 8 * 3 / 32;
      if |seed| != expected / 2 && |seed| != expected && |seed| != expected + 1 {
        return None;
      }
      hasChecksum := |seed| == expected + 1;
    }
    var indices := MatchWords(l, seed, hasChecksum);
    if indices.None? {
      return None;
    }
    if hasChecksum {
      var ok := ChecksumTest(l, crc, seed);
      if ok != Some(true) {
        return None;
      }
      seed := seed[..|seed| - 1];
    }
    dst := JoinTriples(indices.value, |seed| / 3);
    if dst.Some? && len > 0 && duplicate {
      NeverDoubled(|words|, len);
      var doubled := DoubledIfHalf(dst.value, |seed|, len * 3 / 32);
      dst := Some(doubled);
    }
  }

  method DoubledIfHalf(bytes: seq<byte>, words: nat, expected: nat) returns (dst: seq<byte>)
    ensures dst == if words == expected / 2 then bytes + bytes else bytes
  {
    dst := bytes;
    if words == expected / 2 {
      dst := dst + dst;
    }
  }

  /** The doubling of half-length seeds compares with an eighth of half the words, so it never happens. */
  lemma NeverDoubled(words: nat, len: nat)
    requires RightLength(words, len) && len > 0
    ensures (if HasChecksum(words, len) then words - 1 else words) != len * 3 / 32 / 2
  {
  }

  /** words_to_bytes for a secret key: 32 bytes expected, half-length seeds asked to be doubled. */
  method KeyFromWords(l: Language, crc: string -> nat, words: seq<string>) returns (key: Option<Bytes32>)
    requires Usable(l)
    ensures |l.words| == N
    ensures key.Some? <==>
      && (|words| == 24 || |words| == 25) && AllKnown(l, words, |words| == 25)
      && (|words| == 25 ==> ChecksumHolds(l, crc, words))
      && Bytes(Matched(l, words, |words| == 25), 8).Some?
    ensures key.Some? ==> Bytes(Matched(l, words, |words| == 25), 8).value == key.value
  {
    hide Usable, AllKnown, ChecksumHolds, Bytes;
    var dst := WordsToBytes(l, crc, words, 32, true);
    if dst.None? {
      return None;
    }
    BytesLength(Matched(l, words, HasChecksum(|words|, 32)), Triples(|words|, 32));
    if |dst.value| != 32 {
      return None;
    }
    key := Some(dst.value);
  }

  lemma {:induction false} BytesLength(indices: seq<nat>, g: nat)
    requires 3 * g <= |indices| && forall k :: 0 <= k < |indices| ==> indices[k] < N
    ensures Bytes(indices, g).Some? ==> |Bytes(indices, g).value| == 4 * g
    decreases g
  {
    hide Join, LeBytes;
    if g > 0 {
      BytesLength(indices, g - 1);
    }
  }

  lemma {:induction false} Refused(indices: seq<nat>, g: nat, h: nat)
    requires g <= h && 3 * h <= |indices| && (forall k :: 0 <= k < |indices| ==> indices[k] < N)
      && Bytes(indices, g) == None
    ensures Bytes(indices, h) == None
    decreases h
  {
    hide Join, LeBytes;
    if g < h {
      Refused(indices, g, h - 1);
    }
  }

  /** Every key that is a multiple of four bytes comes back from its words, whose checksum word always passes. */
  method SeedRoundTrip(l: Language, crc: string -> nat, src: seq<byte>)
    returns (words: seq<string>, back: Option<seq<byte>>)
    requires Usable(l) && |src| > 0 && |src| % 4 == 0
    ensures back == Some(src)
  {
    hide Usable, Bytes, Indices, FindWord, Prefixes;
    var written := BytesToWords(l, crc, src);
    words := written.value;
    UsableSize(l);
    var n := |src| / 4;
    ghost var store := Spelled(l, Indices(src, n));
    KnownWords(l, store, Indices(src, n), true);
    ghost var c := crc(Prefixes(l, store)) % |store|;
    assert words[..|words| - 1] == store && words[c] == store[c];
    assert AllKnown(l, words, true);
    assert Matched(l, words, true)[..3 * n] == Indices(src, n);
    IndicesBijection(src, Matched(l, words, true), n);
    assert src[..4 * n] == src;
    back := WordsToBytes(l, crc, words, |src|, false);
  }
}
