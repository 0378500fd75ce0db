// common/base58.cpp: blocks of up to eight bytes written as blocks of up to eleven letters.

module Base58 {
  import opened Arithmetic
  import opened Wrappers
  import opened ByteStrings

  const ALPHABET := "123456789" + "ABCDEFGH" + "JKLMN" + "PQRSTUVWXYZ" + "abcdefghijk" + "mnopqrstuvwxyz"

  /** The letters run through six stretches of character codes. */
  function Letter(i: nat): (c: char)
    requires i < 58
  {
    if i < 9 then '1' + i as char
    else if i < 17 then 'A' + (i - 9) as char
    else if i < 22 then 'J' + (i - 17) as char
    else if i < 33 then 'P' + (i - 22) as char
    else if i < 44 then 'a' + (i - 33) as char
    else 'm' + (i - 44) as char
  }

  /** The digit of a letter, or -1. */
  function Digit(c: char): (i: int)
    ensures -1 <= i < 58
    ensures i >= 0 ==> Letter(i) == c
  {
    if '1' <= c <= '9' then c as int - '1' as int
    else if 'A' <= c <= 'H' then c as int - 'A' as int + 9
    else if 'J' <= c <= 'N' then c as int - 'J' as int + 17
    else if 'P' <= c <= 'Z' then c as int - 'P' as int + 22
    else if 'a' <= c <= 'k' then c as int - 'a' as int + 33
    else if 'm' <= c <= 'z' then c as int - 'm' as int + 44
    else -1
  }

  lemma DigitOfLetter(i: nat)
    requires i < 58
    ensures Digit(Letter(i)) == i
  {
  }

  predicate Run(s: string, from: char) { forall j :: 0 <= j < |s| ==> s[j] as int == from as int + j }

  lemma FirstRuns()
    ensures Run("123456789", '1') && Run("ABCDEFGH", 'A') && Run("JKLMN", 'J')
  {
  }

  lemma LastRuns()
    ensures Run("PQRSTUVWXYZ", 'P') && Run("abcdefghijk", 'a') && Run("mnopqrstuvwxyz", 'm')
  {
  }

  lemma AlphabetIs(i: nat)
    requires i < 58
    ensures |ALPHABET| == 58 && ALPHABET[i] == Letter(i)
  {
    FirstRuns();
    LastRuns();
  }

  /** reverse_alphabet: the table from character codes, counted from that of '1', to digits. */
  method ReverseAlphabet() returns (table: array<int>)
    ensures table.Length == 74
    ensures forall k :: 0 <= k < 74 ==> table[k] == Digit('1' + k as char)
  {
    table := new int[74](_ => -1);
    for i := 0 to 58
      invariant forall k :: 0 <= k < 74 ==>
        table[k] == if Digit('1' + k as char) < i then Digit('1' + k as char) else -1
    {
      AlphabetIs(i);
      DigitOfLetter(i);
      var idx := ALPHABET[i] as int - '1' as int;
      table[idx] := i;
    }
  }

  // ---- Numbers ----

  function Pow58(n: nat): (p: nat)
    ensures p > 0
    decreases n
  {
    if n == 0 then 1 else 58 * Pow58(n - 1)
  }

  /** uint_8be_to_64: the first byte is the most significant. */
  function BeValue(s: seq<byte>): (v: nat)
    ensures v < Pow256(|s|)
  {
    if |s| == 0 then 0 else 256 * BeValue(s[..|s| - 1]) + s[|s| - 1]
  }

  /** uint_64_to_8be: the n low bytes of v. */
  function BeBytes(v: nat, n: nat): (s: seq<byte>)
    ensures |s| == n
    decreases n
  {
    if n == 0 then [] else BeBytes(v / 256, n - 1) + [v % 256]
  }

  lemma {:induction false} BytesOfValue(s: seq<byte>)
    ensures BeBytes(BeValue(s), |s|) == s
    decreases |s|
  {
    if |s| > 0 {
      BytesOfValue(s[..|s| - 1]);
    }
  }

  lemma {:induction false} ValueOfBytes(v: nat, n: nat)
    requires v < Pow256(n)
    ensures BeValue(BeBytes(v, n)) == v
    decreases n
  {
    if n > 0 {
      ValueOfBytes(v / 256, n - 1);
      assert BeBytes(v, n)[..n - 1] == BeBytes(v / 256, n - 1);
    }
  }

  /** Read from the other end: the first byte weighs most. */
  lemma {:induction false} FirstByteWeighsMost(x: byte, s: seq<byte>)
    ensures BeValue([x] + s) == x * Pow256(|s|) + BeValue(s)
    decreases |s|
  {
    if |s| == 0 {
      assert [x] + s == [x] && [x][..0] == [];
    } else {
      FirstByteWeighsMost(x, s[..|s| - 1]);
      assert ([x] + s)[..|s|] == [x] + s[..|s| - 1];
      Scaled(256, x, Pow256(|s| - 1), BeValue(s[..|s| - 1]));
    }
  }

  lemma Scaled(b: nat, x: nat, p: nat, v: nat)
    ensures b * (x * p + v) == x * (b * p) + b * v
  {
  }


  /** v in n letters, the first the most significant, with '1' for the leading zeros. */
  function Letters(v: nat, n: nat): (s: string)
    ensures |s| == n
    decreases n
  {
    if n == 0 then "" else Letters(v / 58, n - 1) + [Letter(v % 58)]
  }

  predicate AllLetters(s: string) { forall i :: 0 <= i < |s| ==> Digit(s[i]) >= 0 }

  function Value58(s: string): (v: nat)
    requires AllLetters(s)
    ensures v < Pow58(|s|)
  {
    if |s| == 0 then 0 else 58 * Value58(s[..|s| - 1]) + Digit(s[|s| - 1])
  }

  lemma {:induction false} LettersOfValue(s: string)
    requires AllLetters(s)
    ensures Letters(Value58(s), |s|) == s
    decreases |s|
  {
    hide Digit;
    if |s| > 0 {
      LettersOfValue(s[..|s| - 1]);
      assert Letter(Digit(s[|s| - 1])) == s[|s| - 1];
    }
  }

  lemma {:induction false} ValueOfLetters(v: nat, n: nat)
    requires v < Pow58(n)
    ensures AllLetters(Letters(v, n)) && Value58(Letters(v, n)) == v
    decreases n
  {
    if n > 0 {
      ValueOfLetters(v / 58, n - 1);
      DigitOfLetter(v % 58);
      assert Letters(v, n)[..n - 1] == Letters(v / 58, n - 1);
    }
  }

  /** Dropping the first letter takes its digit off the top of the value. */
  lemma {:induction false} FirstLetter(s: string)
    requires |s| > 0 && AllLetters(s)
    ensures Value58(s) == Digit(s[0]) * Pow58(|s| - 1) + Value58(s[1..])
    decreases |s|
  {
    hide Digit;
    if |s| > 1 {
      FirstLetter(s[..|s| - 1]);
      assert s[..|s| - 1][1..] == s[1..][..|s| - 2];
      Carried(Digit(s[0]), Pow58(|s| - 2), Value58(s[1..|s| - 1]), Digit(s[|s| - 1]));
    }
  }

  lemma Carried(d: int, p: int, v: int, last: int)
    ensures 58 * (d * p + v) + last == d * (58 * p) + (58 * v + last)
  {
  }

  /** A later part of a number is no larger than the number. */
  lemma {:induction false} SuffixBelow(s: string, i: nat)
    requires i <= |s| && AllLetters(s)
    ensures Value58(s[i..]) <= Value58(s)
    decreases i
  {
    hide Digit, Value58, Pow58;
    if i > 0 {
      FirstLetter(s);
      NonNegative(Digit(s[0]), Pow58(|s| - 1));
      SuffixBelow(s[1..], i - 1);
      assert s[1..][i - 1..] == s[i..];
    } else {
      assert s[0..] == s;
    }
  }

  lemma {:induction false} ZeroLetters(n: nat)
    ensures forall i :: 0 <= i < n ==> Letters(0, n)[i] == '1'
    decreases n
  {
    if n > 0 {
      ZeroLetters(n - 1);
    }
  }

  // ---- Blocks ----

  /** encoded_block_sizes: how many letters hold a block of size bytes. */
  function EncodedSize(size: nat): (n: nat)
    requires size <= 8
    ensures size <= n <= 11
  {
    [0, 2, 3, 5, 6, 7, 9, 10, 11][size]
  }

  /** decoded_block_sizes: how many bytes a block of this many letters holds, or -1. */
  function DecodedSize(n: nat): (size: int)
    requires n <= 11
    ensures -1 <= size <= 8 && (size >= 0 ==> EncodedSize(size) == n)
  {
    [0, -1, 1, 2, -1, 3, 4, 5, -1, 6, 7, 8][n]
  }

  lemma SizesMatch(size: nat)
    requires size <= 8
    ensures DecodedSize(EncodedSize(size)) == size
  {
  }

  /** No block fits in fewer letters than the table gives its size. */
  lemma BlockNeeds(size: nat)
    requires 0 < size <= 8
    ensures Pow58(EncodedSize(size) - 1) < Pow256(size)
  {
    assert Pow256(8) == 0x1_0000_0000_0000_0000;
    assert Pow58(10) == 430804206899405824;
  }

  /** Every block fits its letters. */
  lemma BlockFits(size: nat)
    requires size <= 8
    ensures Pow256(size) <= Pow58(EncodedSize(size))
  {
    assert Pow256(8) == 0x1_0000_0000_0000_0000;
    assert Pow58(11) == 24986644000165537792;
  }

  function EncodedBlock(block: seq<byte>): (r: string)
    requires |block| <= 8
    ensures |r| == EncodedSize(|block|)
  {
    Letters(BeValue(block), EncodedSize(|block|))
  }

  /** The bytes a block of letters stands for, if it is the encoding of any. */
  function DecodedBlock(block: string): (r: Option<seq<byte>>)
    requires |block| <= 11
    ensures r.Some? ==> |r.value| == DecodedSize(|block|)
  {
    var size := DecodedSize(|block|);
    if size < 0 || !AllLetters(block) || Value58(block) >= Pow256(size) then None
    else Some(BeBytes(Value58(block), size))
  }

  /** A block decodes to exactly what it is the encoding of. */
  lemma BlockBijection(block: string, data: seq<byte>)
    requires |block| <= 11 && |data| <= 8
    ensures DecodedBlock(block) == Some(data) <==> block == EncodedBlock(data)
  {
    hide Pow58, Pow256, Letters, Value58, BeValue, BeBytes;
    SizesMatch(|data|);
    if block == EncodedBlock(data) {
      BlockFits(|data|);
      ValueOfLetters(BeValue(data), |block|);
      BytesOfValue(data);
    }
    if DecodedBlock(block) == Some(data) {
      LettersOfValue(block);
      ValueOfBytes(Value58(block), |data|);
    }
  }

  /** encode_block: writes the letters from the last back, into a block of '1's; it never steps out of the block. */
  method EncodeBlock(block: seq<byte>, res: array<char>, off: nat)
    requires 1 <= |block| <= 8 && off + EncodedSize(|block|) <= res.Length
    requires forall k :: off <= k < off + EncodedSize(|block|) ==> res[k] == '1'
    modifies res
    ensures res[..off + EncodedSize(|block|)] == old(res[..off]) + EncodedBlock(block)
    ensures forall j :: off + EncodedSize(|block|) <= j < res.Length ==> res[j] == old(res[j])
  {
    hide Letters, Letter, Pow58, Pow256;
    var num: nat := BeValue(block);
    var i := EncodedSize(|block|) - 1;
    BlockFits(|block|);
    ghost var full := EncodedBlock(block);
    assert full[..i + 1] == full;
    while 0 < num
      invariant -1 <= i < |full| && num < Pow58(i + 1) && full[..i + 1] == Letters(num, i + 1)
      invariant forall j :: 0 <= j < off || off + |full| <= j < res.Length ==> res[j] == old(res[j])
      invariant forall j :: off <= j <= off + i ==> res[j] == '1'
      invariant forall j :: off + i < j < off + |full| ==> res[j] == full[j - off]
    {
      LastLetter(num, i + 1);
      var remainder := num % 58;
      num := num / 58;
      AlphabetIs(remainder);
      assert full[..i + 1][i] == Letter(remainder) && full[..i + 1][..i] == full[..i];
      res[off + i] := ALPHABET[remainder];
      i := i - 1;
    }
    ZeroLetters(i + 1);
    forall j | off <= j <= off + i ensures res[j] == full[j - off] {
      assert full[..i + 1][j - off] == '1';
    }
  }

  lemma LastLetter(v: nat, n: nat)
    requires 0 < v < Pow58(n)
    ensures n > 0 && v / 58 < Pow58(n - 1) && Letters(v, n) == Letters(v / 58, n - 1) + [Letter(v % 58)]
  {
  }

  const TWO64: int := 0x1_0000_0000_0000_0000

  /** One term added in 64 bits: refused exactly when the sum does not fit. */
  method AddDigit(num: nat, order: nat, digit: nat) returns (r: Option<nat>)
    requires num < TWO64
    ensures r.Some? <==> digit * order + num < TWO64
    ensures r.Some? ==> r.value == digit * order + num
  {
    var product := order * digit;
    var low, productHi := product % TWO64, product / TWO64;
    var tmp := (num + low) % TWO64;
    WrapAround(num, product);
    if tmp < num || productHi != 0 {
      return None;
    }
    r := Some(tmp);
  }

  /** order *= alphabet_size, which wraps only once it is no longer needed. */
  method NextOrder(order: nat, ghost k: nat) returns (next: nat)
    requires k <= 10 && order == Pow58(k)
    ensures k < 10 ==> next == Pow58(k + 1)
  {
    OrderFits(k, order);
    next := order * 58 % TWO64;
  }

  /** The loop of decode_block: the letters summed in 64 bits, with wrap-around watched for. */
  method BlockNumber(block: string) returns (r: Option<nat>)
    requires 1 <= |block| <= 11
    ensures r.Some? <==> AllLetters(block) && Value58(block) < TWO64
    ensures r.Some? ==> r.value == Value58(block)
  {
    hide Digit, Pow58, Pow256, Value58;
    RangeLimits(1);
    var num, order := 0, 1;
    var i := |block| - 1;
    while i >= 0
      invariant -1 <= i < |block| && AllLetters(block[i + 1..])
      invariant 0 <= num == Value58(block[i + 1..]) < TWO64
      invariant i >= 0 ==> order == Pow58(|block| - 1 - i)
    {
      var digit := Digit(block[i]);
      if digit < 0 {
        return None;
      }
      assert block[i..][1..] == block[i + 1..] && AllLetters(block[i..]);
      FirstLetter(block[i..]);
      var tmp := AddDigit(num, order, digit);
      if tmp.None? {
        if AllLetters(block) {
          SuffixBelow(block, i);
        }
        return None;
      }
      num := tmp.value;
      order := NextOrder(order, |block| - 1 - i);
      i := i - 1;
    }
    assert block[0..] == block;
    r := Some(num);
  }

  /** uint_64_to_8be into the buffer */
  method WriteBytes(num: nat, size: nat, res: array<byte>, off: nat)
    requires off + size <= res.Length
    modifies res
    ensures res[..off + size] == old(res[..off]) + BeBytes(num, size)
    ensures forall j :: off + size <= j < res.Length ==> res[j] == old(res[j])
  {
    var bytes := BeBytes(num, size);
    hide BeBytes;
    for k := 0 to size
      invariant forall j :: 0 <= j < off || off + size <= j < res.Length ==> res[j] == old(res[j])
      invariant forall j :: 0 <= j < k ==> res[off + j] == bytes[j]
    {
      res[off + k] := bytes[k];
    }
    assert forall j :: off <= j < off + size ==> res[j] == bytes[j - off];
  }

  /** decode_block: writes nothing when it fails. */
  method DecodeBlock(block: string, res: array<byte>, off: nat) returns (ok: bool)
    requires 1 <= |block| <= 11
    requires off + DecodedSize(|block|) <= res.Length
    modifies res
    ensures ok <==> DecodedBlock(block).Some?
    ensures ok ==> res[..off + DecodedSize(|block|)] == old(res[..off]) + DecodedBlock(block).value
    ensures ok ==> forall j :: off + DecodedSize(|block|) <= j < res.Length ==> res[j] == old(res[j])
    ensures !ok ==> res[..] == old(res[..])
  {
    hide Digit, Pow58, Pow256, Value58, BeBytes;
    var size := DecodedSize(|block|);
    if size <= 0 {
      return false;
    }
    RangeLimits(size);
    var num := BlockNumber(block);
    if num.None? || (size < 8 && Pow256(size) <= num.value) {
      return false;
    }
    WriteBytes(num.value, size, res, off);
    return true;
  }

  lemma RangeLimits(size: nat)
    requires 1 <= size <= 8
    ensures Pow256(size) <= TWO64 && (size == 8 ==> Pow256(size) == TWO64)
    ensures Pow58(0) == 1 && Value58("") == 0
  {
    assert Pow256(8) == TWO64;
  }

  /** The overflow test fails exactly when the sum leaves 64 bits. */
  lemma WrapAround(num: int, product: int)
    requires 0 <= num < TWO64 && 0 <= product
    ensures var tmp := (num + product % TWO64) % TWO64;
      if num + product < TWO64 then tmp == num + product >= num && product / TWO64 == 0
      else tmp < num || product / TWO64 != 0
  {
  }

  lemma OrderFits(k: nat, order: int)
    requires k <= 10 && order == Pow58(k)
    ensures k < 10 ==> order * 58 % TWO64 == Pow58(k + 1)
  {
    assert Pow58(10) == 430804206899405824;
  }

  // ---- Whole strings ----

  /** The encoding: full blocks of eight bytes, then what remains. */
  function Encode(data: seq<byte>): string
    decreases |data|
  {
    if |data| < 8 then EncodedBlock(data) else EncodedBlock(data[..8]) + Encode(data[8..])
  }

  function Joined(front: seq<byte>, rest: Option<seq<byte>>): Option<seq<byte>> {
    if rest.Some? then Some(front + rest.value) else None
  }

  function Decode(enc: string): Option<seq<byte>>
    decreases |enc|
  {
    if |enc| < 11 then DecodedBlock(enc)
    else if DecodedBlock(enc[..11]).None? then None
    else Joined(DecodedBlock(enc[..11]).value, Decode(enc[11..]))
  }

  /** decode succeeds with d exactly on encode(d). */
  lemma {:induction false} Bijection(enc: string, data: seq<byte>)
    ensures Decode(enc) == Some(data) <==> enc == Encode(data)
    decreases |enc| + |data|
  {
    hide DecodedBlock, EncodedBlock;
    if |enc| < 11 {
      if |data| < 8 {
        BlockBijection(enc, data);
      } else {
        SmallerBlock(enc);
      }
    } else {
      FullBlock(enc[..11]);
      if |data| >= 8 {
        BlockBijection(enc[..11], data[..8]);
        Bijection(enc[11..], data[8..]);
        assert enc == enc[..11] + enc[11..] && data == data[..8] + data[8..];
        if enc == Encode(data) {
          assert Encode(data)[..11] == EncodedBlock(data[..8]) && Encode(data)[11..] == Encode(data[8..]);
        }
        if Decode(enc) == Some(data) {
          var rest := Decode(enc[11..]).value;
          assert data[..8] == DecodedBlock(enc[..11]).value && data[8..] == rest;
        }
      }
    }
  }

  lemma SmallerBlock(block: string)
    requires |block| < 11
    ensures DecodedBlock(block).Some? ==> |DecodedBlock(block).value| < 8
  {
  }

  lemma FullBlock(block: string)
    requires |block| == 11
    ensures DecodedBlock(block).Some? ==> |DecodedBlock(block).value| == 8
  {
  }

  lemma EncodeInjective(a: seq<byte>, b: seq<byte>)
    requires Encode(a) == Encode(b)
    ensures a == b
  {
    Bijection(Encode(a), a);
    Bijection(Encode(a), b);
  }

  lemma EncodeStep(data: seq<byte>, i: nat)
    requires 8 * (i + 1) <= |data|
    ensures Encode(data[8 * i..]) == EncodedBlock(data[8 * i..8 * i + 8]) + Encode(data[8 * (i + 1)..])
  {
    assert data[8 * i..][..8] == data[8 * i..8 * i + 8] && data[8 * i..][8..] == data[8 * (i + 1)..];
  }

  lemma DecodeStep(enc: string, i: nat)
    requires 11 * (i + 1) <= |enc|
    ensures var block := DecodedBlock(enc[11 * i..11 * i + 11]);
      Decode(enc[11 * i..]) == if block.None? then None else Joined(block.value, Decode(enc[11 * (i + 1)..]))
  {
    assert enc[11 * i..][..11] == enc[11 * i..11 * i + 11] && enc[11 * i..][11..] == enc[11 * (i + 1)..];
  }

  lemma JoinedTwice(a: seq<byte>, b: seq<byte>, rest: Option<seq<byte>>)
    ensures Joined(a, Joined(b, rest)) == Joined(a + b, rest) && Joined([], rest) == rest
  {
    if rest.Some? {
      assert [] + rest.value == rest.value;
      assert a + (b + rest.value) == a + b + rest.value;
    }
  }

  /** encode: every block written into its place in a buffer of '1's. */
  method EncodeData(data: seq<byte>) returns (enc: string)
    ensures enc == Encode(data)
  {
    hide EncodedBlock, Encode, EncodedSize;
    if |data| == 0 {
      NoBytes();
      return "";
    }
    var full, last := |data| / 8, |data| % 8;
    FullSize();
    var res := new char[full * 11 + EncodedSize(last)](_ => '1');
    assert data[0..] == data && res[..0] + Encode(data) == Encode(data);
    for i := 0 to full
      invariant res[..11 * i] + Encode(data[8 * i..]) == Encode(data)
      invariant forall k :: 11 * i <= k < res.Length ==> res[k] == '1'
    {
      EncodeStep(data, i);
      Regroup(res[..11 * i], EncodedBlock(data[8 * i..8 * i + 8]), Encode(data[8 * (i + 1)..]));
      EncodeBlock(data[8 * i..8 * i + 8], res, 11 * i);
    }
    ShortEncode(data[8 * full..]);
    if 0 < last {
      EncodeBlock(data[8 * full..], res, 11 * full);
    } else {
      NoBytes();
      assert data[8 * full..] == [] && res[..11 * full] + "" == res[..11 * full];
    }
    enc := res[..];
    assert res[..] == res[..res.Length];
  }

  lemma FullSize()
    ensures EncodedSize(8) == 11 && EncodedSize(0) == 0
  {
  }

  lemma Regroup(a: string, b: string, c: string)
    ensures a + (b + c) == a + b + c
  {
  }

  lemma NoBytes()
    ensures Encode([]) == "" && Decode("") == Some([])
  {
    assert DecodedSize(0) == 0 && BeBytes(0, 0) == [];
  }

  lemma {:induction false} BadLength(enc: string)
    requires DecodedSize(|enc| % 11) < 0
    ensures Decode(enc) == None
    decreases |enc|
  {
    if |enc| >= 11 {
      BadLength(enc[11..]);
    }
  }

  /** decode */
  method DecodeData(enc: string) returns (r: Option<seq<byte>>)
    ensures r == Decode(enc)
  {
    hide DecodedBlock, Decode, Joined, DecodedSize;
    if |enc| == 0 {
      NoBytes();
      return Some([]);
    }
    var full, last := |enc| / 11, |enc| % 11;
    var lastSize := DecodedSize(last);
    if lastSize < 0 {
      BadLength(enc);
      return None;
    }
    JoinedTwice([], [], Decode(enc));
    FullDecodedSize();
    var data := new byte[full * 8 + lastSize](_ => 0);
    assert enc[0..] == enc && data[..0] == [];
    for i := 0 to full
      invariant Decode(enc) == Joined(data[..8 * i], Decode(enc[11 * i..]))
    {
      ghost var before := data[..8 * i];
      var block := enc[i * 11..i * 11 + 11];
      DecodeStep(enc, i);
      JoinedNone(before);
      var ok := DecodeBlock(block, data, i * 8);
      if !ok {
        return None;
      }
      JoinedTwice(before, DecodedBlock(block).value, Decode(enc[11 * (i + 1)..]));
    }
    var rest := enc[11 * full..];
    ghost var before := data[..8 * full];
    JoinedNone(before);
    LastBlock(rest);
    if 0 < last {
      var ok := DecodeBlock(rest, data, full * 8);
      if !ok {
        return None;
      }
      JoinedSome(before, DecodedBlock(rest).value);
    } else {
      NoBytes();
      assert rest == "" && before + [] == before;
      JoinedSome(before, []);
    }
    assert data[..] == data[..data.Length];
    r := Some(data[..]);
  }

  lemma FullDecodedSize()
    ensures DecodedSize(11) == 8 && DecodedSize(0) == 0
  {
  }

  lemma LastBlock(block: string)
    requires |block| < 11
    ensures Decode(block) == DecodedBlock(block)
    ensures DecodedBlock(block).Some? ==> |DecodedBlock(block).value| == DecodedSize(|block|)
  {
  }

  lemma JoinedNone(front: seq<byte>)
    ensures Joined(front, None) == None
  {
  }

  lemma JoinedSome(front: seq<byte>, rest: seq<byte>)
    ensures Joined(front, Some(rest)) == Some(front + rest)
  {
  }

  lemma ShortEncode(data: seq<byte>)
    requires |data| < 8
    ensures Encode(data) == EncodedBlock(data) && |EncodedBlock(data)| == EncodedSize(|data|)
  {
  }
}
