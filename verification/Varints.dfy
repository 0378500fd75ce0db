// write_varint and read_varint: seven bits a byte, least significant first, the high bit set on all but the last.

module Varints {
  import opened Arithmetic
  import opened ByteStrings

  function Encode(v: nat): (s: seq<byte>)
    ensures |s| > 0 && s[|s| - 1] < 128
  {
    if v < 128 then [v] else [v % 128 + 128] + Encode(v / 128)
  }

  method WriteVarint(i: nat) returns (dest: seq<byte>)
    ensures dest == Encode(i)
  {
    hide Encode;
    var rest := i;
    dest := [];
    assert dest + Encode(rest) == Encode(i);
    while rest >= 0x80
      invariant dest + Encode(rest) == Encode(i)
    {
      EncodeStep(rest);
      var low := rest % 128 + 128;
      assert dest + ([low] + Encode(rest / 128)) == dest + [low] + Encode(rest / 128);
      dest := dest + [low];
      rest := rest / 128;
    }
    EncodeStep(rest);
    dest := dest + [rest];
  }

  // What reading can come to: a value and where it ends, the input running out inside one, or an error.
  datatype Reading =
    | Done(value: nat, end: nat)
    | Cut(partial: nat, end: nat)
    | Overflow
    | NonCanonical

  /** Reading from byte i on with room for `bits` more bits. */
  function Read(bits: nat, s: seq<byte>, i: nat): Reading
    requires i <= |s|
    decreases |s| - i
  {
    if i == |s| then Cut(0, i)
    else if bits <= 7 && s[i] >= Pow2(bits) then Overflow
    else if s[i] == 0 && i != 0 then NonCanonical
    else if s[i] < 128 then Done(s[i], i + 1)
    else
      EighthBit(bits, s[i]);
      Above(s[i] - 128, 7, Read(bits - 7, s, i + 1))
  }

  lemma EighthBit(bits: nat, x: byte)
    requires x >= 128 && !(bits <= 7 && x >= Pow2(bits))
    ensures bits > 7
  {
    SevenBits();
    if bits <= 7 {
      PowGrows(bits, 7);
    }
  }

  lemma SevenBits()
    ensures Pow2(7) == 128
  {
  }

  /** A reading whose value sits `shift` bits above `low`. */
  function Above(low: nat, shift: nat, r: Reading): Reading {
    match r
    case Done(v, e) => Done(low + Pow2(shift) * v, e)
    case Cut(v, e) => Cut(low + Pow2(shift) * v, e)
    case Overflow => Overflow
    case NonCanonical => NonCanonical
  }

  lemma AboveAbove(low: nat, shift: nat, x: nat, n: nat, r: Reading)
    ensures Above(low, shift, Above(x, n, r)) == Above(low + Pow2(shift) * x, shift + n, r)
  {
    if r.Done? {
      Regrouped(Pow2(shift), x, Pow2(n), r.value);
    }
    if r.Cut? {
      Regrouped(Pow2(shift), x, Pow2(n), r.partial);
    }
    PowSum(shift, n);
  }

  lemma Regrouped(p: int, x: int, q: int, v: int)
    ensures p * (x + q * v) == p * x + (p * q) * v
  {
  }

  /** One byte of input, with the value read so far below it. */
  lemma ReadStep(bits: nat, s: seq<byte>, i: nat, low: nat, shift: nat)
    requires i <= |s|
    ensures
      var r := Above(low, shift, Read(bits, s, i));
      if i == |s| then r == Cut(low, i)
      else if bits <= 7 && s[i] >= Pow2(bits) then r == Overflow
      else if s[i] == 0 && i != 0 then r == NonCanonical
      else if s[i] < 128 then r == Done(low + Pow2(shift) * s[i], i + 1)
      else bits > 7 && r == Above(low + Pow2(shift) * (s[i] - 128), shift + 7, Read(bits - 7, s, i + 1))
  {
    hide Pow2;
    if i < |s| && s[i] >= 128 && !(bits <= 7 && s[i] >= Pow2(bits)) {
      EighthBit(bits, s[i]);
      AboveAbove(low, shift, s[i] - 128, 7, Read(bits - 7, s, i + 1));
    }
  }

  lemma AboveNothing(r: Reading)
    ensures Above(0, 0, r) == r
  {
  }

  const EVARINT_OVERFLOW := -1
  const EVARINT_REPRESENT := -2

  /** The loop of read_varint for a type of `bits` bits: the count of bytes read, or an error code. */
  method ReadVarint(bits: nat, s: seq<byte>) returns (read: int, write: nat)
    ensures match Read(bits, s, 0)
            case Done(v, n) => read == n && write == v
            case Cut(v, n) => read == n && write == v
            case Overflow => read == EVARINT_OVERFLOW
            case NonCanonical => read == EVARINT_REPRESENT
  {
    hide Pow2, Read, Above;
    read := 0;
    write := 0;
    var shift := 0;
    AboveNothing(Read(bits, s, 0));
    while true
      invariant 0 <= read <= |s| && shift == 7 * read <= bits
      invariant Read(bits, s, 0) == Above(write, shift, Read(bits - shift, s, read))
      decreases |s| - read
    {
      ReadStep(bits - shift, s, read, write, shift);
      if read == |s| {
        return;
      }
      var x := s[read];
      if shift + 7 >= bits && x >= Pow2(bits - shift) {
        return EVARINT_OVERFLOW, write;
      }
      if x == 0 && shift != 0 {
        return EVARINT_REPRESENT, write;
      }
      read := read + 1;
      write := write + Pow2(shift) * (x % 128);
      if x < 128 {
        return;
      }
      shift := shift + 7;
    }
  }

  /** A reading that goes on past its first byte. */
  lemma LongRead(bits: nat, s: seq<byte>, i: nat)
    requires i < |s| && s[i] >= 128
    ensures Read(bits, s, i).Done? <==> bits > 7 && Read(bits - 7, s, i + 1).Done?
    ensures Read(bits, s, i).Done? ==>
      var q := Read(bits - 7, s, i + 1); Read(bits, s, i) == Done(s[i] - 128 + 128 * q.value, q.end)
  {
    hide Pow2;
    SevenBits();
    if bits <= 7 {
      PowGrows(bits, 7);
    } else {
      EighthBit(bits, s[i]);
    }
  }

  lemma ShortRead(bits: nat, s: seq<byte>, i: nat)
    requires i < |s| && s[i] < 128
    ensures Read(bits, s, i).Done? <==> s[i] < Pow2(bits) && (i > 0 ==> s[i] > 0)
    ensures Read(bits, s, i).Done? ==> Read(bits, s, i) == Done(s[i], i + 1)
  {
    hide Pow2;
    SevenBits();
    if bits > 7 {
      PowGrows(7, bits);
    }
  }

  lemma EncodeStep(v: nat)
    ensures v < 128 ==> Encode(v) == [v]
    ensures v >= 128 ==> Encode(v) == [v % 128 + 128] + Encode(v / 128)
  {
  }

  /** What is read back in full was written that way: each value has one accepted encoding. */
  lemma {:induction false} ReadIsCanonical(bits: nat, s: seq<byte>, i: nat)
    requires i <= |s| && Read(bits, s, i).Done?
    ensures var r := Read(bits, s, i); i < r.end <= |s| && s[i..r.end] == Encode(r.value) && r.value < Pow2(bits)
    ensures i > 0 ==> Read(bits, s, i).value > 0
    decreases |s| - i
  {
    NothingRead(bits, s);
    hide Pow2, Read, Encode;
    var r := Read(bits, s, i);
    EncodeStep(r.value);
    if s[i] < 128 {
      ShortRead(bits, s, i);
      assert s[i..i + 1] == [s[i]];
    } else {
      LongRead(bits, s, i);
      ReadIsCanonical(bits - 7, s, i + 1);
      SevenBits();
      PowSum(7, bits - 7);
      assert s[i..r.end] == [s[i]] + s[i + 1..r.end];
    }
  }

  lemma NothingRead(bits: nat, s: seq<byte>)
    ensures !Read(bits, s, |s|).Done?
  {
  }

  lemma Shifted(v: nat, p: nat)
    requires v < 128 * p
    ensures v / 128 < p && (v >= 128 ==> v / 128 > 0)
  {
  }

  /** Whatever follows it, a written value that fits is read back, and nothing after it is consumed. */
  lemma {:induction false} WrittenReadsBack(bits: nat, s: seq<byte>, i: nat, v: nat)
    requires i + |Encode(v)| <= |s| && s[i..i + |Encode(v)|] == Encode(v) && v < Pow2(bits) && (i > 0 ==> v > 0)
    ensures Read(bits, s, i) == Done(v, i + |Encode(v)|)
    decreases v
  {
    hide Pow2, Read, Encode;
    SevenBits();
    EncodeStep(v);
    var n := |Encode(v)|;
    assert s[i] == s[i..i + n][0];
    if v < 128 {
      ShortRead(bits, s, i);
    } else {
      if bits <= 7 {
        PowGrows(bits, 7);
      }
      PowSum(7, bits - 7);
      Shifted(v, Pow2(bits - 7));
      assert s[i..i + n][1..] == s[i + 1..i + n];
      WrittenReadsBack(bits - 7, s, i + 1, v / 128);
      LongRead(bits, s, i);
    }
  }

  lemma EncodeInjective(v: nat, w: nat)
    requires Encode(v) == Encode(w)
    ensures v == w
  {
    var bits := v + w + 1;
    Exceeds(v + w);
    assert Encode(v)[..] == Encode(v);
    WrittenReadsBack(bits, Encode(v), 0, v);
    WrittenReadsBack(bits, Encode(v), 0, w);
  }

  lemma {:induction false} Exceeds(n: nat)
    ensures n < Pow2(n + 1)
  {
    if n > 0 {
      Exceeds(n - 1);
    }
  }

  /** Exactly the values of `bits` bits are read back from what write_varint wrote. */
  lemma RoundTrip(bits: nat, v: nat, rest: seq<byte>)
    ensures Read(bits, Encode(v) + rest, 0) == Done(v, |Encode(v)|) <==> v < Pow2(bits)
  {
    var s := Encode(v) + rest;
    if v < Pow2(bits) {
      assert s[0..|Encode(v)|] == Encode(v);
      WrittenReadsBack(bits, s, 0, v);
    }
    if Read(bits, s, 0) == Done(v, |Encode(v)|) {
      ReadIsCanonical(bits, s, 0);
    }
  }

  /** A truncated input yields a count of bytes too, told apart only by the high bit of the last byte read. */
  lemma {:induction false} CutOrDone(bits: nat, s: seq<byte>, i: nat)
    requires i <= |s|
    ensures var r := Read(bits, s, i);
      && (r.Cut? ==> r.end == |s| && forall k :: i <= k < |s| ==> s[k] >= 128)
      && (r.Done? ==> i < r.end <= |s| && s[r.end - 1] < 128)
    decreases |s| - i
  {
    if i < |s| && s[i] >= 128 && !(bits <= 7 && s[i] >= Pow2(bits)) {
      EighthBit(bits, s[i]);
      CutOrDone(bits - 7, s, i + 1);
    }
  }

  /** A count of bytes whose last has its high bit clear stands for one canonical encoding. */
  lemma ClearLastByte(bits: nat, s: seq<byte>)
    requires Read(bits, s, 0).Done? || Read(bits, s, 0).Cut?
    requires 0 < Read(bits, s, 0).end <= |s| && s[Read(bits, s, 0).end - 1] < 128
    ensures var r := Read(bits, s, 0); r.Done? && s[..r.end] == Encode(r.value) && r.value < Pow2(bits)
  {
    CutOrDone(bits, s, 0);
    ReadIsCanonical(bits, s, 0);
    assert s[0..Read(bits, s, 0).end] == s[..Read(bits, s, 0).end];
  }
}
