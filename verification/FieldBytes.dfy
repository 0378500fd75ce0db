// Field elements and their 32-byte encodings: fe_tobytes, and the loading and
// canonical-form test of ge_frombytes_vartime.

module FieldBytes {
  import opened Arithmetic
  import opened ByteStrings
  import opened FieldElements
  import opened Wrappers

  /** carry = lo >> 26; hi += carry; lo -= carry << 26 */
  method Floor26(lo: int32, hi: int32) returns (lo': int32, hi': int32)
    requires -0x3000_0000 <= hi <= 0x3000_0000
    ensures lo' as int + 67108864 * hi' as int == lo as int + 67108864 * hi as int
    ensures 0 <= lo' < 67108864
  {
    var carry := lo / 67108864;
    hi' := hi + carry;
    lo' := lo - carry * 67108864;
  }

  /** carry = lo >> 25; hi += carry; lo -= carry << 25 */
  method Floor25(lo: int32, hi: int32) returns (lo': int32, hi': int32)
    requires -0x3000_0000 <= hi <= 0x3000_0000
    ensures lo' as int + 33554432 * hi' as int == lo as int + 33554432 * hi as int
    ensures 0 <= lo' < 33554432
  {
    var carry := lo / 33554432;
    hi' := hi + carry;
    lo' := lo - carry * 33554432;
  }

  /** q = (h + q) >> 26: the floor */
  method Quotient26(h: int32, q: int32) returns (q': int32)
    requires -0x3000_0000 <= h <= 0x3000_0000 && -0x1000 <= q <= 0x1000
    ensures 0 <= h as int + q as int - 67108864 * q' as int < 67108864
  {
    q' := (h + q) / 67108864;
  }

  /** q = (h + q) >> 25: the floor */
  method Quotient25(h: int32, q: int32) returns (q': int32)
    requires -0x3000_0000 <= h <= 0x3000_0000 && -0x1000 <= q <= 0x1000
    ensures 0 <= h as int + q as int - 33554432 * q' as int < 33554432
  {
    q' := (h + q) / 33554432;
  }

  lemma ExplicitValue(h: Fe)
    ensures Value(h) == h[0] as int
         + 67108864 * h[1] as int
         + 2251799813685248 * h[2] as int
         + 151115727451828646838272 * h[3] as int
         + 5070602400912917605986812821504 * h[4] as int
         + 340282366920938463463374607431768211456 * h[5] as int
         + 11417981541647679048466287755595961091061972992 * h[6] as int
         + 766247770432944429179173513575154591809369561091801088 * h[7] as int
         + 25711008708143844408671393477458601640355247900524685364822016 * h[8] as int
         + 1725436586697640946858688965569256363112777243042596638790631055949824 * h[9] as int
  {
    var g := Widened(h);
    assert PairsFrom(g, 8) == g[8] as int + 67108864 * g[9] as int;
    assert PairsFrom(g, 6) == g[6] as int + 67108864 * g[7] as int + 2251799813685248 * PairsFrom(g, 8);
    assert PairsFrom(g, 4) == g[4] as int + 67108864 * g[5] as int + 2251799813685248 * PairsFrom(g, 6);
    assert PairsFrom(g, 2) == g[2] as int + 67108864 * g[3] as int + 2251799813685248 * PairsFrom(g, 4);
  }

  /** q through limbs 0..4. */
  method QuotientLow(h: Fe, q0: int32) returns (q: int32)
    requires Bounded(h, STORABLE) && -0x1000 <= q0 <= 0x1000
    ensures -0x1000 <= q <= 0x1000
    ensures 0 <= h[0] as int + 67108864 * h[1] as int + 2251799813685248 * h[2] as int
        + 151115727451828646838272 * h[3] as int + 5070602400912917605986812821504 * h[4] as int
        + q0 as int - 340282366920938463463374607431768211456 * q as int
      < 340282366920938463463374607431768211456
  {
    q := Quotient26(h[0], q0);
    q := Quotient25(h[1], q);
    q := Quotient26(h[2], q);
    q := Quotient25(h[3], q);
    q := Quotient26(h[4], q);
  }

  /** q through limbs 5..9. */
  method QuotientHigh(h: Fe, q0: int32) returns (q: int32)
    requires Bounded(h, STORABLE) && -0x1000 <= q0 <= 0x1000
    ensures 0 <= h[5] as int + 33554432 * h[6] as int + 2251799813685248 * h[7] as int
        + 75557863725914323419136 * h[8] as int + 5070602400912917605986812821504 * h[9] as int
        + q0 as int - 170141183460469231731687303715884105728 * q as int
      < 170141183460469231731687303715884105728
  {
    q := Quotient25(h[5], q0);
    q := Quotient26(h[6], q);
    q := Quotient25(h[7], q);
    q := Quotient26(h[8], q);
    q := Quotient25(h[9], q);
  }

  /** q = floor(h / p), from the top limb rounded and then every limb. */
  method FeQuotient(h: Fe) returns (q: int32)
    requires Bounded(h, STORABLE)
    ensures 0 <= Value(h) - P * q as int < P && -3 <= q <= 3
  {
    q := (19 * h[9] + 16777216) / 33554432;
    ghost var q0 := q as int;
    q := QuotientLow(h, q);
    q := QuotientHigh(h, q);
    ExplicitValue(h);
    FloorOverP(Value(h), h[9] as int, q0, q as int);
  }

  /** The claim in fe_tobytes: rounding 19 h9 / 2^25 up front makes the floor over 2^255 the floor over p. */
  lemma FloorOverP(v: int, h9: int, q0: int, q: int)
    requires -40600863 <= h9 <= 40600863
    requires -3450873173395281893717377931138512726225554486085193277581262111899648
      < v - 1725436586697640946858688965569256363112777243042596638790631055949824 * h9
      < 3450873173395281893717377931138512726225554486085193277581262111899648
    requires q0 == (19 * h9 + 16777216) / 33554432
    requires 0 <= v + q0 - TWO255 * q < TWO255
    ensures 0 <= v - P * q < P
  {
  }

  /** Limbs as base-2^26 and base-2^25 digits. */
  predicate Digits(d: Fe) {
    forall i :: 0 <= i < 10 ==> 0 <= d[i] < if i % 2 == 0 then 67108864 else 33554432
  }

  lemma DigitsRange(d: Fe)
    requires Digits(d)
    ensures 0 <= Value(d) < TWO255
  {
    ExplicitValue(d);
  }

  /** The floor carries out of limbs 0..4. */
  method FloorLow(x0: int32, x1: int32, x2: int32, x3: int32, x4: int32, x5: int32)
    returns (h0: int32, h1: int32, h2: int32, h3: int32, h4: int32, h5: int32)
    requires -0x1000_0000 <= x0 <= 0x1000_0000 && -0x1000_0000 <= x1 <= 0x1000_0000 && -0x1000_0000 <= x2 <= 0x1000_0000
    requires -0x1000_0000 <= x3 <= 0x1000_0000 && -0x1000_0000 <= x4 <= 0x1000_0000 && -0x1000_0000 <= x5 <= 0x1000_0000
    ensures 0 <= h0 < 67108864 && 0 <= h1 < 33554432 && 0 <= h2 < 67108864 && 0 <= h3 < 33554432 && 0 <= h4 < 67108864
    ensures -0x2000_0000 <= h5 <= 0x2000_0000
    ensures h0 as int + 67108864 * h1 as int + 2251799813685248 * h2 as int + 151115727451828646838272 * h3 as int
        + 5070602400912917605986812821504 * h4 as int + 340282366920938463463374607431768211456 * h5 as int
         == x0 as int + 67108864 * x1 as int + 2251799813685248 * x2 as int + 151115727451828646838272 * x3 as int
             + 5070602400912917605986812821504 * x4 as int + 340282366920938463463374607431768211456 * x5 as int
  {
    h0, h1 := Floor26(x0, x1);
    h1, h2 := Floor25(h1, x2);
    h2, h3 := Floor26(h2, x3);
    h3, h4 := Floor25(h3, x4);
    h4, h5 := Floor26(h4, x5);
  }

  /** The floor carries out of limbs 5..9; the last one is dropped. */
  method FloorHigh(x5: int32, x6: int32, x7: int32, x8: int32, x9: int32)
    returns (h5: int32, h6: int32, h7: int32, h8: int32, h9: int32, ghost top: int)
    requires -0x2000_0000 <= x5 <= 0x2000_0000 && -0x1000_0000 <= x6 <= 0x1000_0000 && -0x1000_0000 <= x7 <= 0x1000_0000
    requires -0x1000_0000 <= x8 <= 0x1000_0000 && -0x1000_0000 <= x9 <= 0x1000_0000
    ensures 0 <= h5 < 33554432 && 0 <= h6 < 67108864 && 0 <= h7 < 33554432 && 0 <= h8 < 67108864 && 0 <= h9 < 33554432
    ensures h5 as int + 33554432 * h6 as int + 2251799813685248 * h7 as int + 75557863725914323419136 * h8 as int
        + 5070602400912917605986812821504 * h9 as int + 170141183460469231731687303715884105728 * top
         == x5 as int + 33554432 * x6 as int + 2251799813685248 * x7 as int + 75557863725914323419136 * x8 as int
             + 5070602400912917605986812821504 * x9 as int
  {
    h5, h6 := Floor25(x5, x6);
    h6, h7 := Floor26(h6, x7);
    h7, h8 := Floor25(h7, x8);
    h8, h9 := Floor26(h8, x9);
    var carry9 := h9 / 33554432;
    h9 := h9 - carry9 * 33554432;
    top := carry9 as int;
  }

  /** h[0] += 19 * q, then ten floor carries. */
  method FloorDigits(h: Fe, q: int32) returns (d: Fe, ghost top: int)
    requires Bounded(h, STORABLE) && -3 <= q <= 3
    ensures Digits(d) && Value(d) == Value(h) + 19 * q as int - TWO255 * top
  {
    var h0, h1, h2, h3, h4, h5 := FloorLow(h[0] + 19 * q, h[1], h[2], h[3], h[4], h[5]);
    var h6, h7, h8, h9;
    h5, h6, h7, h8, h9, top := FloorHigh(h5, h[6], h[7], h[8], h[9]);
    d := [h0, h1, h2, h3, h4, h5, h6, h7, h8, h9];
    ExplicitValue(h);
    ExplicitValue(d);
  }

  method FeToBytes(h: Fe) returns (s: seq<byte>)
    requires Bounded(h, STORABLE)
    ensures |s| == 32 && Le(s) == Value(h) % P
  {
    var q := FeQuotient(h);
    var d, top := FloorDigits(h, q);
    DigitsRange(d);
    assert top == q as int;
    assert Value(d) == Value(h) % P;
    s := Stored(d);
    StoredValue(d);
  }

  // Storing, in 32-bit arithmetic.

  /** x >> r cast to unsigned char, with q = 2^r. */
  function Byte(x: int32, q: nat): (b: byte)
    requires q > 0
  {
    (x as int / q % 256) as byte
  }

  /** x << r in 32 bits, with p = 2^r: the product wrapped into the signed range. */
  function Shl(x: int32, p: nat): (y: int32)
  {
    ((x as int * p + 0x8000_0000) % 0x1_0000_0000 - 0x8000_0000) as int32
  }

  /** The low byte of lo | x << r, for lo below 2^r: the two have no bit in common, so `|` is `+`. */
  function Meet(lo: int32, x: int32, p: nat): (b: byte)
  {
    (lo as int + Shl(x, p) as int) % 256
  }

  /** A shift that wraps still has the low byte of the product. */
  lemma MeetByte(lo: int32, x: int32, p: nat)
    ensures Meet(lo, x, p) == (lo as int + p * x as int) % 256
  {
    var v := x as int * p;
    var y := Shl(x, p) as int;
    var q := (v + 0x8000_0000) / 0x1_0000_0000;
    assert v == y + 0x1_0000_0000 * q;
    SameResidue(lo as int + y, lo as int + v, 16777216 * q, 256);
  }

  /**
    Where a shift of the store leaves the signed range: only ever on limb 4, exactly when bit 127 of the value is set.
    */
  lemma ShiftsThatWrap(d: Fe)
    requires Digits(d)
    ensures Shl(d[1], 4) as int == 4 * d[1] as int && Shl(d[2], 8) as int == 8 * d[2] as int
    ensures Shl(d[3], 32) as int == 32 * d[3] as int && Shl(d[6], 2) as int == 2 * d[6] as int
    ensures Shl(d[7], 8) as int == 8 * d[7] as int && Shl(d[8], 16) as int == 16 * d[8] as int
    ensures Shl(d[9], 64) as int == 64 * d[9] as int
    ensures Shl(d[4], 64) as int != 64 * d[4] as int <==> Value(d) / TWO127 % 2 == 1
  {
    Bit127(d);
  }

  const TWO127: int := 170141183460469231731687303715884105728

  lemma Bit127(d: Fe)
    requires Digits(d)
    ensures Value(d) / TWO127 % 2 == 1 <==> d[4] >= 33554432
  {
    ExplicitValue(d);
    var low := d[0] as int + 67108864 * d[1] as int + 2251799813685248 * d[2] as int
      + 151115727451828646838272 * d[3] as int + 5070602400912917605986812821504 * (d[4] as int % 33554432);
    var high := d[5] as int + 33554432 * d[6] as int + 2251799813685248 * d[7] as int
      + 75557863725914323419136 * d[8] as int + 5070602400912917605986812821504 * d[9] as int;
    Division(Value(d), TWO127, d[4] as int / 33554432 + 2 * high, low);
  }

  /** 2^127 is stored with such a shift; its limbs are within the bounds of every product. */
  lemma ShiftCanWrap()
    ensures var d: Fe := [0, 0, 0, 0, 33554432, 0, 0, 0, 0, 0];
      Bounded(d, TIGHT) && Digits(d) && Value(d) == TWO127 && Shl(d[4], 64) < 0
  {
    ExplicitValue([0, 0, 0, 0, 33554432, 0, 0, 0, 0, 0]);
  }

  /** The 32 bytes the store writes: limbs 0 to 4 fill the first half and limbs 5 to 9 the second. */
  function Stored(d: Fe): (s: seq<byte>)
    requires Digits(d)
    ensures |s| == 32
  {
    LowHalf(d[0], d[1], d[2], d[3], d[4]) + HighHalf(d[5], d[6], d[7], d[8], d[9])
  }

  function LowHalf(x0: int32, x1: int32, x2: int32, x3: int32, x4: int32): (s: seq<byte>)
    requires 0 <= x0 && 0 <= x1 && 0 <= x2 && 0 <= x3 && 0 <= x4
    ensures |s| == 16
  {
    [Byte(x0, 1), Byte(x0, 256), Byte(x0, 65536), Meet(x0 / 16777216, x1, 4),
     Byte(x1, 64), Byte(x1, 16384), Meet(x1 / 4194304, x2, 8), Byte(x2, 32),
     Byte(x2, 8192), Meet(x2 / 2097152, x3, 32), Byte(x3, 8), Byte(x3, 2048),
     Meet(x3 / 524288, x4, 64), Byte(x4, 4), Byte(x4, 1024), Byte(x4, 262144)]
  }

  function HighHalf(x5: int32, x6: int32, x7: int32, x8: int32, x9: int32): (s: seq<byte>)
    requires 0 <= x5 && 0 <= x6 && 0 <= x7 && 0 <= x8 && 0 <= x9
    ensures |s| == 16
  {
    [Byte(x5, 1), Byte(x5, 256), Byte(x5, 65536), Meet(x5 / 16777216, x6, 2),
     Byte(x6, 128), Byte(x6, 32768), Meet(x6 / 8388608, x7, 8), Byte(x7, 32),
     Byte(x7, 8192), Meet(x7 / 2097152, x8, 16), Byte(x8, 16), Byte(x8, 4096),
     Meet(x8 / 1048576, x9, 64), Byte(x9, 4), Byte(x9, 1024), Byte(x9, 262144)]
  }

  /** The top byte of a limb stored from bit 6 on. */
  lemma TopByte(x: int32)
    requires 0 <= x < 67108864
    ensures Byte(x, 262144) == x as int / 262144
  {
  }

  lemma LastByte(b: seq<byte>, k: nat)
    requires k < |b|
    ensures LeFrom(b, k) == b[k] + 256 * LeFrom(b, k + 1)
    ensures k + 1 == |b| ==> LeFrom(b, k) == b[k]
  {
  }

  /** Three bytes of limb x over the byte it shares with lo, with the rest of x and the limbs above it behind them. */
  lemma LimbStored(b: seq<byte>, k: nat, lo: int32, x: int32, p: nat, q: nat, rest: nat)
    requires k + 3 <= |b| && 1 <= q <= 256 && p * q == 256 && 0 <= lo as int < p && x >= 0
    requires b[k] == Meet(lo, x, p) && b[k + 1] == Byte(x, q) && b[k + 2] == Byte(x, 256 * q)
    requires LeFrom(b, k + 3) == x as int / (65536 * q) + rest
    ensures LeFrom(b, k) == lo as int + p * x as int + 16777216 * rest
  {
    hide Meet, LeFrom;
    MeetByte(lo, x, p);
    LaidOver3(b, k, lo as int, x as int, p, q, rest);
  }

  /** The low bytes of a limb stored from bit 0 on. */
  lemma FirstByte(x: int32)
    requires x >= 0
    ensures Byte(x, 1) == x as int % 256 && Byte(x, 256) == x as int / 256 % 256
    ensures Byte(x, 65536) == x as int / 65536 % 256
  {
  }

  lemma HighStored(b: seq<byte>, x5: int32, x6: int32, x7: int32, x8: int32, x9: int32)
    requires 0 <= x5 < 33554432 && 0 <= x6 < 67108864 && 0 <= x7 < 33554432 && 0 <= x8 < 67108864 && 0 <= x9 < 33554432
    requires |b| == 32 && b[16..] == HighHalf(x5, x6, x7, x8, x9)
    ensures LeFrom(b, 16) == x5 as int
      + 33554432 * (x6 as int + 67108864 * (x7 as int + 33554432 * (x8 as int + 67108864 * x9 as int)))
  {
    hide Meet, Byte, LeFrom;
    var t9 := x9 as int;
    var t8 := x8 as int + 67108864 * t9;
    var t7 := x7 as int + 33554432 * t8;
    var t6 := x6 as int + 67108864 * t7;
    assert forall k :: 16 <= k < 32 ==> b[k] == b[16..][k - 16];
    LastByte(b, 31);
    TopByte(x9);
    assert LeFrom(b, 28) == x8 as int / 1048576 + 64 * t9 by {
      LimbStored(b, 28, x8 / 1048576, x9, 64, 4, 0);
    }
    assert LeFrom(b, 25) == x7 as int / 2097152 + 16 * t8 by {
      LimbStored(b, 25, x7 / 2097152, x8, 16, 16, 64 * t9);
    }
    assert LeFrom(b, 22) == x6 as int / 8388608 + 8 * t7 by {
      LimbStored(b, 22, x6 / 8388608, x7, 8, 32, 16 * t8);
    }
    assert LeFrom(b, 19) == x5 as int / 16777216 + 2 * t6 by {
      LimbStored(b, 19, x5 / 16777216, x6, 2, 128, 8 * t7);
    }
    FirstByte(x5);
    LaidOver3(b, 16, 0, x5 as int, 1, 256, 2 * t6);
  }

  lemma LowStored(b: seq<byte>, x0: int32, x1: int32, x2: int32, x3: int32, x4: int32, t5: nat)
    requires 0 <= x0 < 67108864 && 0 <= x1 < 33554432 && 0 <= x2 < 67108864 && 0 <= x3 < 33554432 && 0 <= x4 < 67108864
    requires |b| == 32 && b[..16] == LowHalf(x0, x1, x2, x3, x4) && LeFrom(b, 16) == t5
    ensures LeFrom(b, 0) == x0 as int + 67108864 * (x1 as int
      + 33554432 * (x2 as int + 67108864 * (x3 as int + 33554432 * (x4 as int + 67108864 * t5))))
  {
    hide Meet, Byte, LeFrom;
    var t4 := x4 as int + 67108864 * t5;
    var t3 := x3 as int + 33554432 * t4;
    var t2 := x2 as int + 67108864 * t3;
    var t1 := x1 as int + 33554432 * t2;
    assert forall k :: 0 <= k < 16 ==> b[k] == b[..16][k];
    LastByte(b, 15);
    TopByte(x4);
    assert LeFrom(b, 12) == x3 as int / 524288 + 64 * t4 by {
      LimbStored(b, 12, x3 / 524288, x4, 64, 4, 256 * t5);
    }
    assert LeFrom(b, 9) == x2 as int / 2097152 + 32 * t3 by {
      LimbStored(b, 9, x2 / 2097152, x3, 32, 8, 64 * t4);
    }
    assert LeFrom(b, 6) == x1 as int / 4194304 + 8 * t2 by {
      LimbStored(b, 6, x1 / 4194304, x2, 8, 32, 32 * t3);
    }
    assert LeFrom(b, 3) == x0 as int / 16777216 + 4 * t1 by {
      LimbStored(b, 3, x0 / 16777216, x1, 4, 64, 8 * t2);
    }
    FirstByte(x0);
    LaidOver3(b, 0, 0, x0 as int, 1, 256, 4 * t1);
  }

  lemma StoredValue(d: Fe)
    requires Digits(d)
    ensures Le(Stored(d)) == Value(d)
  {
    hide LeFrom, LowHalf, HighHalf;
    var b := Stored(d);
    HighStored(b, d[5], d[6], d[7], d[8], d[9]);
    LowStored(b, d[0], d[1], d[2], d[3], d[4], LeFrom(b, 16));
    ExplicitValue(d);
  }

  /** The ten loads of ge_frombytes_vartime, from 32 bytes with the sign bit masked off. */
  function LoadFe(s: seq<byte>): (h: WideFe)
    requires |s| == 32
  {
    [Load4(s, 0),
     Load3(s, 4) * 64,
     Load3(s, 7) * 32,
     Load3(s, 10) * 8,
     Load3(s, 13) * 4,
     Load4(s, 16),
     Load3(s, 20) * 128,
     Load3(s, 23) * 32,
     Load3(s, 26) * 16,
     (Load3(s, 29) % 8388608) * 4]
  }

  /** The encoded y coordinate: the low 255 bits. */
  function EncodedY(s: seq<byte>): (y: nat)
    requires |s| == 32
  {
    Le(s) % TWO255
  }

  lemma LoadsFrom13(s: seq<byte>)
    requires |s| == 32
    ensures LeFrom(s, 13) == Load3(s, 13) as int + 16777216 * Load4(s, 16) as int + 72057594037927936 * Load3(s,
        20) as int
         + 1208925819614629174706176 * Load3(s, 23) as int + 20282409603651670423947251286016 * Load3(s, 26) as int
         + 340282366920938463463374607431768211456 * Load3(s, 29) as int
  {
    LoadedFrom(s, 29);
    LoadedFrom(s, 26);
    LoadedFrom(s, 23);
    LoadedFrom(s, 20);
    LoadedFrom(s, 16);
    LoadedFrom(s, 13);
  }

  lemma LoadsFrom0(s: seq<byte>)
    requires |s| == 32
    ensures Le(s) == Load4(s, 0) as int + 4294967296 * Load3(s, 4) as int + 72057594037927936 * Load3(s, 7) as int
         + 1208925819614629174706176 * Load3(s, 10) as int + 20282409603651670423947251286016 * LeFrom(s, 13)
  {
    LoadedFrom(s, 10);
    LoadedFrom(s, 7);
    LoadedFrom(s, 4);
    LoadedFrom(s, 0);
  }

  lemma ExplicitWide(g: WideFe)
    ensures WideValue(g) == g[0] as int
         + 67108864 * g[1] as int
         + 2251799813685248 * g[2] as int
         + 151115727451828646838272 * g[3] as int
         + 5070602400912917605986812821504 * g[4] as int
         + 340282366920938463463374607431768211456 * g[5] as int
         + 11417981541647679048466287755595961091061972992 * g[6] as int
         + 766247770432944429179173513575154591809369561091801088 * g[7] as int
         + 25711008708143844408671393477458601640355247900524685364822016 * g[8] as int
         + 1725436586697640946858688965569256363112777243042596638790631055949824 * g[9] as int
  {
    assert PairsFrom(g, 8) == g[8] as int + 67108864 * g[9] as int;
    assert PairsFrom(g, 6) == g[6] as int + 67108864 * g[7] as int + 2251799813685248 * PairsFrom(g, 8);
    assert PairsFrom(g, 4) == g[4] as int + 67108864 * g[5] as int + 2251799813685248 * PairsFrom(g, 6);
    assert PairsFrom(g, 2) == g[2] as int + 67108864 * g[3] as int + 2251799813685248 * PairsFrom(g, 4);
  }

  lemma LoadedValue(s: seq<byte>)
    requires |s| == 32
    ensures WideValue(LoadFe(s)) == EncodedY(s)
  {
    LoadsFrom13(s);
    LoadsFrom0(s);
    ExplicitWide(LoadFe(s));
    var x := Le(s) - 6901746346790563787434755862277025452451108972170386555162524223799296 * Load3(s, 29) as int;
    MaskTop(x, Load3(s, 29) as int);
  }

  lemma MaskTop(x: int, t: int)
    requires 0 <= x < 6901746346790563787434755862277025452451108972170386555162524223799296 && 0 <= t < 16777216
    ensures (x + 6901746346790563787434755862277025452451108972170386555162524223799296 * t) % TWO255 == x
        + 6901746346790563787434755862277025452451108972170386555162524223799296 * (t % 8388608)
  {
    assert t == 8388608 * (t / 8388608) + t % 8388608;
  }

  /** The test "every limb at its largest and the lowest at least 2^32 - 19". */
  predicate AllOnes(h: WideFe) {
    && h[9] == 33554428 && h[8] == 268435440 && h[7] == 536870880 && h[6] == 2147483520
    && h[5] == 4294967295 && h[4] == 67108860 && h[3] == 134217720 && h[2] == 536870880 && h[1] == 1073741760
    && h[0] >= 4294967277
  }

  /** The loads as one number: its bits from 32 up all ones and its low word at least 2^32 - 19. */
  lemma TopRange(t0: int, mid: int)
    requires 0 <= t0 < 4294967296 && 0 <= mid < 13479973333575319897333507543509815336818572211270286240551805124608
    ensures t0 + 4294967296 * mid >= P
        <==> mid == 13479973333575319897333507543509815336818572211270286240551805124607 && t0 >= 4294967277
  {
  }

  /** A number of 223 bits cut as the loads are cut is all ones when every piece is. */
  lemma AllOnesPieces(t1: int, t2: int, t3: int, t4: int, t5: int, t6: int, t7: int, t8: int, t9: int)
    requires 0 <= t1 < 16777216 && 0 <= t2 < 16777216 && 0 <= t3 < 16777216 && 0 <= t4 < 16777216
        && 0 <= t5 < 4294967296
    requires 0 <= t6 < 16777216 && 0 <= t7 < 16777216 && 0 <= t8 < 16777216 && 0 <= t9 < 8388608
    ensures t1 + 16777216 * t2 + 281474976710656 * t3 + 4722366482869645213696 * t4
        + 79228162514264337593543950336 * t5 + 340282366920938463463374607431768211456 * t6
        + 5708990770823839524233143877797980545530986496 * t7
        + 95780971304118053647396689196894323976171195136475136 * t8
        + 1606938044258990275541962092341162602522202993782792835301376 * t9 ==
          13479973333575319897333507543509815336818572211270286240551805124607
      <==> (t1 == 16777215 && t2 == 16777215 && t3 == 16777215 && t4 == 16777215 && t5 == 4294967295
        && t6 == 16777215 && t7 == 16777215 && t8 == 16777215 && t9 == 8388607)
  {
  }

  /** The test holds exactly for encodings of p and above, section 5.1.3 of RFC 8032. */
  lemma AllOnesIsTooLarge(s: seq<byte>)
    requires |s| == 32
    ensures AllOnes(LoadFe(s)) <==> EncodedY(s) >= P
  {
    var t0, t1, t2, t3, t4, t5, t6, t7, t8, t9 := Load4(s, 0) as int, Load3(s, 4) as int, Load3(s, 7) as int,
        Load3(s, 10) as int, Load3(s, 13) as int, Load4(s, 16) as int, Load3(s, 20) as int, Load3(s, 23) as int,
        Load3(s, 26) as int, (Load3(s, 29) % 8388608) as int;
    var mid := t1 + 16777216 * t2 + 281474976710656 * t3 + 4722366482869645213696 * t4
        + 79228162514264337593543950336 * t5 + 340282366920938463463374607431768211456 * t6
        + 5708990770823839524233143877797980545530986496 * t7
        + 95780971304118053647396689196894323976171195136475136 * t8
        + 1606938044258990275541962092341162602522202993782792835301376 * t9;
    AllOnesPieces(t1, t2, t3, t4, t5, t6, t7, t8, t9);
    TopRange(t0, mid);
    LoadedMiddle(s, mid);
  }

  lemma LoadedMiddle(s: seq<byte>, mid: int)
    requires |s| == 32
    requires mid == Load3(s, 4) as int + 16777216 * Load3(s, 7) as int + 281474976710656 * Load3(s, 10) as int
        + 4722366482869645213696 * Load3(s, 13) as int + 79228162514264337593543950336 * Load4(s, 16) as int
        + 340282366920938463463374607431768211456 * Load3(s, 20) as int
        + 5708990770823839524233143877797980545530986496 * Load3(s, 23) as int
        + 95780971304118053647396689196894323976171195136475136 * Load3(s, 26) as int
        + 1606938044258990275541962092341162602522202993782792835301376 * (Load3(s, 29) % 8388608) as int
    ensures EncodedY(s) == Load4(s, 0) as int + 4294967296 * mid
  {
    LoadedValue(s);
    ExplicitWide(LoadFe(s));
  }

  /** The y coordinate ge_frombytes_vartime reads, or None where it returns -1 for it. */
  method FeFromBytes(s: seq<byte>) returns (r: Option<Fe>)
    requires |s| == 32
    ensures r.None? <==> EncodedY(s) >= P
    ensures r.Some? ==> Bounded(r.value, TIGHT) && Value(r.value) % P == EncodedY(s)
  {
    var h := LoadFe(s);
    AllOnesIsTooLarge(s);
    if AllOnes(h) {
      return None;
    }
    LoadedValue(s);
    assert EncodedY(s) % P == EncodedY(s);
    var g := LoadCarries(h);
    var f := Narrowed(g);
    r := Some(f);
  }

  /** The ten carries after the loads. */
  method LoadCarries(h: WideFe) returns (g: WideFe)
    requires forall i :: 0 <= i < 10 ==> 0 <= h[i] <= 4294967295
    requires 0 <= h[9] <= 33554428
    ensures WideValue(g) % P == WideValue(h) % P
    ensures forall i :: 0 <= i < 10 ==>
      if i % 2 == 0 then -2 * TIGHT <= g[i] as int <= 2 * TIGHT else -TIGHT <= g[i] as int <= TIGHT
  {
    ghost var b := 4294967295;
    g := FeWrap(h, 57, b);
    g := FeCarry25(g, 1, b, b);
    g := FeCarry25(g, 3, b, b);
    g := FeCarry25(g, 5, b, b);
    g := FeCarry25(g, 7, b, b);

    g := FeCarry26(g, 0, b + 57, 16777216);
    g := FeCarry26(g, 2, b + 200, 16777216);
    g := FeCarry26(g, 4, b + 200, 16777216);
    g := FeCarry26(g, 6, b + 200, 16777216);
    g := FeCarry26(g, 8, b + 200, 16777216);
  }

  /** Decoding and encoding: fe_tobytes gives back every y coordinate that is accepted, with a clear sign bit. */
  method RoundTrip(s: seq<byte>) returns (r: Option<seq<byte>>)
    requires |s| == 32
    ensures r.None? <==> EncodedY(s) >= P
    ensures r.Some? ==> |r.value| == 32 && Le(r.value) == EncodedY(s)
    ensures r.Some? && s[31] < 128 ==> r.value == s
  {
    var f := FeFromBytes(s);
    if f.None? {
      return None;
    }
    var b := FeToBytes(f.value);
    if s[31] < 128 {
      ClearTop(s);
      LeInjective(b, s);
    }
    r := Some(b);
  }

  lemma ClearTop(s: seq<byte>)
    requires |s| == 32 && s[31] < 128
    ensures EncodedY(s) == Le(s)
  {
    HalfRange(s, 0);
    Pow256Value();
  }

  lemma {:induction false} HalfRange(s: seq<byte>, i: nat)
    requires |s| == 32 && s[31] < 128 && i <= 31
    ensures LeFrom(s, i) < 128 * Pow256(31 - i)
    decreases 31 - i
  {
    if i < 31 {
      HalfRange(s, i + 1);
    } else {
      assert LeFrom(s, 32) == 0;
    }
  }
}
