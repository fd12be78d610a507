/**
  Base-128 varints (Protocol Buffers Encoding, "Base 128 Varints"): the encoder, the
  64-bit reader and the 32-bit reader with its sign-extension rule.

  A decoder maps the bytes left in a stream to a value and the bytes left after it.
 */
module Varint {
  import opened Bytes

  // ---------------------------------------------------------------- varint encoding

  /** Base-128, least significant group first, all bytes but the last with the top bit set. */
  function EncVarint(v: nat): (bs: seq<byte>)
    ensures |bs| >= 1
  {
    if v < 128 then [v] else [128 + v % 128] + EncVarint(v / 128)
  }

  lemma {:induction false} VarintLength(v: nat, k: nat)
    requires 1 <= k && v < Shl(1, 7 * k)
    ensures |EncVarint(v)| <= k
  {
    if k == 1 {
      Shl7(1);
    } else if v >= 128 {
      ShlTwice(1, 7 * (k - 1), 7);
      Shl7(Shl(1, 7 * (k - 1)));
      VarintLength(v / 128, k - 1);
    }
  }

  /** Ten bytes hold every 64-bit value: the encoder's buffer is never overrun. */
  lemma VarintAtMostTen(v: nat)
    requires v < TWO_64
    ensures |EncVarint(v)| <= 10
  {
    Shl64(1);
    ShlGrows(1, 64, 70);
    VarintLength(v, 10);
  }

  // ---------------------------------------------------------------- varint decoding

  /** The 64-bit loop: `result` holds the groups read so far, `bitpos` the next position. */
  function Varint64From(bs: seq<byte>, bitpos: nat, result: nat): (r: Parse<nat>)
    ensures r.Ok? ==> |r.rest| < |bs|
    ensures r.Ok? && result < TWO_64 ==> r.val < TWO_64
    decreases |bs|
  {
    if bitpos >= 64 || |bs| == 0 then Err
    else
      var group := Shl(bs[0] % 128, bitpos) % TWO_64;
      var result' := BitOr(result, group);
      assert result < TWO_64 ==> result' < TWO_64 by {
        Shl64(1);
        if result < TWO_64 {
          OrBelow(result, group, 64);
        }
      }
      if bs[0] >= 128 then Varint64From(bs[1..], bitpos + 7, result') else Ok(result', bs[1..])
  }

  function DecVarint64(bs: seq<byte>): (r: Parse<nat>)
    ensures r.Ok? ==> |r.rest| < |bs| && r.val < TWO_64
  {
    Varint64From(bs, 0, 0)
  }

  /** What a byte past the 32 value bits may be: padding, or the sign extension of a negative int32. */
  predicate TrailingByteOk(b: byte, bitpos: nat, result: nat)
  {
    b % 128 == 0 || (result / TWO_31 != 0 && b == (if bitpos < 63 then 0xFF else 0x01))
  }

  /** The 32-bit loop after the first byte. `bitpos` is an 8-bit counter and wraps at 256. */
  function Varint32From(bs: seq<byte>, bitpos: nat, result: nat): (r: Parse<nat>)
    ensures r.Ok? ==> |r.rest| < |bs|
    ensures r.Ok? && result < TWO_32 ==> r.val < TWO_32
    decreases |bs|
  {
    if |bs| == 0 then Err
    else if bitpos >= 32 && !TrailingByteOk(bs[0], bitpos, result) then Err
    else
      var group := Shl(bs[0] % 128, bitpos) % TWO_32;
      var result' := if bitpos >= 32 then result else BitOr(result, group);
      assert result < TWO_32 ==> result' < TWO_32 by {
        Shl32(1);
        if result < TWO_32 {
          OrBelow(result, group, 32);
        }
      }
      var bitpos' := (bitpos + 7) % 256;
      if bs[0] >= 128 then Varint32From(bs[1..], bitpos', result')
      else if bitpos' == 35 && bs[0] / 16 % 8 != 0 then Err
      else Ok(result', bs[1..])
  }

  function DecVarint32(bs: seq<byte>): (r: Parse<nat>)
    ensures r.Ok? ==> |r.rest| < |bs| && r.val < TWO_32
  {
    if |bs| == 0 then Err
    else if bs[0] < 128 then Ok(bs[0], bs[1..])
    else Varint32From(bs[1..], 7, bs[0] % 128)
  }

  // ---------------------------------------------------------------- varint properties

  /** One turn of the 64-bit loop adds the next group to the part already read. */
  lemma GroupStep(low: nat, hi: nat, bitpos: nat, result: nat)
    requires low < 128 && result < Shl(1, bitpos) && Shl(low + 128 * hi, bitpos) < TWO_64
    ensures Shl(low + 128 * hi, bitpos) == Shl(low, bitpos) + Shl(hi, bitpos + 7)
    ensures Shl(low, bitpos) % TWO_64 == Shl(low, bitpos)
    ensures BitOr(result, Shl(low, bitpos)) == result + Shl(low, bitpos) < Shl(1, bitpos + 7)
    ensures hi > 0 ==> bitpos + 7 < 64
  {
    ShlNextGroup(low, hi, bitpos);
    ShlBelow(result, low, bitpos);
    OrDisjoint(result, low, bitpos);
    ModSmall(Shl(low, bitpos), TWO_64);
    if hi > 0 && bitpos + 7 >= 64 {
      Shl64(hi);
      ShlGrows(hi, 64, bitpos + 7);
    }
  }

  lemma {:induction false} Varint64FromEnc(v: nat, bitpos: nat, result: nat, rest: seq<byte>)
    requires bitpos < 64 && result < Shl(1, bitpos)
    requires Shl(v, bitpos) < TWO_64
    ensures Varint64From(EncVarint(v) + rest, bitpos, result) == Ok(result + Shl(v, bitpos), rest)
    decreases v
  {
    hide BitOr, Shl;
    var bs := EncVarint(v) + rest;
    var low, hi := v % 128, v / 128;
    assert bs[0] % 128 == low;
    assert v == low + 128 * hi;
    GroupStep(low, hi, bitpos, result);
    if v < 128 {
      assert bs[1..] == rest;
    } else {
      assert bs[1..] == EncVarint(hi) + rest;
      Varint64FromEnc(hi, bitpos + 7, result + Shl(low, bitpos), rest);
    }
  }

  /** Every 64-bit value survives the varint round trip, whatever follows it in the stream. */
  lemma Varint64RoundTrip(v: nat, rest: seq<byte>)
    requires v < TWO_64
    ensures DecVarint64(EncVarint(v) + rest) == Ok(v, rest)
  {
    Varint64FromEnc(v, 0, 0, rest);
  }

  /** Bits 32 and up of a varint that the 32-bit reader lets through. */
  predicate PaddingOnly(w: nat, bitpos: nat, result: nat)
    decreases w
  {
    if w < 128 then TrailingByteOk(w, bitpos, result)
    else TrailingByteOk(128 + w % 128, bitpos, result) && PaddingOnly(w / 128, bitpos + 7, result)
  }

  lemma {:induction false} TrailingIff(w: nat, bitpos: nat, result: nat, rest: seq<byte>)
    requires 35 <= bitpos && bitpos + 7 * |EncVarint(w)| < 256
    ensures Varint32From(EncVarint(w) + rest, bitpos, result)
         == if PaddingOnly(w, bitpos, result) then Ok(result, rest) else Err
    decreases w
  {
    var bs := EncVarint(w) + rest;
    if w < 128 {
      assert bs[1..] == rest;
    } else {
      assert bs[1..] == EncVarint(w / 128) + rest;
      TrailingIff(w / 128, bitpos + 7, result, rest);
    }
  }

  lemma FifthByteArithmetic(v: nat, result: nat)
    requires result < 0x1000_0000
    ensures Shl(v % 128, 28) % TWO_32 == v % 16 * 0x1000_0000
    ensures BitOr(result, v % 16 * 0x1000_0000) == result + v % 16 * 0x1000_0000
  {
    hide Shl, BitOr;
    var low, nibble := v % 128, v % 16;
    LowNibble(v);
    assert low % 16 == nibble;
    FifthByteBits(low, nibble, result);
  }

  lemma FifthByteBits(low: nat, nibble: nat, result: nat)
    requires result < 0x1000_0000 && low < 128 && low % 16 == nibble
    ensures Shl(low, 28) % TWO_32 == nibble * 0x1000_0000
    ensures BitOr(result, nibble * 0x1000_0000) == result + nibble * 0x1000_0000
  {
    hide Shl, BitOr;
    Shl28(low);
    Shl28(1);
    Shl28(nibble);
    OrDisjoint(result, nibble, 28);
    TopBitsLost(low);
  }

  lemma LowNibble(v: nat)
    ensures v % 128 % 16 == v % 16
  {
    var q, r := v / 128, v % 128;
    Sixteenths(v, 8 * q + r / 16, r % 16);
  }

  lemma Sixteenths(v: nat, k: nat, d: nat)
    requires d < 16 && v == 16 * k + d
    ensures v % 16 == d
  {
  }

  lemma TopBitsLost(x: nat)
    requires x < 128
    ensures 0x1000_0000 * x % TWO_32 == x % 16 * 0x1000_0000
  {
    var q := x / 16;
    assert 0x1000_0000 * x == TWO_32 * q + x % 16 * 0x1000_0000;
  }

  lemma FiveGroups(w: nat)
    requires w < 0x2000_0000
    ensures |EncVarint(w)| <= 5
  {
    Shl28(1);
    ShlGrows(1, 28, 29);
    ShlGrows(1, 29, 35);
    VarintLength(w, 5);
  }

  /** The fifth byte: its low four bits complete the word, the rest is beyond it. */
  lemma FifthByte(v: nat, result: nat, rest: seq<byte>)
    requires result < 0x1000_0000 && v < 0x10_0000_0000
    ensures var word := result + v % 16 * 0x1000_0000;
      Varint32From(EncVarint(v) + rest, 28, result) ==
      if v < 16 || (v >= 128 && PaddingOnly(v / 128, 35, word)) then Ok(word, rest) else Err
  {
    hide BitOr, Shl, TrailingByteOk;
    var bs := EncVarint(v) + rest;
    FifthByteArithmetic(v, result);
    assert bs[0] % 128 == v % 128;
    if v < 128 {
      assert bs[1..] == rest;
    } else {
      assert bs[1..] == EncVarint(v / 128) + rest;
      FiveGroups(v / 128);
      TrailingIff(v / 128, 35, result + v % 16 * 0x1000_0000, rest);
    }
  }

  /** The 64-bit values whose varint the 32-bit reader accepts. */
  predicate Reads32(v: nat)
  {
    v < TWO_32 || (v >= 0x8_0000_0000 && PaddingOnly(v / 0x8_0000_0000, 35, v % TWO_32))
  }

  lemma TailArithmetic(v: nat, low: nat, hi: nat)
    requires v == low + 0x1000_0000 * hi && low < 0x1000_0000
    ensures v / 0x8_0000_0000 == hi / 128
    ensures v % TWO_32 == low + hi % 16 * 0x1000_0000
    ensures v < TWO_32 <==> hi < 16
    ensures v >= 0x8_0000_0000 <==> hi >= 128
  {
  }

  /** The groups of `v` from bit 28 on: all that remains after four continuation bytes. */
  lemma Varint32Tail(v: nat, low: nat, hi: nat, rest: seq<byte>)
    requires v == low + 0x1000_0000 * hi && low < 0x1000_0000 && hi < 0x10_0000_0000 && hi > 0
    ensures Varint32From(EncVarint(hi) + rest, 28, low) == if Reads32(v) then Ok(v % TWO_32, rest) else Err
  {
    FifthByte(hi, low, rest);
    TailArithmetic(v, low, hi);
  }

  lemma EarlyByte(low: nat, hi: nat, bitpos: nat, result: nat)
    requires low < 128 && bitpos <= 21 && result < Shl(1, bitpos)
    ensures Shl(low, bitpos) % TWO_32 == Shl(low, bitpos)
    ensures BitOr(result, Shl(low, bitpos)) == result + Shl(low, bitpos) < Shl(1, bitpos + 7)
    ensures Shl(low + 128 * hi, bitpos) == Shl(low, bitpos) + Shl(hi, bitpos + 7)
    ensures result + Shl(low, bitpos) < 0x1000_0000
  {
    ShlBelow(result, low, bitpos);
    ShlGrows(1, bitpos + 7, 28);
    Shl28(1);
    OrDisjoint(result, low, bitpos);
    ModSmall(Shl(low, bitpos), TWO_32);
    ShlNextGroup(low, hi, bitpos);
  }

  lemma EarlyStep(v: nat, bitpos: nat, result: nat, rest: seq<byte>)
    requires bitpos in {7, 14, 21} && Shl(v % 128, bitpos) % TWO_32 == Shl(v % 128, bitpos)
    ensures var next := BitOr(result, Shl(v % 128, bitpos));
      Varint32From(EncVarint(v) + rest, bitpos, result)
      == if v < 128 then Ok(next, rest) else Varint32From(EncVarint(v / 128) + rest, bitpos + 7, next)
  {
    hide BitOr, Shl, TrailingByteOk;
    var bs := EncVarint(v) + rest;
    assert bs[0] % 128 == v % 128;
    assert bs[1..] == if v < 128 then rest else EncVarint(v / 128) + rest;
  }

  lemma Varint32Last(v: nat, result: nat, rest: seq<byte>)
    requires result < Shl(1, 28) && v > 0 && result + Shl(v, 28) < TWO_64
    ensures var whole := result + Shl(v, 28);
      Varint32From(EncVarint(v) + rest, 28, result) == if Reads32(whole) then Ok(whole % TWO_32, rest) else Err
  {
    Shl28(1);
    Shl28(v);
    Varint32Tail(result + Shl(v, 28), result, v, rest);
  }

  lemma {:induction false} Varint32FromEnc(v: nat, bitpos: nat, result: nat, whole: nat, rest: seq<byte>)
    requires bitpos in {7, 14, 21, 28} && result < Shl(1, bitpos) && v > 0
    requires whole == result + Shl(v, bitpos) < TWO_64
    ensures Varint32From(EncVarint(v) + rest, bitpos, result) == if Reads32(whole) then Ok(whole % TWO_32, rest) else Err
    decreases v
  {
    hide PaddingOnly, BitOr, Shl, Varint32From, EncVarint;
    if bitpos == 28 {
      Varint32Last(v, result, rest);
    } else {
      var low, hi := v % 128, v / 128;
      assert v == low + 128 * hi;
      EarlyByte(low, hi, bitpos, result);
      EarlyStep(v, bitpos, result, rest);
      if v < 128 {
        ModSmall(whole, TWO_32);
      } else {
        Varint32FromEnc(hi, bitpos + 7, result + Shl(low, bitpos), whole, rest);
      }
    }
  }

  lemma FirstStep(v: nat, rest: seq<byte>)
    ensures DecVarint32(EncVarint(v) + rest)
         == if v < 128 then Ok(v, rest) else Varint32From(EncVarint(v / 128) + rest, 7, v % 128)
  {
    hide BitOr, Shl, TrailingByteOk, Varint32From;
    var bs := EncVarint(v) + rest;
    assert bs[1..] == if v < 128 then rest else EncVarint(v / 128) + rest;
  }

  /** Exactly which encodings the 32-bit reader accepts, and that it returns the low word. */
  lemma {:induction false} Varint32OnEncoding(v: nat, rest: seq<byte>)
    requires v < TWO_64
    ensures DecVarint32(EncVarint(v) + rest) == if Reads32(v) then Ok(v % TWO_32, rest) else Err
  {
    FirstStep(v, rest);
    if v >= 128 {
      Shl7(1);
      Shl7(v / 128);
      Varint32FromEnc(v / 128, 7, v % 128, v, rest);
    }
  }

  // ---------------------------------------------------------------- the two readers agree

  lemma Shl32(x: nat)
    ensures Shl(x, 32) == TWO_32 * x
  {
    Shl28(x);
    ShlTwice(x, 28, 4);
    var y := 0x1000_0000 * x;
    assert Shl(y, 1) == 2 * y;
    assert Shl(y, 2) == 4 * y;
    assert Shl(y, 3) == 8 * y;
  }

  lemma Shl63(x: nat)
    ensures Shl(x, 63) == TWO_63 * x
  {
    Shl64(x);
  }

  lemma ModAdd(r: nat, q: nat)
    ensures (r + TWO_32 * q) % TWO_32 == r % TWO_32
  {
  }

  /** A group placed at bit 32 or above does not touch the low word. */
  lemma LowWordKept(r: nat, y: nat, bitpos: nat)
    requires 32 <= bitpos && r < Shl(1, bitpos)
    ensures BitOr(r, Shl(y, bitpos)) == r + Shl(y, bitpos)
    ensures BitOr(r, Shl(y, bitpos)) % TWO_32 == r % TWO_32
  {
    hide BitOr, Shl;
    OrDisjoint(r, y, bitpos);
    ShlTwice(y, bitpos - 32, 32);
    Shl32(Shl(y, bitpos - 32));
    ModAdd(r, Shl(y, bitpos - 32));
  }

  lemma HighGroup(r: nat, x: nat, bitpos: nat)
    requires 32 <= bitpos <= 56 && r < Shl(1, bitpos) && x < 128
    ensures BitOr(r, Shl(x, bitpos) % TWO_64) % TWO_32 == r % TWO_32
    ensures BitOr(r, Shl(x, bitpos) % TWO_64) < Shl(1, bitpos + 7)
  {
    hide BitOr, Shl;
    ShlBelow(r, x, bitpos);
    ShlGrows(1, bitpos + 7, 63);
    Shl63(1);
    ModSmall(Shl(x, bitpos), TWO_64);
    LowWordKept(r, x, bitpos);
  }

  lemma TopGroup(r: nat, x: nat)
    requires r < Shl(1, 63) && x < 128
    ensures BitOr(r, Shl(x, 63) % TWO_64) % TWO_32 == r % TWO_32
  {
    hide BitOr, Shl;
    Shl63(x);
    Shl63(x % 2);
    LowWordKept(r, x % 2, 63);
  }

  lemma LowGroup(r: nat, x: nat, bitpos: nat)
    requires bitpos <= 21 && r < Shl(1, bitpos) && x < 128
    ensures BitOr(r, Shl(x, bitpos) % TWO_64) == BitOr(r, Shl(x, bitpos) % TWO_32) < Shl(1, bitpos + 7)
    ensures BitOr(r, Shl(x, bitpos) % TWO_64) < TWO_32
  {
    hide BitOr, Shl;
    EarlyByte(x, 0, bitpos, r);
    ModSmall(Shl(x, bitpos), TWO_64);
  }

  lemma FifthGroup(r: nat, x: nat)
    requires r < Shl(1, 28) && x < 128
    ensures BitOr(r, Shl(x, 28) % TWO_64) < Shl(1, 35)
    ensures BitOr(r, Shl(x, 28) % TWO_32) == BitOr(r, Shl(x, 28) % TWO_64) % TWO_32
  {
    hide BitOr, Shl;
    Shl28(1);
    Shl28(x);
    Shl28(x % 16);
    ShlBelow(r, x, 28);
    OrDisjoint(r, x, 28);
    OrDisjoint(r, x % 16, 28);
    FifthSum(r, x);
  }

  lemma FifthSum(r: nat, x: nat)
    requires r < 0x1000_0000 && x < 128
    ensures (r + 0x1000_0000 * x) % TWO_32 == r + 0x1000_0000 * (x % 16)
    ensures (0x1000_0000 * x) % TWO_32 == 0x1000_0000 * (x % 16)
    ensures (0x1000_0000 * x) % TWO_64 == 0x1000_0000 * x
  {
  }

  /** One byte in both loops: the words stay congruent and the 64-bit one stays below its next position. */
  lemma AgreeStep(r32: nat, r64: nat, x: nat, bitpos: nat)
    requires bitpos in {7, 14, 21, 28, 35, 42, 49, 56, 63}
    requires r64 < Shl(1, bitpos) && r32 == r64 % TWO_32 && x < 128
    ensures var n64 := BitOr(r64, Shl(x, bitpos) % TWO_64);
      var n32 := if bitpos >= 32 then r32 else BitOr(r32, Shl(x, bitpos) % TWO_32);
      n32 == n64 % TWO_32 && (bitpos < 63 ==> n64 < Shl(1, bitpos + 7))
  {
    hide BitOr, Shl;
    if bitpos == 63 {
      TopGroup(r64, x);
    } else if bitpos >= 32 {
      HighGroup(r64, x, bitpos);
    } else {
      ShlGrows(1, bitpos, 28);
      Shl28(1);
      ModSmall(r64, TWO_32);
      if bitpos == 28 {
        FifthGroup(r64, x);
      } else {
        LowGroup(r64, x, bitpos);
        ModSmall(BitOr(r64, Shl(x, bitpos) % TWO_64), TWO_32);
      }
    }
  }

  lemma {:induction false} AgreeFrom(bs: seq<byte>, bitpos: nat, r32: nat, r64: nat)
    requires bitpos in {7, 14, 21, 28, 35, 42, 49, 56, 63}
    requires r64 < Shl(1, bitpos) && r32 == r64 % TWO_32
    requires Varint32From(bs, bitpos, r32).Ok? && Varint64From(bs, bitpos, r64).Ok?
    ensures Varint32From(bs, bitpos, r32).rest == Varint64From(bs, bitpos, r64).rest
    ensures Varint32From(bs, bitpos, r32).val == Varint64From(bs, bitpos, r64).val % TWO_32
    decreases |bs|
  {
    hide BitOr, Shl, TrailingByteOk;
    AgreeStep(r32, r64, bs[0] % 128, bitpos);
    if bs[0] >= 128 && bitpos < 63 {
      var n64 := BitOr(r64, Shl(bs[0] % 128, bitpos) % TWO_64);
      var n32 := if bitpos >= 32 then r32 else BitOr(r32, Shl(bs[0] % 128, bitpos) % TWO_32);
      AgreeFrom(bs[1..], bitpos + 7, n32, n64);
    }
  }

  lemma FirstOf64(bs: seq<byte>)
    requires |bs| > 0
    ensures DecVarint64(bs) == if bs[0] >= 128 then Varint64From(bs[1..], 7, bs[0] % 128) else Ok(bs[0] % 128, bs[1..])
  {
    hide BitOr, Shl;
    ShlZero(bs[0] % 128);
    ModSmall(bs[0] % 128, TWO_64);
    OrZero(bs[0] % 128);
  }

  lemma ShlZero(x: nat)
    ensures Shl(x, 0) == x
  {
  }

  /** Where both readers succeed they consume the same bytes and the 32-bit one returns the low word. */
  lemma VarintReadersAgree(bs: seq<byte>)
    requires DecVarint32(bs).Ok? && DecVarint64(bs).Ok?
    ensures DecVarint32(bs).rest == DecVarint64(bs).rest
    ensures DecVarint32(bs).val == DecVarint64(bs).val % TWO_32
  {
    hide BitOr, Shl, Varint64From, Varint32From, DecVarint64;
    FirstOf64(bs);
    if bs[0] >= 128 {
      Shl7(1);
      AgreeFrom(bs[1..], 7, bs[0] % 128, bs[0] % 128);
    }
  }
}
