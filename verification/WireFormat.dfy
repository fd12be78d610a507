/**
  The bytes themselves: what every encoding looks like, said without the functions that make it,
  and what the readers do with any bytes, canonical or not (Protocol Buffers Encoding).
 */
module WireFormat {
  import opened Bytes
  import opened Varint
  import opened Wire
  import opened Message
  import opened EncodeSpec

  // ---------------------------------------------------------------- varints

  /** The number that the groups of seven bits make, least significant first. */
  function Base128(bs: seq<byte>): nat {
    if |bs| == 0 then 0 else bs[0] % 128 + 128 * Base128(bs[1..])
  }

  /** The bytes up to the first one without the top bit; one more than there are if none is. */
  function VarintLen(bs: seq<byte>): (n: nat)
    ensures n >= 1 && n <= |bs| + 1
  {
    if |bs| == 0 || bs[0] < 128 then 1 else 1 + VarintLen(bs[1..])
  }

  /** The top bit is set in all bytes but the last, which is not zero unless it is the only one. */
  predicate IsVarint(bs: seq<byte>) {
    && |bs| >= 1 && bs[|bs| - 1] < 128 && (|bs| > 1 ==> bs[|bs| - 1] > 0)
    && forall i :: 0 <= i < |bs| - 1 ==> bs[i] >= 128
  }

  /** The encoder's varint is the one of that form with that value. */
  lemma VarintForm(v: nat, bs: seq<byte>)
    ensures bs == EncVarint(v) <==> IsVarint(bs) && Base128(bs) == v
  {
    VarintIs(v);
    if IsVarint(bs) {
      OnlyVarint(bs);
    }
  }

  lemma SplitGroup(low: nat, hi: nat)
    requires low < 128
    ensures (low + 128 * hi) % 128 == low && (low + 128 * hi) / 128 == hi
  {
  }

  /** A varint of several bytes: a continued group, and a varint that is not zero. */
  lemma Continued(b: byte, rest: seq<byte>)
    requires b >= 128 && |rest| > 0
    ensures IsVarint([b] + rest) <==> IsVarint(rest) && rest[|rest| - 1] > 0
    ensures Base128([b] + rest) == b % 128 + 128 * Base128(rest)
  {
    var bs := [b] + rest;
    assert bs[1..] == rest;
    assert forall i :: 0 <= i < |rest| ==> bs[i + 1] == rest[i];
    if IsVarint(rest) && rest[|rest| - 1] > 0 {
      forall i | 0 <= i < |bs| - 1
        ensures bs[i] >= 128
      {
        assert i > 0 ==> bs[i] == rest[i - 1];
      }
    }
  }

  lemma {:induction false} VarintIs(v: nat)
    ensures IsVarint(EncVarint(v)) && Base128(EncVarint(v)) == v
    decreases v
  {
    hide IsVarint, Base128;
    if v >= 128 {
      VarintIs(v / 128);
      VarintPositive(v / 128);
      Continued(128 + v % 128, EncVarint(v / 128));
    } else {
      OneByte(v);
    }
  }

  lemma OneByte(b: byte)
    requires b < 128
    ensures IsVarint([b]) && Base128([b]) == b
  {
    assert [b][1..] == [];
  }

  lemma {:induction false} OnlyVarint(bs: seq<byte>)
    requires IsVarint(bs)
    ensures bs == EncVarint(Base128(bs))
    decreases |bs|
  {
    hide Base128;
    var rest := bs[1..];
    if |bs| > 1 {
      assert bs == [bs[0]] + rest;
      Continued(bs[0], rest);
      OnlyVarint(rest);
      LastPositive(bs);
      SplitGroup(bs[0] % 128, Base128(rest));
    } else {
      assert bs == [bs[0]];
      OneByte(bs[0]);
    }
  }

  lemma {:induction false} VarintPositive(v: nat)
    requires v > 0
    ensures var bs := EncVarint(v); bs[|bs| - 1] > 0
    decreases v
  {
    if v >= 128 {
      VarintPositive(v / 128);
    }
  }

  /** A varint of several bytes is at least 128. */
  lemma {:induction false} LastPositive(bs: seq<byte>)
    requires IsVarint(bs) && |bs| > 1
    ensures Base128(bs) >= 128
    decreases |bs|
  {
    var rest := bs[1..];
    if |rest| > 1 {
      assert forall i :: 0 <= i < |rest| ==> rest[i] == bs[i + 1];
      LastPositive(rest);
    } else {
      assert Base128(rest) == rest[0] % 128 + 128 * Base128(rest[1..]);
      assert rest[0] == bs[1];
    }
  }

  lemma GroupAdded(result: nat, low: nat, bitpos: nat)
    requires low < 128 && result < Shl(1, bitpos) && bitpos + 7 <= 63
    ensures BitOr(result, Shl(low, bitpos) % TWO_64) == result + Shl(low, bitpos) < Shl(1, bitpos + 7)
    ensures result + Shl(low, bitpos) < TWO_63
  {
    hide BitOr, Shl;
    ShlBelow(result, low, bitpos);
    ShlGrows(1, bitpos + 7, 63);
    Shl63(1);
    ModSmall(Shl(low, bitpos), TWO_64);
    OrDisjoint(result, low, bitpos);
  }

  /** The tenth group has room for one bit. */
  lemma TopGroupAdded(result: nat, low: nat)
    requires low < 128 && result < TWO_63
    ensures BitOr(result, Shl(low, 63) % TWO_64) == (result + Shl(low, 63)) % TWO_64
  {
    hide BitOr, Shl;
    Shl63(1);
    Shl63(low);
    Shl63(low % 2);
    assert TWO_63 * low % TWO_64 == TWO_63 * (low % 2) by {
      assert TWO_63 * low == TWO_64 * (low / 2) + TWO_63 * (low % 2);
    }
    OrDisjoint(result, low % 2, 63);
    assert (result + TWO_63 * low) % TWO_64 == result + TWO_63 * (low % 2) by {
      assert result + TWO_63 * low == TWO_64 * (low / 2) + (result + TWO_63 * (low % 2));
    }
  }

  lemma LastRead(bs: seq<byte>, result: nat)
    requires |bs| > 0 && result < Shl(1, 63)
    ensures Varint64From(bs, 63, result) ==
      if bs[0] < 128 then Ok((result + Shl(Base128(bs[..1]), 63)) % TWO_64, bs[1..]) else Err
    ensures bs[0] < 128 <==> VarintLen(bs) == 1
  {
    hide BitOr, Shl;
    Shl63(1);
    TopGroupAdded(result, bs[0] % 128);
    if bs[0] < 128 {
      OneGroup(bs);
    }
  }

  /** A continued varint is one group and the rest. */
  lemma MoreGroups(bs: seq<byte>)
    requires |bs| > 0 && bs[0] >= 128
    ensures var n := VarintLen(bs);
      && n == 1 + VarintLen(bs[1..])
      && (n <= |bs| ==> Base128(bs[..n]) == bs[0] % 128 + 128 * Base128(bs[1..][..n - 1]) && bs[n..] == bs[1..][n - 1..])
  {
    LongerLen(bs);
    var n := VarintLen(bs);
    hide VarintLen;
    if n <= |bs| {
      assert bs[..n][1..] == bs[1..][..n - 1];
      BaseStep(bs[..n]);
    }
  }

  lemma LongerLen(bs: seq<byte>)
    requires |bs| > 0 && bs[0] >= 128
    ensures VarintLen(bs) == 1 + VarintLen(bs[1..])
  {
  }

  lemma BaseStep(bs: seq<byte>)
    requires |bs| > 0
    ensures Base128(bs) == bs[0] % 128 + 128 * Base128(bs[1..])
  {
  }

  lemma {:induction false} GroupsRead(bs: seq<byte>, bitpos: nat, result: nat)
    requires bitpos in {0, 7, 14, 21, 28, 35, 42, 49, 56, 63} && result < Shl(1, bitpos)
    ensures var n := VarintLen(bs);
      Varint64From(bs, bitpos, result) ==
        if n <= |bs| && bitpos + 7 * (n - 1) < 64 then Ok((result + Shl(Base128(bs[..n]), bitpos)) % TWO_64, bs[n..]) else Err
    decreases |bs|
  {
    hide BitOr, Shl, VarintLen, Base128;
    if |bs| == 0 {
    } else if bitpos == 63 {
      LastRead(bs, result);
    } else {
      var low := bs[0] % 128;
      GroupAdded(result, low, bitpos);
      if bs[0] >= 128 {
        MoreGroups(bs);
        GroupsRead(bs[1..], bitpos + 7, result + Shl(low, bitpos));
        var n := VarintLen(bs);
        if n <= |bs| {
          ShlNextGroup(low, Base128(bs[1..][..n - 1]), bitpos);
        }
      } else {
        OneGroup(bs);
        ModSmall(result + Shl(low, bitpos), TWO_64);
      }
    }
  }

  lemma OneGroup(bs: seq<byte>)
    requires |bs| > 0 && bs[0] < 128
    ensures VarintLen(bs) == 1 && Base128(bs[..1]) == bs[0] % 128 == bs[0]
  {
    assert bs[..1][1..] == [];
  }

  /** The 64-bit reader on any bytes: a varint of at most ten bytes, in whatever form, and its value in 64 bits. */
  lemma {:induction false} Reader64(bs: seq<byte>)
    ensures var n := VarintLen(bs);
      DecVarint64(bs) == if n <= |bs| && n <= 10 then Ok(Base128(bs[..n]) % TWO_64, bs[n..]) else Err
  {
    hide BitOr, Varint64From;
    GroupsRead(bs, 0, 0);
    var n := VarintLen(bs);
    if n <= |bs| {
      ShlZero(Base128(bs[..n]));
    }
  }

  /** Skipping a varint passes all its bytes, however many. */
  lemma {:induction false} SkipReader(bs: seq<byte>)
    ensures SkipVarint(bs) == if VarintLen(bs) <= |bs| then Ok((), bs[VarintLen(bs)..]) else Err
    decreases |bs|
  {
    if |bs| > 0 && bs[0] >= 128 {
      SkipReader(bs[1..]);
      var n := VarintLen(bs);
      if n <= |bs| {
        assert bs[n..] == bs[1..][n - 1..];
      }
    }
  }

  /** Every byte behind the fifth is padding of the word `r`, or extends its sign. */
  predicate Padded(bs: seq<byte>, bitpos: nat, r: nat) {
    forall i :: 0 <= i < |bs| ==>
      || bs[i] == 0 || bs[i] == 128
      || (r >= TWO_31 && bs[i] == if bitpos + 7 * i < 63 then 0xFF else 0x01)
  }

  lemma PaddedHead(bs: seq<byte>, bitpos: nat, r: nat)
    requires |bs| > 0 && r < TWO_32
    ensures Padded(bs, bitpos, r) <==> TrailingByteOk(bs[0], bitpos, r) && Padded(bs[1..], bitpos + 7, r)
  {
    assert forall i :: 0 <= i < |bs[1..]| ==> bs[1..][i] == bs[i + 1];
    assert r / TWO_31 != 0 <==> r >= TWO_31;
    if TrailingByteOk(bs[0], bitpos, r) && Padded(bs[1..], bitpos + 7, r) {
      forall i | 0 <= i < |bs|
        ensures bs[i] == 0 || bs[i] == 128 || (r >= TWO_31 && bs[i] == if bitpos + 7 * i < 63 then 0xFF else 0x01)
      {
        assert i > 0 ==> bs[i] == bs[1..][i - 1];
      }
    }
  }

  lemma {:induction false} PaddingRead(bs: seq<byte>, bitpos: nat, r: nat)
    requires 35 <= bitpos && bitpos + 7 * VarintLen(bs) < 256 && r < TWO_32
    ensures var n := VarintLen(bs);
      Varint32From(bs, bitpos, r) == if n <= |bs| && Padded(bs[..n], bitpos, r) then Ok(r, bs[n..]) else Err
    decreases |bs|
  {
    hide TrailingByteOk, Padded;
    if |bs| > 0 {
      var n := VarintLen(bs);
      if n <= |bs| {
        assert bs[..n][1..] == bs[1..][..n - 1] && bs[n..] == bs[1..][n - 1..];
        PaddedHead(bs[..n], bitpos, r);
      }
      if bs[0] >= 128 {
        PaddingRead(bs[1..], bitpos + 7, r);
      } else {
        NothingPadded(bitpos + 7, r);
      }
    }
  }

  lemma NothingPadded(bitpos: nat, r: nat)
    ensures Padded([], bitpos, r)
  {
  }

  /** The bytes of the varint, or all of them if it does not end. */
  function Groups(bs: seq<byte>): seq<byte> {
    if VarintLen(bs) <= |bs| then bs[..VarintLen(bs)] else bs
  }

  /** The fifth byte completes the word. */
  lemma FifthRead(bs: seq<byte>, r: nat)
    requires r < 0x1000_0000 && VarintLen(bs) <= 32
    ensures var n := VarintLen(bs);
      var word := Completed(bs, 28, r);
      Varint32From(bs, 28, r) ==
        if n <= |bs| && (if n == 1 then bs[0] < 16 else Padded(bs[1..n], 35, word)) then Ok(word, bs[n..]) else Err
  {
    hide BitOr, Shl, TrailingByteOk, Padded, Completed, VarintLen, Base128;
    if |bs| > 0 {
      FifthByteArithmetic(bs[0], r);
      assert bs[0] / 16 % 8 == 0 && bs[0] < 128 <==> bs[0] < 16;
      FifthWord(bs, r);
      if bs[0] >= 128 {
        MoreGroups(bs);
        PaddingRead(bs[1..], 35, Completed(bs, 28, r));
        var n := VarintLen(bs);
        if n <= |bs| {
          assert bs[1..n] == bs[1..][..n - 1];
        }
      } else {
        OneGroup(bs);
      }
    }
  }

  lemma FifthWord(bs: seq<byte>, r: nat)
    requires r < 0x1000_0000 && |bs| > 0
    ensures var b: nat := bs[0]; Completed(bs, 28, r) == r + b % 16 * 0x1000_0000
  {
    hide Shl, Base128, VarintLen, Groups;
    var low: nat := bs[0] % 128;
    LowNibble(bs[0]);
    Shl28(Base128(Groups(bs)));
    if bs[0] >= 128 {
      GroupsStep(bs);
      WordOf(r, low, Base128(Groups(bs[1..])));
    } else {
      OneGroup(bs);
      GroupsOfOne(bs);
      WordOf(r, low, 0);
    }
  }

  lemma WordOf(r: nat, low: nat, hi: nat)
    requires r < 0x1000_0000 && low < 128
    ensures (r + 0x1000_0000 * (low + 128 * hi)) % TWO_32 == r + low % 16 * 0x1000_0000
  {
    var q, d := low / 16, low % 16;
    assert low == 16 * q + d;
    ModAdd(r + 0x1000_0000 * d, q + 8 * hi);
    ModSmall(r + 0x1000_0000 * d, TWO_32);
  }

  /** What the 32-bit reader asks of a varint of which `k` bytes reach up to the 35th bit. */
  predicate Word32(bs: seq<byte>, k: nat, word: nat)
    requires VarintLen(bs) <= |bs|
  {
    var n := VarintLen(bs);
    n < k || (n == k > 0 && bs[k - 1] < 16) || (n > k && Padded(bs[k..n], 35, word))
  }

  lemma GroupsStep(bs: seq<byte>)
    requires |bs| > 0 && bs[0] >= 128
    ensures Base128(Groups(bs)) == bs[0] % 128 + 128 * Base128(Groups(bs[1..]))
  {
    hide VarintLen;
    LongerLen(bs);
    var n := VarintLen(bs);
    if n <= |bs| {
      assert bs[..n][1..] == bs[1..][..n - 1];
      BaseStep(bs[..n]);
    } else {
      BaseStep(bs);
    }
  }

  lemma SliceOfTail(bs: seq<byte>, from: nat, to: nat)
    requires from <= to < |bs|
    ensures bs[from + 1..to + 1] == bs[1..][from..to]
  {
    var l, r := bs[from + 1..to + 1], bs[1..][from..to];
    forall i | 0 <= i < to - from
      ensures l[i] == r[i]
    {
      assert l[i] == bs[from + 1 + i];
    }
  }

  lemma WordStep(bs: seq<byte>, k: nat, word: nat)
    requires |bs| > 0 && bs[0] >= 128 && VarintLen(bs) <= |bs| && k > 0
    ensures Word32(bs, k + 1, word) <==> Word32(bs[1..], k, word)
  {
    hide Padded, VarintLen;
    LongerLen(bs);
    var n := VarintLen(bs);
    assert VarintLen(bs[1..]) == n - 1;
    if n > k + 1 {
      SliceOfTail(bs, k, n - 1);
    } else if n == k + 1 {
      assert bs[k] == bs[1..][k - 1];
    }
  }

  lemma WordEnds(bs: seq<byte>, k: nat, word: nat)
    ensures VarintLen(bs) <= |bs| && VarintLen(bs) < k ==> Word32(bs, k, word)
    ensures VarintLen(bs) <= |bs| && k == 1 ==>
      (Word32(bs, 1, word) <==> if VarintLen(bs) == 1 then bs[0] < 16 else Padded(bs[1..VarintLen(bs)], 35, word))
  {
    hide Padded;
  }

  /** The word that groups from `bitpos` on complete. */
  function Completed(bs: seq<byte>, bitpos: nat, r: nat): (word: nat)
    ensures word < TWO_32
  {
    (r + Shl(Base128(Groups(bs)), bitpos)) % TWO_32
  }

  lemma CompletedStep(bs: seq<byte>, bitpos: nat, r: nat)
    requires |bs| > 0 && bs[0] >= 128
    ensures Completed(bs, bitpos, r) == Completed(bs[1..], bitpos + 7, r + Shl(bs[0] % 128, bitpos))
  {
    hide Shl, Base128, Groups;
    GroupsStep(bs);
    ShlNextGroup(bs[0] % 128, Base128(Groups(bs[1..])), bitpos);
  }

  lemma CompletedLast(bs: seq<byte>, bitpos: nat, r: nat)
    requires |bs| > 0 && bs[0] < 128 && r + Shl(bs[0], bitpos) < TWO_32
    ensures Completed(bs, bitpos, r) == r + Shl(bs[0], bitpos)
  {
    hide Shl;
    OneGroup(bs);
    GroupsOfOne(bs);
    ModSmall(r + Shl(bs[0], bitpos), TWO_32);
  }

  /** A byte before the fifth. */
  lemma EarlyRead(bs: seq<byte>, bitpos: nat, r: nat)
    requires bitpos in {7, 14, 21} && r < Shl(1, bitpos) && |bs| > 0
    ensures var next := r + Shl(bs[0] % 128, bitpos);
      && next < Shl(1, bitpos + 7) && next < TWO_32
      && Varint32From(bs, bitpos, r) == if bs[0] >= 128 then Varint32From(bs[1..], bitpos + 7, next) else Ok(next, bs[1..])
  {
    hide BitOr, Shl, TrailingByteOk;
    EarlyByte(bs[0] % 128, 0, bitpos, r);
  }

  lemma {:induction false} LowGroupsRead(bs: seq<byte>, bitpos: nat, r: nat, k: nat)
    requires bitpos in {7, 14, 21, 28} && 7 * k == 35 - bitpos && r < Shl(1, bitpos) && VarintLen(bs) <= 31 + k
    ensures var n := VarintLen(bs);
      var word := Completed(bs, bitpos, r);
      Varint32From(bs, bitpos, r) == if n <= |bs| && Word32(bs, k, word) then Ok(word, bs[n..]) else Err
    decreases |bs|
  {
    hide BitOr, Shl, VarintLen, Base128, Padded, Groups, Word32, Completed;
    if bitpos == 28 {
      Shl28(1);
      FifthRead(bs, r);
      WordEnds(bs, 1, Completed(bs, 28, r));
    } else if |bs| == 0 {
    } else {
      EarlyRead(bs, bitpos, r);
      hide Varint32From;
      if bs[0] >= 128 {
        MoreGroups(bs);
        CompletedStep(bs, bitpos, r);
        LowGroupsRead(bs[1..], bitpos + 7, r + Shl(bs[0] % 128, bitpos), k - 1);
        if VarintLen(bs) <= |bs| {
          WordStep(bs, k - 1, Completed(bs, bitpos, r));
        }
      } else {
        OneGroup(bs);
        CompletedLast(bs, bitpos, r);
        WordEnds(bs, k, Completed(bs, bitpos, r));
      }
    }
  }

  lemma GroupsOfOne(bs: seq<byte>)
    requires |bs| > 0 && bs[0] < 128
    ensures Groups(bs) == bs[..1]
  {
  }

  /**
    The 32-bit reader on any bytes: it gives the low word of the varint's value. Four bytes always
    do; a fifth and last one must not go beyond the word, though with bytes behind it its upper
    bits are ignored; those bytes must be padding or extend the sign. (Its counter of bits is a
    byte; a varint of 37 bytes or more would come round to the first bits.)
   */
  lemma {:induction false} Reader32(bs: seq<byte>)
    requires VarintLen(bs) <= 36
    ensures var n := VarintLen(bs);
      var word := Base128(Groups(bs)) % TWO_32;
      DecVarint32(bs) ==
        if n <= |bs| && (n <= 4 || (n == 5 && bs[4] < 16) || (n > 5 && Padded(bs[5..n], 35, word))) then Ok(word, bs[n..]) else Err
  {
    hide BitOr, Padded, Varint32From;
    if |bs| > 0 {
      if bs[0] >= 128 {
        Shl7(1);
        MoreGroups(bs);
        GroupsStep(bs);
        Shl7(Base128(Groups(bs[1..])));
        LowGroupsRead(bs[1..], 7, bs[0] % 128, 4);
        assert Completed(bs[1..], 7, bs[0] % 128) == Base128(Groups(bs)) % TWO_32;
        if VarintLen(bs) > 5 && VarintLen(bs) <= |bs| {
          SliceOfTail(bs, 4, VarintLen(bs) - 1);
        }
      } else {
        OneGroup(bs);
      }
    }
  }

  // ---------------------------------------------------------------- fixed width

  function Word(a: nat, b: nat, c: nat, d: nat): nat {
    a + 0x100 * b + 0x1_0000 * c + 0x100_0000 * d
  }

  /** Four bytes, least significant first. */
  lemma Fixed32Is(v: nat, bs: seq<byte>)
    requires v < TWO_32
    ensures Le(v, 4) == [v % 0x100, v / 0x100 % 0x100, v / 0x1_0000 % 0x100, v / 0x100_0000]
    ensures DecFixed(bs, 4) ==
      if |bs| >= 4 then Ok(Word(bs[0], bs[1], bs[2], bs[3]), bs[4..]) else Err
  {
    hide Le, FromLe, Word;
    LeFour(v);
    if |bs| >= 4 {
      FourBytes(bs[..4]);
    }
  }

  lemma LeFour(v: nat)
    requires v < TWO_32
    ensures Le(v, 4) == [v % 0x100, v / 0x100 % 0x100, v / 0x1_0000 % 0x100, v / 0x100_0000]
  {
    hide Le;
    var a, b, c := v / 0x100, v / 0x1_0000, v / 0x100_0000;
    BytesOf(v);
    LeStep(v, 3);
    LeStep(a, 2);
    LeStep(b, 1);
    LeStep(c, 0);
    assert Le(c / 0x100, 0) == [];
  }

  lemma BytesOf(v: nat)
    requires v < TWO_32
    ensures v / 0x100 / 0x100 == v / 0x1_0000 && v / 0x1_0000 / 0x100 == v / 0x100_0000 && v / 0x100_0000 % 0x100 == v / 0x100_0000
  {
  }

  lemma LeStep(v: nat, n: nat)
    ensures Le(v, n + 1) == [v % 256] + Le(v / 256, n)
  {
  }

  lemma FourBytes(bs: seq<byte>)
    requires |bs| == 4
    ensures FromLe(bs) == Word(bs[0], bs[1], bs[2], bs[3])
  {
    var b1, b2, b3 := bs[1..], bs[1..][1..], bs[1..][1..][1..];
    assert b1[0] == bs[1] && b2[0] == bs[2] && b3[0] == bs[3] && b3[1..] == [];
    assert FromLe(b3) == bs[3] + 256 * FromLe([]);
    assert FromLe(b2) == bs[2] + 256 * FromLe(b3);
    assert FromLe(b1) == bs[1] + 256 * FromLe(b2);
  }

  /** Eight bytes are the low word and then the high word. */
  lemma Fixed64Is(v: nat, bs: seq<byte>)
    requires v < TWO_64
    ensures Le(v, 8) == Le(v % TWO_32, 4) + Le(v / TWO_32, 4)
    ensures DecFixed(bs, 8) ==
      if |bs| >= 8 then Ok(DecFixed(bs[..4], 4).val + TWO_32 * DecFixed(bs[4..8], 4).val, bs[8..]) else Err
  {
    hide Le, FromLe;
    if |bs| >= 8 {
      var low, high := FromLe(bs[..4]), FromLe(bs[4..8]);
      assert bs[..4] + bs[4..8] == bs[..8];
      LeParts(bs[..4], bs[4..8]);
      assert bs[..4][..4] == bs[..4] && bs[4..8][..4] == bs[4..8];
    }
    LowFour(v);
  }

  lemma LeParts(a: seq<byte>, b: seq<byte>)
    requires |a| == 4
    ensures FromLe(a + b) == FromLe(a) + TWO_32 * FromLe(b)
  {
    hide FromLe;
    FourBytes(a);
    FromStep(a + b);
    FromStep((a + b)[1..]);
    FromStep((a + b)[1..][1..]);
    FromStep((a + b)[1..][1..][1..]);
    assert (a + b)[1..][1..][1..][1..] == b;
  }

  lemma FromStep(bs: seq<byte>)
    requires |bs| > 0
    ensures FromLe(bs) == bs[0] + 256 * FromLe(bs[1..])
  {
  }

  lemma LowFour(v: nat)
    requires v < TWO_64
    ensures Le(v, 8) == Le(v % TWO_32, 4) + Le(v / TWO_32, 4)
  {
    hide Le, FromLe;
    var low, high := v % TWO_32, v / TWO_32;
    Shl32(1);
    Shl64(1);
    FromLeOfLe(low, 4);
    FromLeOfLe(high, 4);
    LeParts(Le(low, 4), Le(high, 4));
    LeOfFromLe(Le(low, 4) + Le(high, 4));
  }

  // ---------------------------------------------------------------- keys and skipping

  /** A key is the tag and three bits of wire type; only the key zero ends a message, whatever other keys say of tag zero. */
  lemma KeyIs(key: nat, rest: seq<byte>)
    requires key < TWO_32
    ensures DecTag(EncVarint(key) + rest) == if key == 0 then End(rest) else Tag(key / 8, key % 8, rest)
  {
    hide EncVarint, DecVarint32;
    LengthRead(key, rest);
  }

  /** How much of a record of each wire type is passed over; of other wire types nothing can be. */
  lemma SkipIs(wt: nat, bs: seq<byte>)
    ensures SkipField(wt, bs) ==
      match wt
      case 0 => if VarintLen(bs) <= |bs| then Ok((), bs[VarintLen(bs)..]) else Err
      case 1 => if |bs| >= 8 then Ok((), bs[8..]) else Err
      case 2 => if DecVarint32(bs).Ok? && |DecVarint32(bs).rest| >= DecVarint32(bs).val then Ok((), DecVarint32(bs).rest[DecVarint32(bs).val..]) else Err
      case 5 => if |bs| >= 4 then Ok((), bs[4..]) else Err
      case _ => Err
  {
    hide DecVarint32, SkipVarint;
    SkipReader(bs);
  }

  // ---------------------------------------------------------------- values

  /**
    The data of each type: numbers as varints of their two's complement in 64 bits, of their zigzag
    code or of themselves, or as little-endian words; a bool as 0 or 1; bytes, a string up to its
    terminator and a submessage behind their length. A negative number always takes ten bytes.
   */
  lemma ValueBytes(f: Field, v: Value)
    requires EncVal(f, v).Some?
    ensures var data := EncVal(f, v).value;
      match f.ltype
      case LBool => v.VBool? && data == [if v.raw == 0 then 0 else 1]
      case LVarint => v.VInt? && data == EncVarint(if v.n < 0 then TWO_64 + v.n else v.n) && (v.n < 0 ==> |data| == 10)
      case LUvarint => v.VInt? && v.n >= 0 && data == EncVarint(v.n)
      case LSvarint => v.VInt? && data == EncVarint(if v.n < 0 then -2 * v.n - 1 else 2 * v.n)
      case LFixed32 => v.VInt? && 0 <= v.n < TWO_32 && data == Le(v.n, 4)
      case LFixed64 => v.VInt? && 0 <= v.n < TWO_64 && data == Le(v.n, 8)
      case LBytes => v.VBytes? && data == EncVarint(|v.bytes|) + v.bytes
      case LFixedLengthBytes => v.VBytes? && data == EncVarint(|v.bytes|) + v.bytes
      case LString => v.VString? && data == EncVarint(|CStr(v.mem)|) + CStr(v.mem)
      case LSubmessage(ptr) => v.VMsg? && Enc(ptr, v.msg).Some? && data == EncVarint(|Enc(ptr, v.msg).value|) + Enc(ptr, v.msg).value
  {
    hide Enc, CStr, Le, ZigZag, EncVarint;
    match f.ltype
    case LBool => Small(if v.raw == 0 then 0 else 1);
    case LVarint =>
      SignedWord(v.n, f.dataSize);
      if v.n < 0 {
        TenBytes(TWO_64 + v.n);
      }
    case LSvarint =>
      SignedWord(v.n, f.dataSize);
      ZigZagBijective(v.n, 0);
    case _ =>
  }

  /**
    Which values a field can write: numbers in its range; bytes that fit their array beside the count,
    or fill one of fixed length; a char array with a terminator, or without one if it is full; a
    submessage whose fields can all be written.
   */
  lemma Writable(f: Field, v: Value)
    ensures EncVal(f, v).Some? <==>
      match f.ltype
      case LBool => v.VBool?
      case LVarint => v.VInt? && IntSize(f.dataSize) && 0 - Shl(1, 8 * f.dataSize - 1) <= v.n < Shl(1, 8 * f.dataSize - 1)
      case LSvarint => v.VInt? && IntSize(f.dataSize) && 0 - Shl(1, 8 * f.dataSize - 1) <= v.n < Shl(1, 8 * f.dataSize - 1)
      case LUvarint => v.VInt? && IntSize(f.dataSize) && 0 <= v.n < Shl(1, 8 * f.dataSize)
      case LFixed32 => v.VInt? && 0 <= v.n < Shl(1, 32)
      case LFixed64 => v.VInt? && 0 <= v.n < Shl(1, 64)
      case LBytes => v.VBytes? && |v.bytes| + SIZE_BYTES <= f.dataSize
      case LFixedLengthBytes => v.VBytes? && |v.bytes| == f.dataSize
      case LString => v.VString? && (if 0 in v.mem then |v.mem| <= f.dataSize else |v.mem| == f.dataSize)
      case LSubmessage(ptr) => v.VMsg? && Enc(ptr, v.msg).Some?
  {
    hide Enc, Le, ZigZag, EncVarint, EncString, Shl, CStr;
    Shl32(1);
    Shl64(1);
    if IntSize(f.dataSize) {
      BitsOf(f.dataSize);
    }
    if v.VString? {
      Terminated(v.mem);
    }
  }

  lemma BitsOf(size: nat)
    requires IntSize(size)
    ensures Shl(1, 8 * size - 1) == SignBit(size) && Shl(1, 8 * size) == 2 * SignBit(size)
  {
    if size == 8 {
      Shl63(1);
      Shl64(1);
    } else if size == 4 {
      Shl32(1);
      assert Shl(1, 32) == 2 * Shl(1, 31);
    } else if size == 2 {
      Shl7(1);
      ShlTwice(1, 7, 7);
      Shl7(128);
      assert Shl(1, 15) == 2 * Shl(1, 14) && Shl(1, 16) == 2 * Shl(1, 15);
    } else {
      Shl7(1);
      assert Shl(1, 8) == 2 * Shl(1, 7);
    }
  }

  lemma {:induction false} Terminated(mem: seq<byte>)
    ensures |CStr(mem)| < |mem| <==> 0 in mem
    decreases |mem|
  {
    if |mem| > 0 && mem[0] != 0 {
      Terminated(mem[1..]);
      assert mem == [mem[0]] + mem[1..];
    }
  }

  lemma SignedWord(n: int, size: nat)
    requires FitsSigned(n, size)
    ensures -TWO_63 <= n < TWO_63 && U64(n) == if n < 0 then TWO_64 + n else n
  {
  }

  lemma Small(v: nat)
    requires v < 128
    ensures EncVarint(v) == [v]
  {
  }

  lemma {:induction false} LongVarint(v: nat, k: nat)
    requires v >= Shl(1, 7 * k)
    ensures |EncVarint(v)| > k
    decreases k
  {
    if k > 0 {
      ShlTwice(1, 7 * (k - 1), 7);
      Shl7(Shl(1, 7 * (k - 1)));
      LongVarint(v / 128, k - 1);
    }
  }

  lemma TenBytes(v: nat)
    requires TWO_63 <= v < TWO_64
    ensures |EncVarint(v)| == 10
  {
    Shl63(1);
    LongVarint(v, 9);
    VarintAtMostTen(v);
  }

  /** The wire types of the Protocol Buffers encoding. */
  lemma WireTypes(l: LType)
    ensures WireType(l) ==
      if l.LFixed64? then 1 else if l.LFixed32? then 5
      else if l.LBytes? || l.LString? || l.LSubmessage? || l.LFixedLengthBytes? then 2 else 0
    ensures forall tag: nat :: EncTag(WireType(l), tag) == EncVarint(8 * tag + WireType(l))
  {
    hide EncVarint;
  }

  // ---------------------------------------------------------------- arrays and messages

  /** One after the other. */
  function Concat(parts: seq<seq<byte>>): seq<byte> {
    if |parts| == 0 then [] else Concat(parts[..|parts| - 1]) + parts[|parts| - 1]
  }

  lemma {:induction false} ConcatFirst(part: seq<byte>, parts: seq<seq<byte>>)
    ensures Concat([part] + parts) == part + Concat(parts)
    decreases |parts|
  {
    var all := [part] + parts;
    if |parts| == 0 {
      assert all[..|all| - 1] == [] && Concat([]) == [];
    } else {
      var before := parts[..|parts| - 1];
      assert all[..|all| - 1] == [part] + before;
      ConcatFirst(part, before);
      assert (part + Concat(before)) + parts[|parts| - 1] == part + (Concat(before) + parts[|parts| - 1]);
    }
  }

  /** What the fields write, one by one. */
  function FieldBytes(fields: seq<Field>, m: Msg): (parts: seq<seq<byte>>)
    ensures |parts| == |fields|
    ensures forall i :: 0 <= i < |fields| && EncField(fields[i], m).Some? ==> parts[i] == EncField(fields[i], m).value
  {
    seq(|fields|, i requires 0 <= i < |fields| => match EncField(fields[i], m) { case Some(bs) => bs case None => [] })
  }

  lemma {:induction false} MessageWhole(fields: seq<Field>, m: Msg)
    ensures Enc(fields, m).Some? <==> forall i :: 0 <= i < |fields| ==> EncField(fields[i], m).Some?
    decreases |fields|
  {
    hide EncField;
    if |fields| > 0 {
      var rest := fields[1..];
      MessageWhole(rest, m);
      assert forall i :: 0 <= i < |rest| ==> rest[i] == fields[i + 1];
      if Enc(fields, m).Some? {
        forall i | 0 <= i < |fields|
          ensures EncField(fields[i], m).Some?
        {
          assert i > 0 ==> EncField(rest[i - 1], m).Some?;
        }
      }
    }
  }

  lemma FirstField(fields: seq<Field>, m: Msg)
    requires |fields| > 0 && EncField(fields[0], m).Some?
    ensures FieldBytes(fields, m) == [EncField(fields[0], m).value] + FieldBytes(fields[1..], m)
  {
    hide EncField;
  }

  lemma NoFields(m: Msg)
    ensures FieldBytes([], m) == []
  {
  }

  /** A message is its fields in the order of the descriptor, and exists if all of them do. */
  lemma {:induction false} MessageBytes(fields: seq<Field>, m: Msg)
    ensures Enc(fields, m).Some? <==> forall i :: 0 <= i < |fields| ==> EncField(fields[i], m).Some?
    ensures Enc(fields, m).Some? ==> Enc(fields, m).value == Concat(FieldBytes(fields, m))
    decreases |fields|
  {
    hide EncField, Concat, FieldBytes;
    MessageWhole(fields, m);
    if |fields| == 0 {
      NoParts();
      NoFields(m);
    } else if Enc(fields, m).Some? {
      MessageBytes(fields[1..], m);
      ConcatFirst(EncField(fields[0], m).value, FieldBytes(fields[1..], m));
      FirstField(fields, m);
    }
  }

  function ItemBytes(f: Field, items: seq<Value>): (parts: seq<seq<byte>>)
    ensures |parts| == |items|
    ensures forall i :: 0 <= i < |items| && EncVal(f, items[i]).Some? ==> parts[i] == EncVal(f, items[i]).value
  {
    seq(|items|, i requires 0 <= i < |items| => match EncVal(f, items[i]) { case Some(bs) => bs case None => [] })
  }

  lemma {:induction false} PayloadWhole(f: Field, items: seq<Value>)
    ensures EncPayload(f, items).Some? <==> forall i :: 0 <= i < |items| ==> EncVal(f, items[i]).Some?
    decreases |items|
  {
    hide EncVal;
    if |items| > 0 {
      var rest := items[1..];
      PayloadWhole(f, rest);
      assert forall i :: 0 <= i < |rest| ==> rest[i] == items[i + 1];
      if EncPayload(f, items).Some? {
        forall i | 0 <= i < |items|
          ensures EncVal(f, items[i]).Some?
        {
          assert i > 0 ==> EncVal(f, rest[i - 1]).Some?;
        }
      }
    }
  }

  lemma {:induction false} PayloadBytes(f: Field, items: seq<Value>)
    requires EncPayload(f, items).Some?
    ensures EncPayload(f, items).value == Concat(ItemBytes(f, items))
    decreases |items|
  {
    hide EncVal, Concat, ItemBytes;
    if |items| == 0 {
      NoParts();
      NoItems(f);
    } else {
      PayloadBytes(f, items[1..]);
      ConcatFirst(EncVal(f, items[0]).value, ItemBytes(f, items[1..]));
      FirstItem(f, items);
    }
  }

  lemma NoItems(f: Field)
    ensures ItemBytes(f, []) == []
  {
  }

  lemma FirstItem(f: Field, items: seq<Value>)
    requires |items| > 0 && EncVal(f, items[0]).Some?
    ensures ItemBytes(f, items) == [EncVal(f, items[0]).value] + ItemBytes(f, items[1..])
  {
    hide EncVal;
  }

  /** Each part behind the same key. */
  function Keyed(key: seq<byte>, parts: seq<seq<byte>>): (keyed: seq<seq<byte>>)
    ensures |keyed| == |parts|
    ensures forall i :: 0 <= i < |parts| ==> keyed[i] == key + parts[i]
  {
    seq(|parts|, i requires 0 <= i < |parts| => key + parts[i])
  }

  lemma {:induction false} UnpackedWhole(f: Field, items: seq<Value>)
    ensures EncItems(f, items).Some? <==> EncPayload(f, items).Some?
    decreases |items|
  {
    hide EncVal, EncTag;
    if |items| > 0 {
      UnpackedWhole(f, items[1..]);
      assert EncItem(f, items[0]).Some? <==> EncVal(f, items[0]).Some?;
    }
  }

  lemma {:induction false} UnpackedBytes(f: Field, items: seq<Value>)
    requires EncItems(f, items).Some?
    ensures EncItems(f, items).value == Concat(Keyed(EncTag(WireType(f.ltype), f.tag), ItemBytes(f, items)))
    decreases |items|
  {
    hide EncVal, EncTag, Concat;
    var key := EncTag(WireType(f.ltype), f.tag);
    if |items| == 0 {
      NoParts();
      assert Keyed(key, ItemBytes(f, items)) == [];
    } else {
      var rest := items[1..];
      UnpackedBytes(f, rest);
      assert EncItem(f, items[0]).Some? && EncVal(f, items[0]).Some?;
      var first := key + EncVal(f, items[0]).value;
      ConcatFirst(first, Keyed(key, ItemBytes(f, rest)));
      KeyedParts(f, key, items);
    }
  }

  lemma NoParts()
    ensures Concat([]) == []
  {
  }

  lemma KeyedParts(f: Field, key: seq<byte>, items: seq<Value>)
    requires |items| > 0 && EncVal(f, items[0]).Some?
    ensures Keyed(key, ItemBytes(f, items)) == [key + EncVal(f, items[0]).value] + Keyed(key, ItemBytes(f, items[1..]))
  {
    hide EncVal, ItemBytes;
    FirstItem(f, items);
  }

  /**
    An array within its size whose items can all be written is nothing if empty; numbers are packed
    behind one key of wire type 2 and their length in all, anything else has its key before each item.
   */
  lemma ArrayBytes(f: Field, items: seq<Value>)
    ensures EncArray(f, items).Some? <==> |items| == 0 || (|items| <= f.arraySize && forall i :: 0 <= i < |items| ==> EncVal(f, items[i]).Some?)
    ensures EncArray(f, items).Some? ==>
      var data := Concat(ItemBytes(f, items));
      EncArray(f, items).value ==
        if |items| == 0 then []
        else if Packable(f.ltype) then EncVarint(8 * f.tag + 2) + EncVarint(|data|) + data
        else Concat(Keyed(EncVarint(8 * f.tag + WireType(f.ltype)), ItemBytes(f, items)))
  {
    hide EncVal, EncVarint, Concat;
    PayloadWhole(f, items);
    UnpackedWhole(f, items);
    if EncPayload(f, items).Some? {
      PayloadBytes(f, items);
    }
    if EncItems(f, items).Some? {
      UnpackedBytes(f, items);
    }
    assert EncTag(2, f.tag) == EncVarint(8 * f.tag + 2);
    assert EncTag(WireType(f.ltype), f.tag) == EncVarint(8 * f.tag + WireType(f.ltype));
    if EncPayload(f, items).Some? {
      var data := EncPayload(f, items).value;
      assert EncTag(2, f.tag) + (EncVarint(|data|) + data) == EncTag(2, f.tag) + EncVarint(|data|) + data;
    }
  }
}
