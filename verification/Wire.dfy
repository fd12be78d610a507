/**
  Zigzag and fixed-width numbers, tags, length-delimited records and the skipping of
  unknown fields (Protocol Buffers Encoding, "Message Structure" and "Length-Delimited Records").
 */
module Wire {
  import opened Bytes
  import opened Varint

  // ---------------------------------------------------------------- zigzag and fixed width

  /** Shift left in 64 bits, complemented when the sign bit is set. */
  function ZigZag(v: int): (u: nat)
    requires -TWO_63 <= v < TWO_63
    ensures u < TWO_64
  {
    if v < 0 then TWO_64 - 1 - (U64(v) * 2) % TWO_64 else U64(v) * 2 % TWO_64
  }

  function UnZigZag(u: nat): (v: int)
    requires u < TWO_64
    ensures -TWO_63 <= v < TWO_63
  {
    if u % 2 == 1 then S64(TWO_64 - 1 - u / 2) else S64(u / 2)
  }

  /** Zigzag is a bijection between signed and unsigned 64-bit integers, small magnitudes first. */
  lemma ZigZagBijective(v: int, u: nat)
    requires -TWO_63 <= v < TWO_63 && u < TWO_64
    ensures UnZigZag(ZigZag(v)) == v && ZigZag(UnZigZag(u)) == u
    ensures ZigZag(v) == if v < 0 then -2 * v - 1 else 2 * v
  {
    hide ZigZag, UnZigZag;
    ZigZagValue(v);
    UnZigZagValue(u);
    UnZigZagValue(ZigZag(v));
    ZigZagValue(UnZigZag(u));
  }

  lemma ZigZagValue(v: int)
    requires -TWO_63 <= v < TWO_63
    ensures ZigZag(v) == if v < 0 then -2 * v - 1 else 2 * v
  {
  }

  lemma UnZigZagValue(u: nat)
    requires u < TWO_64
    ensures UnZigZag(u) == if u % 2 == 1 then -(u / 2) - 1 else u / 2
  {
  }

  /** The low `n` bytes of `v`, least significant first. */
  function Le(v: nat, n: nat): (bs: seq<byte>)
    ensures |bs| == n
  {
    if n == 0 then [] else [v % 256] + Le(v / 256, n - 1)
  }

  function FromLe(bs: seq<byte>): (v: nat)
    ensures v < Shl(1, 8 * |bs|)
  {
    if |bs| == 0 then 0
    else
      Shl8(8 * (|bs| - 1));
      var low: nat := bs[0];
      low + 256 * FromLe(bs[1..])
  }

  lemma Shl8(k: nat)
    ensures Shl(1, k + 8) == 256 * Shl(1, k)
  {
    ShlTwice(1, k, 1);
    ShlTwice(1, k + 1, 7);
    Shl7(Shl(1, k + 1));
  }

  lemma {:induction false} FromLeOfLe(v: nat, n: nat)
    requires v < Shl(1, 8 * n)
    ensures FromLe(Le(v, n)) == v
  {
    if n > 0 {
      Shl8(8 * (n - 1));
      FromLeOfLe(v / 256, n - 1);
      assert Le(v, n)[1..] == Le(v / 256, n - 1);
    }
  }

  lemma {:induction false} LeOfFromLe(bs: seq<byte>)
    ensures Le(FromLe(bs), |bs|) == bs
  {
    if |bs| > 0 {
      LeOfFromLe(bs[1..]);
    }
  }

  function DecFixed(bs: seq<byte>, n: nat): (r: Parse<nat>)
    ensures r.Ok? ==> |r.rest| + n == |bs|
  {
    var (raw, rest) :- Take(bs, n);
    Ok(FromLe(raw), rest)
  }

  /** Fixed-width fields of four and eight bytes carry every 32- and 64-bit word. */
  lemma FixedRoundTrip(v: nat, n: nat, rest: seq<byte>)
    requires (n == 4 && v < TWO_32) || (n == 8 && v < TWO_64)
    ensures DecFixed(Le(v, n) + rest, n) == Ok(v, rest)
  {
    if n == 4 {
      Shl32(1);
    } else {
      Shl64(1);
    }
    FromLeOfLe(v, n);
    assert (Le(v, n) + rest)[..n] == Le(v, n) && (Le(v, n) + rest)[n..] == rest;
  }

  // ---------------------------------------------------------------- tags and skipping

  const WT_VARINT: nat := 0
  const WT_64BIT: nat := 1
  const WT_STRING: nat := 2
  const WT_32BIT: nat := 5

  /** Reading a tag: a field key, the end of the message (no bytes, or a zero), or an error. */
  datatype TagRead = Tag(tag: nat, wt: nat, after: seq<byte>) | End(after: seq<byte>) | BadTag

  function DecTag(bs: seq<byte>): (r: TagRead)
    ensures r.Tag? ==> |r.after| < |bs|
    ensures r.End? ==> |r.after| <= |bs|
  {
    if |bs| == 0 then End(bs)
    else match DecVarint32(bs)
      case Err => BadTag
      case Ok(key, rest) => if key == 0 then End(rest) else Tag(key / 8, key % 8, rest)
  }

  function EncTag(wt: nat, tag: nat): (bs: seq<byte>)
    ensures |bs| >= 1
  {
    EncVarint(tag * 8 + wt)
  }

  lemma TagRoundTrip(wt: nat, tag: nat, rest: seq<byte>)
    requires wt < 8 && 1 <= tag < 0x2000_0000
    ensures DecTag(EncTag(wt, tag) + rest) == Tag(tag, wt, rest)
  {
    hide EncVarint, DecVarint32;
    Varint32OnEncoding(tag * 8 + wt, rest);
    assert Reads32(tag * 8 + wt);
    ModSmall(tag * 8 + wt, TWO_32);
  }

  function SkipVarint(bs: seq<byte>): (r: Parse<()>)
    ensures r.Ok? ==> |r.rest| < |bs|
    decreases |bs|
  {
    if |bs| == 0 then Err
    else if bs[0] >= 128 then SkipVarint(bs[1..])
    else Ok((), bs[1..])
  }

  /** A 32-bit length and that many bytes. */
  function DecString(bs: seq<byte>): (r: Parse<seq<byte>>)
    ensures r.Ok? ==> |r.rest| + |r.val| < |bs|
  {
    var (size, rest) :- DecVarint32(bs);
    Take(rest, size)
  }

  function EncString(bs: seq<byte>): (r: seq<byte>)
    ensures |r| > |bs|
  {
    EncVarint(|bs|) + bs
  }

  function SkipField(wt: nat, bs: seq<byte>): (r: Parse<()>)
    ensures r.Ok? ==> |r.rest| <= |bs|
  {
    if wt == WT_VARINT then SkipVarint(bs)
    else if wt == WT_64BIT then
      var (_, rest) :- Take(bs, 8);
      Ok((), rest)
    else if wt == WT_STRING then
      var (_, rest) :- DecString(bs);
      Ok((), rest)
    else if wt == WT_32BIT then
      var (_, rest) :- Take(bs, 4);
      Ok((), rest)
    else Err
  }

  lemma {:induction false} SkipVarintEnc(v: nat, rest: seq<byte>)
    ensures SkipVarint(EncVarint(v) + rest) == Ok((), rest)
    decreases v
  {
    var bs := EncVarint(v) + rest;
    if v < 128 {
      assert bs[1..] == rest;
    } else {
      assert bs[1..] == EncVarint(v / 128) + rest;
      SkipVarintEnc(v / 128, rest);
    }
  }

  lemma LengthRead(n: nat, rest: seq<byte>)
    requires n < TWO_63
    ensures DecVarint32(EncVarint(n) + rest) == if n < TWO_32 then Ok(n, rest) else Err
  {
    hide EncVarint, DecVarint32;
    Varint32OnEncoding(n, rest);
    if n < TWO_32 {
      ModSmall(n, TWO_32);
    } else if Reads32(n) {
      Shl28(1);
      ShortPadding(n / 0x8_0000_0000, 35, 4, n % TWO_32);
    }
  }

  /** A value below 2^63 has no group at bit 63, so its last byte cannot be a sign extension. */
  lemma {:induction false} ShortPadding(w: nat, bitpos: nat, k: nat, r: nat)
    requires bitpos + 7 * k == 63 && 0 < k && 0 < w < Shl(1, 7 * k)
    ensures !PaddingOnly(w, bitpos, r)
    decreases k
  {
    if k == 1 {
      Shl7(1);
    } else if w >= 128 {
      ShlTwice(1, 7 * (k - 1), 7);
      Shl7(Shl(1, 7 * (k - 1)));
      ShortPadding(w / 128, bitpos + 7, k - 1, r);
    }
  }

  /** A length-delimited record is read back exactly when its length fits in 32 bits. */
  lemma StringRoundTrip(s: seq<byte>, rest: seq<byte>)
    requires |s| < TWO_63
    ensures DecString(EncString(s) + rest) == if |s| < TWO_32 then Ok(s, rest) else Err
  {
    hide EncVarint, DecVarint32;
    assert EncString(s) + rest == EncVarint(|s|) + (s + rest);
    LengthRead(|s|, s + rest);
  }

  /** A small number, and the key of a field with a small tag, take one byte. */
  lemma ByteRead(b: byte, rest: seq<byte>)
    requires b < 128
    ensures DecVarint32([b] + rest) == Ok(b, rest)
  {
    assert EncVarint(b) == [b];
    LengthRead(b, rest);
  }

  lemma KeyRead(tag: nat, wt: nat, rest: seq<byte>)
    requires wt < 8 && 1 <= tag < 16
    ensures DecTag([tag * 8 + wt] + rest) == Tag(tag, wt, rest)
  {
    assert EncTag(wt, tag) == [tag * 8 + wt];
    TagRoundTrip(wt, tag, rest);
  }
}
