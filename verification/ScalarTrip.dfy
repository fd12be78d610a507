/** Encoding one value and reading or skipping it again. */
module ScalarTrip {
  import opened Bytes
  import opened Varint
  import opened Wire
  import opened Message
  import opened EncodeSpec
  import opened DecodeSpec
  import opened Normal

  lemma IntRoundTrip(n: int, size: nat)
    requires FitsSigned(n, size)
    ensures U64(n) < TWO_64 && -TWO_63 <= n < TWO_63
    ensures CastSigned(n, size) == n
    ensures (if size == 8 then CastSigned(U64(n), 8) else S32(U64(n))) == n
  {
    hide U64, S32, CastSigned;
    FitsWords(n, size);
    if size == 8 {
      Cast8(n);
    } else {
      LowWord(n);
      if size == 4 {
        Cast4(n);
      } else if size == 2 {
        Cast2(n);
      } else {
        Cast1(n);
      }
    }
  }

  lemma FitsWords(n: int, size: nat)
    requires FitsSigned(n, size)
    ensures U64(n) < TWO_64 && -TWO_63 <= n < TWO_63 && (size != 8 ==> -TWO_31 <= n < TWO_31)
    ensures size == 1 ==> -0x80 <= n < 0x80
    ensures size == 2 ==> -0x8000 <= n < 0x8000
  {
  }

  lemma Cast1(n: int)
    requires -0x80 <= n < 0x80
    ensures CastSigned(n, 1) == n
  {
  }

  lemma Cast2(n: int)
    requires -0x8000 <= n < 0x8000
    ensures CastSigned(n, 2) == n
  {
  }

  lemma Cast4(n: int)
    requires -TWO_31 <= n < TWO_31
    ensures CastSigned(n, 4) == n
  {
  }

  lemma Cast8(n: int)
    requires -TWO_63 <= n < TWO_63
    ensures CastSigned(n, 8) == CastSigned(U64(n), 8) == n
  {
  }

  lemma LowWord(n: int)
    requires -TWO_31 <= n < TWO_31
    ensures S32(U64(n)) == n
  {
  }

  lemma VarintValue(f: Field, v: Value, rest: seq<byte>)
    requires f.ltype.LVarint? && EncVal(f, v).Some?
    ensures DecScalar(f, EncVal(f, v).value + rest) == Ok(v, rest)
  {
    hide EncVarint, DecVarint64, CastSigned, S32;
    IntRoundTrip(v.n, f.dataSize);
    Varint64RoundTrip(U64(v.n), rest);
  }

  lemma UvarintValue(f: Field, v: Value, rest: seq<byte>)
    requires f.ltype.LUvarint? && EncVal(f, v).Some?
    ensures DecScalar(f, EncVal(f, v).value + rest) == Ok(v, rest)
  {
    hide EncVarint, DecVarint64;
    Varint64RoundTrip(v.n, rest);
    ModSmall(v.n, 2 * SignBit(f.dataSize));
  }

  lemma SvarintValue(f: Field, v: Value, rest: seq<byte>)
    requires f.ltype.LSvarint? && EncVal(f, v).Some?
    ensures DecScalar(f, EncVal(f, v).value + rest) == Ok(v, rest)
  {
    hide EncVarint, DecVarint64, CastSigned, ZigZag, UnZigZag;
    IntRoundTrip(v.n, f.dataSize);
    ZigZagBijective(v.n, 0);
    Varint64RoundTrip(ZigZag(v.n), rest);
  }

  lemma BytesValue(f: Field, v: Value, rest: seq<byte>)
    requires f.ltype.LBytes? && WfField(f) && EncVal(f, v).Some?
    ensures DecScalar(f, EncVal(f, v).value + rest) == Ok(v, rest)
  {
    hide EncVarint, DecVarint32;
    var data := v.bytes;
    assert EncString(data) + rest == EncVarint(|data|) + (data + rest);
    LengthRead(|data|, data + rest);
    assert Take(data + rest, |data|) == Ok(data, rest);
  }

  lemma StringValue(f: Field, v: Value, rest: seq<byte>)
    requires f.ltype.LString? && WfField(f) && EncVal(f, v).Some?
    ensures DecScalar(f, EncVal(f, v).value + rest)
         == if |CStr(v.mem)| < f.dataSize then Ok(VString(CStr(v.mem) + [0]), rest) else Err
  {
    hide EncVarint, DecVarint32, CStr;
    var data := CStr(v.mem);
    assert EncString(data) + rest == EncVarint(|data|) + (data + rest);
    LengthRead(|data|, data + rest);
    assert Take(data + rest, |data|) == Ok(data, rest);
  }

  lemma FixedBytesValue(f: Field, v: Value, rest: seq<byte>)
    requires f.ltype.LFixedLengthBytes? && WfField(f) && EncVal(f, v).Some?
    ensures DecScalar(f, EncVal(f, v).value + rest) == Ok(v, rest)
  {
    hide EncVarint, DecVarint32;
    var data := v.bytes;
    assert EncString(data) + rest == EncVarint(|data|) + (data + rest);
    LengthRead(|data|, data + rest);
    assert Take(data + rest, |data|) == Ok(data, rest);
    if |data| == 0 {
      assert data == Zeros(f.dataSize) && data + rest == rest;
    }
  }

  lemma BoolValue(f: Field, v: Value, rest: seq<byte>)
    requires f.ltype.LBool? && EncVal(f, v).Some?
    ensures DecScalar(f, EncVal(f, v).value + rest) == Ok(NormVal(f, v), rest)
  {
    hide EncVarint, DecVarint32;
    LengthRead(0, rest);
    LengthRead(1, rest);
  }

  /** A value other than a submessage comes back normalised, unless it is an unterminated string. */
  lemma {:induction false} ScalarRoundTrip(f: Field, v: Value, rest: seq<byte>)
    requires !f.ltype.LSubmessage? && WfField(f) && EncVal(f, v).Some?
    ensures DecScalar(f, EncVal(f, v).value + rest)
         == if f.ltype.LString? && |CStr(v.mem)| >= f.dataSize then Err else Ok(NormVal(f, v), rest)
  {
    hide EncVarint, DecVarint32, DecVarint64, Le, CStr, DecScalar;
    match f.ltype
    case LBool => BoolValue(f, v, rest);
    case LVarint => VarintValue(f, v, rest);
    case LUvarint => UvarintValue(f, v, rest);
    case LSvarint => SvarintValue(f, v, rest);
    case LFixed32 => Fixed32Value(f, v, rest);
    case LFixed64 => Fixed64Value(f, v, rest);
    case LBytes => BytesValue(f, v, rest);
    case LString => StringValue(f, v, rest);
    case LFixedLengthBytes => FixedBytesValue(f, v, rest);
  }

  lemma Fixed32Value(f: Field, v: Value, rest: seq<byte>)
    requires f.ltype.LFixed32? && EncVal(f, v).Some?
    ensures DecScalar(f, EncVal(f, v).value + rest) == Ok(v, rest)
  {
    hide Le, DecFixed;
    FixedRoundTrip(v.n, 4, rest);
  }

  lemma Fixed64Value(f: Field, v: Value, rest: seq<byte>)
    requires f.ltype.LFixed64? && EncVal(f, v).Some?
    ensures DecScalar(f, EncVal(f, v).value + rest) == Ok(v, rest)
  {
    hide Le, DecFixed;
    FixedRoundTrip(v.n, 8, rest);
  }

  /** Skipping consumes exactly what the encoder wrote for a value. */
  lemma SkipValue(f: Field, v: Value, rest: seq<byte>)
    requires WfField(f) && EncVal(f, v).Some?
    requires f.ltype.LSubmessage? ==> |Enc(f.ltype.ptr, v.msg).value| < TWO_32
    ensures SkipField(WireType(f.ltype), EncVal(f, v).value + rest) == Ok((), rest)
  {
    hide EncVarint, DecVarint32, Le, CStr, SkipVarint, DecString, EncString, Enc, ZigZag;
    match f.ltype
    case LBool => SkipVarintEnc(if v.raw != 0 then 1 else 0, rest);
    case LVarint => SkipVarintEnc(U64(v.n), rest);
    case LUvarint => SkipVarintEnc(v.n, rest);
    case LSvarint => SkipVarintEnc(ZigZag(v.n), rest);
    case LFixed32 => assert Take(Le(v.n, 4) + rest, 4).rest == rest;
    case LFixed64 => assert Take(Le(v.n, 8) + rest, 8).rest == rest;
    case LBytes => StringRoundTrip(v.bytes, rest);
    case LString => StringRoundTrip(CStr(v.mem), rest);
    case LFixedLengthBytes => StringRoundTrip(v.bytes, rest);
    case LSubmessage(ptr) => StringRoundTrip(Enc(ptr, v.msg).value, rest);
  }
}
