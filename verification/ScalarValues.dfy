/**
  What the scalar decoders make of any bytes: which values they give back and which they refuse,
  in terms of ranges and sizes.
 */
module ScalarValues {
  import opened Bytes
  import opened Varint
  import opened Wire
  import opened Message
  import opened EncodeSpec
  import opened DecodeSpec

  /** A value that `x` stands for if it is in range. */
  function InRange(fits: bool, v: Value, rest: seq<byte>): Parse<Value> {
    if fits then Ok(v, rest) else Err
  }

  /** The signed number in a 64-bit varint: all of it for an eight-byte field, otherwise its low word. */
  function SignedOf(w: nat, size: nat): int {
    var half: nat := if size == 8 then TWO_63 else TWO_31;
    var low := w % (2 * half);
    if low < half then low else low - 2 * half
  }

  /**
    Each decoder reads one varint, one word or one length-delimited record. A number is accepted
    exactly if it fits its field, any varint but zero is true, and a record must fit its storage;
    an empty one of fixed length stands for zeros.
   */
  lemma ScalarIs(f: Field, bs: seq<byte>)
    requires !f.ltype.LSubmessage?
    ensures DecScalar(f, bs) ==
      match f.ltype
      case LBool =>
        (match DecVarint32(bs) case Err => Err case Ok(w, rest) => Ok(VBool(if w == 0 then 0 else 1), rest))
      case LVarint =>
        (match DecVarint64(bs) case Err => Err
         case Ok(w, rest) => InRange(FitsSigned(SignedOf(w, f.dataSize), f.dataSize), VInt(SignedOf(w, f.dataSize)), rest))
      case LUvarint =>
        (match DecVarint64(bs) case Err => Err case Ok(w, rest) => InRange(FitsUnsigned(w, f.dataSize), VInt(w), rest))
      case LSvarint =>
        (match DecVarint64(bs) case Err => Err
         case Ok(w, rest) =>
           var n := if w % 2 == 0 then w / 2 else -(w / 2) - 1;
           InRange(FitsSigned(n, f.dataSize), VInt(n), rest))
      case LFixed32 =>
        (match Take(bs, 4) case Err => Err case Ok(raw, rest) => Ok(VInt(FromLe(raw)), rest))
      case LFixed64 =>
        (match Take(bs, 8) case Err => Err case Ok(raw, rest) => Ok(VInt(FromLe(raw)), rest))
      case LBytes =>
        (match DecString(bs) case Err => Err
         case Ok(data, rest) => InRange(|data| <= PB_SIZE_MAX && |data| + SIZE_BYTES <= Room(f), VBytes(data), rest))
      case LString =>
        (match DecString(bs) case Err => Err
         case Ok(data, rest) => InRange(|data| < TWO_32 - 1 && |data| < Room(f), VString(data + [0]), rest))
      case LFixedLengthBytes =>
        (match DecString(bs) case Err => Err
         case Ok(data, rest) =>
           InRange(|data| == 0 || (|data| == f.dataSize && |data| <= PB_SIZE_MAX), VBytes(if |data| == 0 then Zeros(f.dataSize) else data), rest))
  {
    hide DecVarint32, DecVarint64, FromLe, S32, CastSigned, CastUnsigned, UnZigZag, Take;
    match f.ltype
    case LVarint =>
      if DecVarint64(bs).Ok? {
        SignedIs(DecVarint64(bs).val, f.dataSize);
        if IntSize(f.dataSize) {
          CastFits(SignedOf(DecVarint64(bs).val, f.dataSize), f.dataSize);
        }
      }
    case LUvarint =>
      if DecVarint64(bs).Ok? && IntSize(f.dataSize) {
        UncastFits(DecVarint64(bs).val, f.dataSize);
      }
    case LSvarint =>
      if DecVarint64(bs).Ok? {
        UnZigZagValue(DecVarint64(bs).val);
        if IntSize(f.dataSize) {
          CastFits(UnZigZag(DecVarint64(bs).val), f.dataSize);
        }
      }
    case LFixedLengthBytes =>
      if DecVarint32(bs).Ok? && DecVarint32(bs).val == 0 {
        TakeNone(DecVarint32(bs).rest);
      }
    case _ =>
  }

  lemma TakeNone(bs: seq<byte>)
    ensures Take(bs, 0) == Ok([], bs)
  {
  }

  lemma SignedIs(w: nat, size: nat)
    requires w < TWO_64
    ensures SignedOf(w, size) == if size == 8 then CastSigned(w, 8) else S32(w)
  {
  }

  lemma CastFits(x: int, size: nat)
    requires IntSize(size)
    ensures CastSigned(x, size) == x <==> FitsSigned(x, size)
  {
  }

  lemma UncastFits(x: int, size: nat)
    requires IntSize(size)
    ensures CastUnsigned(x, size) == x <==> FitsUnsigned(x, size)
  {
  }
}
