/**
  What the encoder writes, as a function of the descriptor and the struct.
  `None` is an error return: a value that its field cannot hold or a count beyond the array.
 */
module EncodeSpec {
  import opened Bytes
  import opened Varint
  import opened Wire
  import opened Message

  /** pb_encode_tag_for_field. */
  function WireType(l: LType): (wt: nat)
    ensures wt < 8
  {
    match l
    case LFixed32 => WT_32BIT
    case LFixed64 => WT_64BIT
    case LBytes => WT_STRING
    case LString => WT_STRING
    case LSubmessage(_) => WT_STRING
    case LFixedLengthBytes => WT_STRING
    case _ => WT_VARINT
  }

  /** The magnitude of the sign bit of an integer of `n` bytes. */
  function SignBit(n: nat): nat
    requires IntSize(n)
  {
    if n == 1 then 0x80 else if n == 2 then 0x8000 else if n == 4 then 0x8000_0000 else TWO_63
  }

  predicate FitsSigned(x: int, size: nat) {
    IntSize(size) && 0 - SignBit(size) <= x < SignBit(size)
  }

  predicate FitsUnsigned(x: int, size: nat) {
    IntSize(size) && 0 <= x < 2 * SignBit(size)
  }

  /** The data of one value, without its tag (the pb_enc_* functions). */
  function EncVal(f: Field, v: Value): Option<seq<byte>>
    decreases f, 0
  {
    match f.ltype
    case LBool =>
      if v.VBool? then Some(EncVarint(if v.raw != 0 then 1 else 0)) else None
    case LVarint =>
      if v.VInt? && FitsSigned(v.n, f.dataSize) then Some(EncVarint(U64(v.n))) else None
    case LUvarint =>
      if v.VInt? && FitsUnsigned(v.n, f.dataSize) then Some(EncVarint(v.n)) else None
    case LSvarint =>
      if v.VInt? && FitsSigned(v.n, f.dataSize) then Some(EncVarint(ZigZag(v.n))) else None
    case LFixed32 =>
      if v.VInt? && 0 <= v.n < TWO_32 then Some(Le(v.n, 4)) else None
    case LFixed64 =>
      if v.VInt? && 0 <= v.n < TWO_64 then Some(Le(v.n, 8)) else None
    case LBytes =>
      if v.VBytes? && |v.bytes| <= f.dataSize - SIZE_BYTES then Some(EncString(v.bytes)) else None
    case LString =>
      if v.VString? && |v.mem| <= f.dataSize && (|CStr(v.mem)| < |v.mem| || |v.mem| == f.dataSize)
      then Some(EncString(CStr(v.mem))) else None
    case LFixedLengthBytes =>
      if v.VBytes? && |v.bytes| == f.dataSize then Some(EncString(v.bytes)) else None
    case LSubmessage(ptr) =>
      if v.VMsg? then
        var body :- Enc(ptr, v.msg);
        Some(EncString(body))
      else None
  }

  function EncItem(f: Field, v: Value): Option<seq<byte>>
    decreases f, 1
  {
    var data :- EncVal(f, v);
    Some(EncTag(WireType(f.ltype), f.tag) + data)
  }

  /** The items of an unpacked array, each with its own tag. */
  function EncItems(f: Field, items: seq<Value>): Option<seq<byte>>
    decreases f, 2, |items|
  {
    if |items| == 0 then Some([])
    else
      var first :- EncItem(f, items[0]);
      var others :- EncItems(f, items[1..]);
      Some(first + others)
  }

  /** The contents of a packed array. */
  function EncPayload(f: Field, items: seq<Value>): Option<seq<byte>>
    decreases f, 2, |items|
  {
    if |items| == 0 then Some([])
    else
      var first :- EncVal(f, items[0]);
      var others :- EncPayload(f, items[1..]);
      Some(first + others)
  }

  function EncArray(f: Field, items: seq<Value>): Option<seq<byte>>
    decreases f, 3
  {
    if |items| == 0 then Some([])
    else if |items| > f.arraySize then None
    else if Packable(f.ltype) then
      var payload :- EncPayload(f, items);
      Some(EncTag(WT_STRING, f.tag) + EncString(payload))
    else EncItems(f, items)
  }

  /** pb_check_proto3_default_value for the data of a singular field. */
  predicate ValueIsDefault(f: Field, v: Value)
    decreases f, 0
  {
    match f.ltype
    case LBool => v == VBool(0)
    case LBytes => v.VBytes? && |v.bytes| == 0
    case LString => v.VString? && CStr(v.mem) == []
    case LFixedLengthBytes => f.dataSize == 0
    case LSubmessage(ptr) =>
      v.VMsg? && forall i :: 0 <= i < |ptr| ==> ptr[i].slot in v.msg && SlotIsDefault(ptr[i], v.msg[ptr[i].slot])
    case _ => v == VInt(0)
  }

  predicate SlotIsDefault(f: Field, s: Slot)
    decreases f, 1
  {
    match f.htype
    case Required => false
    case Repeated => s.Rep? && |s.items| == 0
    case FixedCount => false
    case Oneof => s.Union? && s.which == 0
    case Optional => s.Opt? && s.has == 0
    case Singular => s.One? && ValueIsDefault(f, s.v)
  }

  /** encode_basic_field. */
  function EncField(f: Field, m: Msg): Option<seq<byte>>
    decreases f, 4
  {
    if f.slot !in m then None
    else match (f.htype, m[f.slot])
      case (Required, One(v)) => EncItem(f, v)
      case (Singular, One(v)) => if ValueIsDefault(f, v) then Some([]) else EncItem(f, v)
      case (Optional, Opt(has, v)) => if has == 0 then Some([]) else EncItem(f, v)
      case (Repeated, Rep(items)) => EncArray(f, items)
      case (FixedCount, Fix(items)) => if |items| == f.arraySize then EncArray(f, items) else None
      case (Oneof, Union(which, v)) => if which == f.tag then EncItem(f, v) else Some([])
      case _ => None
  }

  /** pb_encode: the fields in descriptor order. */
  function Enc(fields: seq<Field>, m: Msg): Option<seq<byte>>
    decreases fields
  {
    if |fields| == 0 then Some([])
    else
      var first :- EncField(fields[0], m);
      var others :- Enc(fields[1..], m);
      Some(first + others)
  }
}
