/**
  What the decoder computes, as a function of the descriptor, the bytes in the stream
  and the struct it starts from.
 */
module DecodeSpec {
  import opened Bytes
  import opened Varint
  import opened Wire
  import opened Message
  import opened EncodeSpec

  /** The cast of `x` to a signed integer of `size` bytes. */
  function CastSigned(x: int, size: nat): int
    requires IntSize(size)
  {
    var u := x % (2 * SignBit(size));
    if u < SignBit(size) then u else u - 2 * SignBit(size)
  }

  function CastUnsigned(x: int, size: nat): int
    requires IntSize(size)
  {
    x % (2 * SignBit(size))
  }

  /** The pb_dec_* functions other than pb_dec_submessage. */
  function DecScalar(f: Field, bs: seq<byte>): (r: Parse<Value>)
    requires !f.ltype.LSubmessage?
    ensures r.Ok? ==> |r.rest| < |bs|
  {
    match f.ltype
    case LBool =>
      var (value, rest) :- DecVarint32(bs);
      Ok(VBool(if value != 0 then 1 else 0), rest)
    case LVarint =>
      var (value, rest) :- DecVarint64(bs);
      var svalue := if f.dataSize == 8 then CastSigned(value, 8) else S32(value);
      if IntSize(f.dataSize) && CastSigned(svalue, f.dataSize) == svalue then Ok(VInt(svalue), rest) else Err
    case LUvarint =>
      var (value, rest) :- DecVarint64(bs);
      if IntSize(f.dataSize) && CastUnsigned(value, f.dataSize) == value then Ok(VInt(value), rest) else Err
    case LSvarint =>
      var (value, rest) :- DecVarint64(bs);
      var svalue := UnZigZag(value);
      if IntSize(f.dataSize) && CastSigned(svalue, f.dataSize) == svalue then Ok(VInt(svalue), rest) else Err
    case LFixed32 =>
      var (value, rest) :- DecFixed(bs, 4);
      Ok(VInt(value), rest)
    case LFixed64 =>
      var (value, rest) :- DecFixed(bs, 8);
      Ok(VInt(value), rest)
    case LBytes =>
      var (size, rest) :- DecVarint32(bs);
      if size > PB_SIZE_MAX || size + SIZE_BYTES > Room(f) then Err else
      var (data, rest') :- Take(rest, size);
      Ok(VBytes(data), rest')
    case LString =>
      var (size, rest) :- DecVarint32(bs);
      if size == TWO_32 - 1 || size + 1 > Room(f) then Err else
      var (data, rest') :- Take(rest, size);
      Ok(VString(data + [0]), rest')
    case LFixedLengthBytes =>
      var (size, rest) :- DecVarint32(bs);
      if size > PB_SIZE_MAX then Err
      else if size == 0 then Ok(VBytes(Zeros(f.dataSize)), rest)
      else if size != f.dataSize then Err
      else
        var (data, rest') :- Take(rest, size);
        Ok(VBytes(data), rest')
  }

  /** How far the current fixed-count array has been filled. */
  datatype Progress = Progress(tag: nat, size: nat, full: nat)

  /** The decoder's state: the struct, the required fields met, the fixed-count array in progress. */
  datatype State = State(m: Msg, seen: set<nat>, fixed: Option<Progress>)

  /** One value. A submessage is decoded on top of `prev`, or of the defaults where there is none. */
  function DecVal(f: Field, bs: seq<byte>, prev: Value): (r: Parse<Value>)
    ensures r.Ok? ==> |r.rest| < |bs|
    decreases |bs|, 0
  {
    if f.ltype.LSubmessage? then
      var (body, rest) :- DecString(bs);
      var base := if prev.VMsg? then prev.msg else Defaults(f.ltype.ptr);
      var (m, _) :- DecMsg(f.ltype.ptr, body, base);
      Ok(VMsg(m), rest)
    else DecScalar(f, bs)
  }

  /** The items of a packed record, at most `room` of them; the record must end with an item. */
  function DecPacked(f: Field, bs: seq<byte>, room: nat): (r: Option<seq<Value>>)
    requires !f.ltype.LSubmessage?
    ensures r.Some? ==> |r.value| <= room
    decreases |bs|
  {
    if |bs| == 0 then Some([])
    else if room == 0 then None
    else match DecScalar(f, bs)
      case Err => None
      case Ok(v, rest) =>
        var others :- DecPacked(f, rest, room - 1);
        Some([v] + others)
  }

  /** New items for an array that already holds `count`: a packed record or a single item. */
  function DecItems(f: Field, wt: nat, bs: seq<byte>, count: nat): (r: Parse<seq<Value>>)
    ensures r.Ok? ==> |r.rest| < |bs|
    ensures r.Ok? && count <= Capacity(f) ==> count + |r.val| <= Capacity(f)
    decreases |bs|, 1
  {
    if wt == WT_STRING && Packable(f.ltype) then
      var (body, rest) :- DecString(bs);
      match DecPacked(f, body, if count <= Capacity(f) then Capacity(f) - count else 0)
      case None => Err
      case Some(items) => Ok(items, rest)
    else if count >= Capacity(f) then Err
    else
      var (v, rest) :- DecVal(f, bs, VNone);
      Ok([v], rest)
  }

  /** What a single value is decoded on top of: a pointer's old value is released first. */
  function Base(f: Field, v: Value): Value {
    if f.layout.pointer then VNone else v
  }

  /** decode_static_field or decode_pointer_field, with the check of a oneof's previous member (pb_release_union_field). */
  function DecField(fields: seq<Field>, f: Field, wt: nat, bs: seq<byte>, st: State): (r: Parse<State>)
    ensures r.Ok? ==> |r.rest| < |bs|
    decreases |bs|, 2
  {
    if f.slot !in st.m then Err
    else match (f.htype, st.m[f.slot])
      case (Required, One(v)) =>
        var (v', rest) :- DecVal(f, bs, Base(f, v));
        Ok(st.(m := st.m[f.slot := One(v')]), rest)
      case (Singular, One(v)) =>
        var (v', rest) :- DecVal(f, bs, Base(f, v));
        Ok(st.(m := st.m[f.slot := One(v')]), rest)
      case (Optional, Opt(_, v)) =>
        var (v', rest) :- DecVal(f, bs, Base(f, v));
        Ok(st.(m := st.m[f.slot := Opt(1, v')]), rest)
      case (Repeated, Rep(items)) =>
        var (more, rest) :- DecItems(f, wt, bs, |items|);
        Ok(st.(m := st.m[f.slot := Rep(items + more)]), rest)
      case (FixedCount, Fix(items)) =>
        if st.fixed.None? || |items| != f.arraySize || st.fixed.value.size > f.arraySize then Err else
        var k := st.fixed.value.size;
        var (more, rest) :- DecItems(f, wt, bs, k);
        Ok(st.(m := st.m[f.slot := Fix(items[..k] + more + items[k + |more|..])],
               fixed := Some(st.fixed.value.(size := k + |more|))), rest)
      case (Oneof, Union(which, v)) =>
        if which != 0 && which != f.tag && Find(fields, which).None? then Err else
        var (v', rest) :- DecVal(f, bs, if which == f.tag then Base(f, v) else VNone);
        Ok(st.(m := st.m[f.slot := Union(f.tag, v')]), rest)
      case _ => Err
  }

  predicate Complete(fixed: Option<Progress>) {
    fixed.Some? ==> fixed.value.size == fixed.value.full
  }

  /** Bookkeeping before a known field is decoded; `None` if another fixed-count array is unfinished. */
  function Enter(f: Field, st: State): Option<State> {
    var seen := if f.htype.Required? then st.seen + {f.tag} else st.seen;
    if !f.htype.FixedCount? || (st.fixed.Some? && st.fixed.value.tag == f.tag) then Some(st.(seen := seen))
    else if !Complete(st.fixed) then None
    else Some(st.(seen := seen, fixed := Some(Progress(f.tag, 0, f.arraySize))))
  }

  /** One tagged record: a known field is decoded, an unknown one skipped. */
  function Step(fields: seq<Field>, tag: nat, wt: nat, bs: seq<byte>, st: State): (r: Parse<State>)
    ensures r.Ok? ==> |r.rest| <= |bs|
    decreases |bs|, 3
  {
    match Find(fields, tag)
    case Some(f) =>
      (match Enter(f, st)
       case None => Err
       case Some(st') => DecField(fields, f, wt, bs, st'))
    case None =>
      // In an empty table the lookup of tag 0 hits the terminator, which reads as a required bool.
      if |fields| == 0 && tag == 0 then
        var (_, rest) :- DecVarint32(bs);
        Ok(st, rest)
      else
        var (_, rest) :- SkipField(wt, bs);
        Ok(st, rest)
  }

  /** The field loop of pb_decode_noinit: up to the end of the bytes or a zero key. */
  function Run(fields: seq<Field>, bs: seq<byte>, st: State): (r: Parse<State>)
    ensures r.Ok? ==> |r.rest| <= |bs|
    decreases |bs|, 4
  {
    match DecTag(bs)
    case BadTag => Err
    case End(rest) => Ok(st, rest)
    case Tag(tag, wt, rest) =>
      var (st', rest') :- Step(fields, tag, wt, rest, st);
      Run(fields, rest', st')
  }

  /** The checks at the end: fixed-count arrays are full and the tracked required fields were met. */
  predicate Finished(fields: seq<Field>, st: State) {
    && Complete(st.fixed)
    && forall i :: 0 <= i < |fields| && fields[i].htype.Required? && RequiredIndex(fields, i) < MAX_REQUIRED ==>
         fields[i].tag in st.seen
  }

  /** pb_decode_noinit. */
  function DecMsg(fields: seq<Field>, bs: seq<byte>, m: Msg): (r: Parse<Msg>)
    ensures r.Ok? ==> |r.rest| <= |bs|
    decreases |bs|, 5
  {
    var (st, rest) :- Run(fields, bs, State(m, {}, None));
    if Finished(fields, st) then Ok(st.m, rest) else Err
  }

  /** pb_decode. */
  function Decode(fields: seq<Field>, bs: seq<byte>): (r: Parse<Msg>)
    ensures r.Ok? ==> |r.rest| <= |bs|
  {
    DecMsg(fields, bs, Defaults(fields))
  }
}
