/**
  The decoder (pb_decode.c): each routine reads from an input stream what `DecodeSpec`
  gives for the bytes in it, or returns false, and never reads outside the stream.
 */
module Decoder {
  import opened Bytes
  import opened Varint
  import opened Wire
  import opened Message
  import opened EncodeSpec
  import opened DecodeSpec
  import opened InputStream
  import opened FieldIterator
  import opened RequiredBits
  import Framing

  /** pb_decode_varint. */
  method DecodeVarint(s: IStream) returns (ok: bool, value: nat)
    requires s.Valid()
    modifies s
    ensures s.Confined(ok, old(s.state), old(s.state + s.bytesLeft))
    ensures s.At(DecVarint64(old(s.Remaining())), ok)
    ensures ok ==> value == DecVarint64(old(s.Remaining())).val
  {
    hide BitOr, Shl;
    var bitpos: nat, result: nat := 0, 0;
    var b: byte := 0x80;
    value := 0;
    while b >= 128
      invariant s.Confined(true, old(s.state), old(s.state + s.bytesLeft))
      invariant DecVarint64(old(s.Remaining()))
             == if b >= 128 then Varint64From(s.Remaining(), bitpos, result) else Ok(result, s.Remaining())
      decreases s.bytesLeft, b
    {
      if bitpos >= 64 {
        return false, 0;
      }
      ok, b := s.ReadByte();
      if !ok {
        return;
      }
      result := BitOr(result, Shl(b % 128, bitpos) % TWO_64);
      bitpos := bitpos + 7;
    }
    return true, result;
  }

  /** pb_decode_varint32_eof. `eof` is set when the stream is empty before the first byte. */
  method DecodeVarint32Eof(s: IStream) returns (ok: bool, value: nat, eof: bool)
    requires s.Valid()
    modifies s
    ensures s.Confined(ok, old(s.state), old(s.state + s.bytesLeft))
    ensures s.At(DecVarint32(old(s.Remaining())), ok)
    ensures ok ==> value == DecVarint32(old(s.Remaining())).val
    ensures eof <==> old(s.bytesLeft) == 0
  {
    hide BitOr, Shl, TrailingByteOk;
    var b: byte;
    value := 0;
    eof := false;
    ok, b := s.ReadByte();
    if !ok {
      eof := s.bytesLeft == 0;
      return;
    }
    if b < 128 {
      value := b;
      return;
    }
    var bitpos: nat, result: nat := 7, b % 128;
    while b >= 128
      invariant s.Confined(true, old(s.state), old(s.state + s.bytesLeft))
      invariant b >= 128 ==> DecVarint32(old(s.Remaining())) == Varint32From(s.Remaining(), bitpos, result)
      invariant b < 128 ==>
        DecVarint32(old(s.Remaining())) == if bitpos == 35 && b / 16 % 8 != 0 then Err else Ok(result, s.Remaining())
      decreases s.bytesLeft, b
    {
      ok, b := s.ReadByte();
      if !ok {
        return;
      }
      if bitpos >= 32 {
        if !TrailingByteOk(b, bitpos, result) {
          return false, 0, false;
        }
      } else {
        result := BitOr(result, Shl(b % 128, bitpos) % TWO_32);
      }
      bitpos := (bitpos + 7) % 256;
    }
    if bitpos == 35 && b / 16 % 8 != 0 {
      return false, 0, false;
    }
    return true, result, false;
  }

  /** pb_decode_varint32. */
  method DecodeVarint32(s: IStream) returns (ok: bool, value: nat)
    requires s.Valid()
    modifies s
    ensures s.Confined(ok, old(s.state), old(s.state + s.bytesLeft))
    ensures s.At(DecVarint32(old(s.Remaining())), ok)
    ensures ok ==> value == DecVarint32(old(s.Remaining())).val
  {
    var eof;
    ok, value, eof := DecodeVarint32Eof(s);
  }

  /** pb_decode_tag. `eof` tells the end of a message (no bytes, or a zero key) from an error. */
  method DecodeTag(s: IStream) returns (ok: bool, wt: nat, tag: nat, eof: bool)
    requires s.Valid()
    modifies s
    ensures s.Confined(ok || eof, old(s.state), old(s.state + s.bytesLeft))
    ensures match DecTag(old(s.Remaining()))
      case Tag(t, w, rest) => ok && tag == t && wt == w && s.Remaining() == rest
      case End(rest) => !ok && eof && s.Remaining() == rest
      case BadTag => !ok && !eof
  {
    hide DecVarint32;
    var key;
    wt, tag := 0, 0;
    ok, key, eof := DecodeVarint32Eof(s);
    if !ok {
      if eof {
        EmptyVarint(old(s.Remaining()));
      }
      return;
    }
    if key == 0 {
      return false, 0, 0, true;
    }
    return true, key % 8, key / 8, false;
  }

  lemma EmptyVarint(bs: seq<byte>)
    requires |bs| == 0
    ensures DecVarint32(bs) == Err
  {
  }

  // ---------------------------------------------------------------- skipping and substreams

  /** pb_skip_varint. */
  method SkipVarintBytes(s: IStream) returns (ok: bool)
    requires s.Valid()
    modifies s
    ensures s.Confined(ok, old(s.state), old(s.state + s.bytesLeft))
    ensures s.At(SkipVarint(old(s.Remaining())), ok)
  {
    var b: byte := 0x80;
    while b >= 128
      invariant s.Confined(true, old(s.state), old(s.state + s.bytesLeft))
      invariant SkipVarint(old(s.Remaining())) == if b >= 128 then SkipVarint(s.Remaining()) else Ok((), s.Remaining())
      decreases s.bytesLeft, b
    {
      ok, b := s.ReadByte();
      if !ok {
        return;
      }
    }
    return true;
  }

  /** pb_skip_string. */
  method SkipString(s: IStream) returns (ok: bool)
    requires s.Valid()
    modifies s
    ensures s.Confined(ok, old(s.state), old(s.state + s.bytesLeft))
    ensures s.At(DecString(old(s.Remaining())), ok)
  {
    hide DecVarint32, Take;
    var length;
    ok, length := DecodeVarint32(s);
    if ok {
      ok := s.Skip(length);
    }
  }

  /** pb_skip_field. */
  method SkipFieldData(s: IStream, wt: nat) returns (ok: bool)
    requires s.Valid()
    modifies s
    ensures s.Confined(ok, old(s.state), old(s.state + s.bytesLeft))
    ensures s.At(SkipField(wt, old(s.Remaining())), ok)
  {
    hide DecString, SkipVarint, Take;
    if wt == WT_VARINT {
      ok := SkipVarintBytes(s);
    } else if wt == WT_64BIT {
      ok := s.Skip(8);
    } else if wt == WT_STRING {
      ok := SkipString(s);
    } else if wt == WT_32BIT {
      ok := s.Skip(4);
    } else {
      ok := false;
    }
  }

  /**
    pb_make_string_substream: `sub` is limited to the declared length. The parent gives those bytes
    up at once but keeps its position until the substream is closed.
   */
  method MakeSubstream(s: IStream) returns (ok: bool, sub: IStream)
    requires s.Valid()
    modifies s
    ensures s.Confined(false, old(s.state), old(s.state + s.bytesLeft))
    ensures ok <==> DecString(old(s.Remaining())).Ok?
    ensures ok ==>
      && fresh(sub) && sub.Valid() && sub.buf == s.buf
      && sub.Remaining() == DecString(old(s.Remaining())).val
      && old(s.state) <= sub.state && sub.state + sub.bytesLeft + s.bytesLeft == old(s.state + s.bytesLeft)
      && s.buf[sub.state + sub.bytesLeft..sub.state + sub.bytesLeft + s.bytesLeft] == DecString(old(s.Remaining())).rest
  {
    hide DecVarint32;
    var size;
    ok, size := DecodeVarint32(s);
    sub := s;
    if !ok {
      return;
    }
    if s.bytesLeft < size {
      return false, s;
    }
    ghost var left := s.Remaining();
    assert Take(left, size) == Ok(left[..size], left[size..]);
    Slices(s.buf[..], s.state, s.bytesLeft, size);
    sub := new IStream.FromBuffer(s.buf, s.state, size);
    s.bytesLeft := s.bytesLeft - size;
  }

  lemma Slices(mem: seq<byte>, from: nat, left: nat, size: nat)
    requires from + left <= |mem| && size <= left
    ensures mem[from..from + left][..size] == mem[from..from + size]
    ensures mem[from..from + left][size..] == mem[from + size..from + left]
  {
  }

  /** pb_close_string_substream: the parent continues after the declared length, however much was read. */
  method CloseSubstream(s: IStream, sub: IStream) returns (ok: bool)
    requires sub.Valid() && s != sub && s.buf == sub.buf && sub.state + sub.bytesLeft + s.bytesLeft <= s.buf.Length
    modifies s, sub
    ensures ok && s.Valid()
    ensures s.state == old(sub.state + sub.bytesLeft) && s.bytesLeft == old(s.bytesLeft)
  {
    if sub.bytesLeft > 0 {
      ok := sub.Skip(sub.bytesLeft);
      if !ok {
        return;
      }
    }
    s.state := sub.state;
    return true;
  }

  // ---------------------------------------------------------------- values

  /** pb_decode_svarint. */
  method DecodeSvarint(s: IStream) returns (ok: bool, value: int)
    requires s.Valid()
    modifies s
    ensures s.Confined(ok, old(s.state), old(s.state + s.bytesLeft))
    ensures s.At(DecVarint64(old(s.Remaining())), ok)
    ensures ok ==> value == UnZigZag(DecVarint64(old(s.Remaining())).val)
  {
    hide DecVarint64;
    var u;
    value := 0;
    ok, u := DecodeVarint(s);
    if ok {
      value := if u % 2 == 1 then S64(TWO_64 - 1 - u / 2) else S64(u / 2);
    }
  }

  /** pb_decode_fixed32 and pb_decode_fixed64. */
  method DecodeFixed(s: IStream, width: nat) returns (ok: bool, value: nat)
    requires s.Valid()
    modifies s
    ensures s.Confined(ok, old(s.state), old(s.state + s.bytesLeft))
    ensures s.At(DecFixed(old(s.Remaining()), width), ok)
    ensures ok ==> value == DecFixed(old(s.Remaining()), width).val
  {
    hide Take;
    var data;
    value := 0;
    ok, data := s.Read(width);
    if ok {
      value := FromLe(data);
    }
  }

  /** The pb_dec_* functions other than pb_dec_submessage. */
  method DecodeScalar(s: IStream, f: Field) returns (ok: bool, v: Value)
    requires s.Valid() && !f.ltype.LSubmessage?
    modifies s
    ensures s.Confined(ok, old(s.state), old(s.state + s.bytesLeft))
    ensures s.At(DecScalar(f, old(s.Remaining())), ok)
    ensures ok ==> v == DecScalar(f, old(s.Remaining())).val
  {
    hide DecVarint32, DecVarint64, Take, UnZigZag, CastSigned, CastUnsigned, S32, Zeros, DecFixed;
    v := VNone;
    match f.ltype {
      case LBool =>
        var value;
        ok, value := DecodeVarint32(s);
        v := VBool(if value != 0 then 1 else 0);
      case LVarint => ok, v := DecodeInt(s, f);
      case LUvarint =>
        var value;
        ok, value := DecodeVarint(s);
        if ok {
          if !IntSize(f.dataSize) {
            return false, VNone;
          }
          var clamped := CastUnsigned(value, f.dataSize);
          v := VInt(clamped);
          ok := clamped == value;
        }
      case LSvarint =>
        var value;
        ok, value := DecodeSvarint(s);
        if ok {
          if !IntSize(f.dataSize) {
            return false, VNone;
          }
          var clamped := CastSigned(value, f.dataSize);
          v := VInt(clamped);
          ok := clamped == value;
        }
      case LFixed32 =>
        var value;
        ok, value := DecodeFixed(s, 4);
        v := VInt(value);
      case LFixed64 =>
        var value;
        ok, value := DecodeFixed(s, 8);
        v := VInt(value);
      case LBytes => ok, v := DecodeBytes(s, f);
      case LString => ok, v := DecodeCString(s, f);
      case LFixedLengthBytes => ok, v := DecodeFixedLengthBytes(s, f);
    }
  }

  /** pb_dec_varint: fields of up to 32 bits take the low word first, whatever the encoded sign. */
  method DecodeInt(s: IStream, f: Field) returns (ok: bool, v: Value)
    requires s.Valid() && f.ltype.LVarint?
    modifies s
    ensures s.Confined(ok, old(s.state), old(s.state + s.bytesLeft))
    ensures s.At(DecScalar(f, old(s.Remaining())), ok)
    ensures ok ==> v == DecScalar(f, old(s.Remaining())).val
  {
    hide DecVarint64, CastSigned, S32;
    var value;
    v := VNone;
    ok, value := DecodeVarint(s);
    if ok {
      var svalue := if f.dataSize == 8 then CastSigned(value, 8) else S32(value);
      if !IntSize(f.dataSize) {
        return false, VNone;
      }
      var clamped := CastSigned(svalue, f.dataSize);
      v := VInt(clamped);
      ok := clamped == svalue;
    }
  }

  /** pb_dec_bytes, up to the allocation of a pointer's block. */
  method DecodeBytes(s: IStream, f: Field) returns (ok: bool, v: Value)
    requires s.Valid() && f.ltype.LBytes?
    modifies s
    ensures s.Confined(ok, old(s.state), old(s.state + s.bytesLeft))
    ensures s.At(DecScalar(f, old(s.Remaining())), ok)
    ensures ok ==> v == DecScalar(f, old(s.Remaining())).val
  {
    hide DecVarint32, Take;
    var size, data;
    v := VNone;
    ok, size := DecodeVarint32(s);
    if !ok {
      return;
    }
    if size > PB_SIZE_MAX {
      return false, v;
    }
    var allocSize := size + SIZE_BYTES;
    if allocSize > Room(f) {
      return false, v;
    }
    ok, data := s.Read(size);
    v := VBytes(data);
  }

  /** pb_dec_string, up to the allocation of a pointer's block: room for the terminator is required. */
  method DecodeCString(s: IStream, f: Field) returns (ok: bool, v: Value)
    requires s.Valid() && f.ltype.LString?
    modifies s
    ensures s.Confined(ok, old(s.state), old(s.state + s.bytesLeft))
    ensures s.At(DecScalar(f, old(s.Remaining())), ok)
    ensures ok ==> v == DecScalar(f, old(s.Remaining())).val
  {
    hide DecVarint32, Take;
    var size, data;
    v := VNone;
    ok, size := DecodeVarint32(s);
    if !ok {
      return;
    }
    var allocSize := (size + 1) % TWO_32;
    if allocSize < size {
      return false, v;
    }
    if allocSize > Room(f) {
      return false, v;
    }
    ok, data := s.Read(size);
    v := VString(data + [0]);
  }

  /** pb_dec_fixed_length_bytes: an empty record stands for all zeros. */
  method DecodeFixedLengthBytes(s: IStream, f: Field) returns (ok: bool, v: Value)
    requires s.Valid() && f.ltype.LFixedLengthBytes?
    modifies s
    ensures s.Confined(ok, old(s.state), old(s.state + s.bytesLeft))
    ensures s.At(DecScalar(f, old(s.Remaining())), ok)
    ensures ok ==> v == DecScalar(f, old(s.Remaining())).val
  {
    hide DecVarint32, Take, Zeros;
    var size, data;
    v := VNone;
    ok, size := DecodeVarint32(s);
    if !ok {
      return;
    }
    if size > PB_SIZE_MAX {
      return false, v;
    }
    if size == 0 {
      return true, VBytes(Zeros(f.dataSize));
    }
    if size != f.dataSize {
      return false, v;
    }
    ok, data := s.Read(f.dataSize);
    v := VBytes(data);
  }

  // ---------------------------------------------------------------- defaults

  /** pb_field_set_to_default. */
  method FieldSetToDefault(f: Field) returns (slot: Slot)
    requires f.ltype.LSubmessage? ==> WfFields(f.ltype.ptr)
    ensures slot == InitSlot(f)
    decreases f, 1
  {
    match f.htype {
      case Repeated => slot := Rep([]);
      case FixedCount => slot := Fix(seq(f.arraySize, _ => VNone));
      case Oneof => slot := Union(0, VNone);
      case Optional =>
        var v := ValueSetToDefault(f);
        slot := Opt(0, v);
      case Singular =>
        var v := ValueSetToDefault(f);
        slot := One(v);
      case Required =>
        var v := ValueSetToDefault(f);
        slot := One(v);
    }
  }

  /** The data of a field: a pointer becomes NULL, a submessage is set to its defaults, other data to the default value or zeros. */
  method ValueSetToDefault(f: Field) returns (v: Value)
    requires f.ltype.LSubmessage? ==> WfFields(f.ltype.ptr)
    ensures v == InitValue(f)
    decreases f, 0
  {
    if f.layout.pointer {
      v := VNone;
    } else if f.ltype.LSubmessage? {
      var m := MessageSetToDefaults(f.ltype.ptr);
      v := VMsg(m);
    } else if f.init.Some? {
      v := f.init.value;
    } else {
      v := ZeroValue(f);
    }
  }

  /** pb_message_set_to_defaults: the fields in order, each overwriting its slot. */
  method MessageSetToDefaults(fields: seq<Field>) returns (m: Msg)
    requires WfFields(fields)
    ensures m == Defaults(fields)
    decreases fields, 2
  {
    hide InitSlot, Defaults, WfField;
    var it := new FieldIter(fields);
    m := map[];
    if |fields| == 0 {
      DefaultsEmpty(fields);
      return;
    }
    var more := true;
    ghost var done := 0;
    while more
      invariant it.Valid() && it.fields == fields && fresh(it)
      invariant done <= |fields| && (more <==> done < |fields|) && (more ==> it.pos == done)
      invariant forall k :: 0 <= k < done ==> fields[k].slot in m && m[fields[k].slot] == InitSlot(fields[k])
      invariant forall s :: s in m ==> exists k :: 0 <= k < done && fields[k].slot == s
      decreases |fields| - done
    {
      var f := fields[it.pos];
      WfMember(fields, it.pos);
      var slot := FieldSetToDefault(f);
      forall k | 0 <= k < done && fields[k].slot == f.slot
        ensures InitSlot(fields[k]) == InitSlot(f)
      {
        UnionInit(fields[k], f);
      }
      m := m[f.slot := slot];
      done := done + 1;
      more := it.Next();
    }
    DefaultsAre(fields, m);
  }

  lemma WfMember(fields: seq<Field>, i: nat)
    requires WfFields(fields) && i < |fields|
    ensures WfField(fields[i]) && (fields[i].ltype.LSubmessage? ==> WfFields(fields[i].ltype.ptr))
  {
  }

  lemma DefaultsEmpty(fields: seq<Field>)
    requires |fields| == 0
    ensures Defaults(fields) == map[]
  {
  }

  lemma UnionInit(f: Field, g: Field)
    requires f.htype.Oneof? && g.htype.Oneof?
    ensures InitSlot(f) == InitSlot(g)
  {
  }

  lemma DefaultsAre(fields: seq<Field>, m: Msg)
    requires DistinctSlots(fields)
    requires forall k :: 0 <= k < |fields| ==> fields[k].slot in m && m[fields[k].slot] == InitSlot(fields[k])
    requires forall s :: s in m ==> exists k :: 0 <= k < |fields| && fields[k].slot == s
    ensures m == Defaults(fields)
  {
    hide InitSlot, Defaults;
    forall s | s in m
      ensures s in Defaults(fields) && m[s] == Defaults(fields)[s]
    {
      var k :| 0 <= k < |fields| && fields[k].slot == s;
      DefaultsAt(fields, k);
    }
    forall s | s in Defaults(fields)
      ensures s in m
    {
      DefaultsKeys(fields, s);
    }
  }

  // ---------------------------------------------------------------- fields

  /** The decoder of one value: pb_dec_submessage or a scalar. `prev` is what the storage holds. */
  method DecodeValue(s: IStream, f: Field, prev: Value) returns (ok: bool, v: Value)
    requires s.Valid() && WfField(f)
    modifies s
    ensures s.Confined(ok, old(s.state), old(s.state + s.bytesLeft))
    ensures s.At(DecVal(f, old(s.Remaining()), prev), ok)
    ensures ok ==> v == DecVal(f, old(s.Remaining()), prev).val
    decreases s.bytesLeft, 0
  {
    hide DecScalar, DecMsg, DecString, Defaults;
    if f.ltype.LSubmessage? {
      ok, v := DecodeSubmessage(s, f, prev);
    } else {
      ok, v := DecodeScalar(s, f);
    }
  }

  /** pb_dec_submessage. */
  method DecodeSubmessage(s: IStream, f: Field, prev: Value) returns (ok: bool, v: Value)
    requires s.Valid() && WfField(f) && f.ltype.LSubmessage?
    modifies s
    ensures s.Confined(ok, old(s.state), old(s.state + s.bytesLeft))
    ensures s.At(DecVal(f, old(s.Remaining()), prev), ok)
    ensures ok ==> v == DecVal(f, old(s.Remaining()), prev).val
    decreases s.bytesLeft, 0, 0
  {
    hide DecVal, DecMsg, DecString, Defaults, WfFields;
    assert WfFields(f.ltype.ptr);
    hide WfField;
    SubmessageRead(f, s.Remaining(), prev);
    v := VNone;
    var sub;
    ok, sub := MakeSubstream(s);
    if !ok {
      return;
    }
    DecStringShorter(old(s.Remaining()));
    var base := SubmessageBase(f, prev);
    var status, m := DecodeNoInit(sub, f.ltype.ptr, base);
    ok := CloseSubstream(s, sub);
    ok := status;
    v := VMsg(m);
  }

  /** The struct to decode on top of: what the field holds, or the defaults. */
  method SubmessageBase(f: Field, prev: Value) returns (base: Msg)
    requires f.ltype.LSubmessage? && WfFields(f.ltype.ptr)
    ensures base == if prev.VMsg? then prev.msg else Defaults(f.ltype.ptr)
  {
    if prev.VMsg? {
      return prev.msg;
    }
    base := MessageSetToDefaults(f.ltype.ptr);
  }

  lemma SubmessageRead(f: Field, bs: seq<byte>, prev: Value)
    requires f.ltype.LSubmessage?
    ensures DecVal(f, bs, prev) ==
      match DecString(bs)
      case Err => Err
      case Ok(body, rest) =>
        match DecMsg(f.ltype.ptr, body, if prev.VMsg? then prev.msg else Defaults(f.ltype.ptr))
        case Err => Err
        case Ok(m, _) => Ok(VMsg(m), rest)
  {
    hide DecMsg, DecString, Defaults;
  }

  lemma DecStringShorter(bs: seq<byte>)
    requires DecString(bs).Ok?
    ensures |DecString(bs).val| < |bs|
  {
  }

  /** The packed-array loop of decode_static_field, on the record's substream. */
  method DecodePacked(s: IStream, f: Field, room: nat) returns (ok: bool, items: seq<Value>)
    requires s.Valid() && !f.ltype.LSubmessage?
    modifies s
    ensures s.Confined(ok, old(s.state), old(s.state + s.bytesLeft))
    ensures ok <==> DecPacked(f, old(s.Remaining()), room).Some?
    ensures ok ==> items == DecPacked(f, old(s.Remaining()), room).value && s.bytesLeft == 0
  {
    hide DecScalar;
    items := [];
    ghost var whole := DecPacked(f, s.Remaining(), room);
    PrependNoItems(whole);
    while s.bytesLeft > 0 && |items| < room
      invariant s.Confined(true, old(s.state), old(s.state + s.bytesLeft))
      invariant |items| <= room
      invariant whole == PrependItems(items, DecPacked(f, s.Remaining(), room - |items|))
      decreases s.bytesLeft
    {
      ghost var before := s.Remaining();
      var v;
      ok, v := DecodeScalar(s, f);
      if !ok {
        return;
      }
      PrependItem(items, v, DecPacked(f, s.Remaining(), room - |items| - 1));
      items := items + [v];
    }
    if s.bytesLeft != 0 {
      return false, items;
    }
    assert items + [] == items;
    return true, items;
  }

  lemma PrependNoItems(more: Option<seq<Value>>)
    ensures PrependItems([], more) == more
  {
    if more.Some? {
      assert [] + more.value == more.value;
    }
  }

  lemma PrependItem(items: seq<Value>, v: Value, others: Option<seq<Value>>)
    ensures PrependItems(items, PrependItems([v], others)) == PrependItems(items + [v], others)
  {
    if others.Some? {
      assert items + ([v] + others.value) == (items + [v]) + others.value;
    }
  }

  ghost function PrependItems(items: seq<Value>, more: Option<seq<Value>>): Option<seq<Value>> {
    var m :- more;
    Some(items + m)
  }

  /** The REPEATED branch of decode_static_field: a packed record or one more item. */
  method DecodeArrayItems(s: IStream, f: Field, wt: nat, count: nat) returns (ok: bool, items: seq<Value>)
    requires s.Valid() && WfField(f)
    modifies s
    ensures s.Confined(ok, old(s.state), old(s.state + s.bytesLeft))
    ensures s.At(DecItems(f, wt, old(s.Remaining()), count), ok)
    ensures ok ==> items == DecItems(f, wt, old(s.Remaining()), count).val
    decreases s.bytesLeft, 1
  {
    hide DecVal, DecString, DecPacked;
    items := [];
    if wt == WT_STRING && Packable(f.ltype) {
      var sub;
      ok, sub := MakeSubstream(s);
      if !ok {
        return;
      }
      var status;
      status, items := DecodePacked(sub, f, if count <= f.arraySize then f.arraySize - count else 0);
      if !status {
        return false, [];
      }
      ok := CloseSubstream(s, sub);
    } else {
      if count >= f.arraySize {
        return false, [];
      }
      var v;
      ok, v := DecodeValue(s, f, VNone);
      items := [v];
    }
  }

  /** pb_release_union_field for static members: the previous member must be one the table knows. */
  method ReleaseUnionField(it: FieldIter, which: nat) returns (ok: bool)
    requires it.Valid() && it.pos < |it.fields| && DistinctTags(it.fields) && WfFields(it.fields)
    modifies it
    ensures ok <==> which == 0 || which == it.fields[old(it.pos)].tag || Find(it.fields, which).Some?
    ensures it.Valid() && (ok ==> it.pos == old(it.pos))
  {
    var newTag := it.fields[it.pos].tag;
    if which == 0 || which == newTag {
      return true;
    }
    ok := it.Find(which);
    if !ok {
      return;
    }
    ok := it.Find(newTag);
  }

  /** decode_field for static storage, at the iterator's position. */
  method DecodeStaticField(s: IStream, it: FieldIter, wt: nat, m: Msg, fixed: Option<Progress>, ghost seen: set<nat>)
    returns (ok: bool, m': Msg, fixed': Option<Progress>)
    requires s.Valid() && it.Valid() && it.pos < |it.fields| && WfFields(it.fields)
    modifies s, it
    ensures it.Valid() && (ok ==> it.pos == old(it.pos))
    ensures s.Confined(ok, old(s.state), old(s.state + s.bytesLeft))
    ensures var r := DecField(it.fields, it.fields[old(it.pos)], wt, old(s.Remaining()), State(m, seen, fixed));
      s.At(r, ok) && (ok ==> r.val == State(m', seen, fixed'))
    decreases s.bytesLeft, 3
  {
    hide DecVal, DecItems, WfField;
    var f := it.fields[it.pos];
    WfMember(it.fields, it.pos);
    m', fixed' := m, fixed;
    if f.slot !in m {
      return false, m, fixed;
    }
    var v: Value;
    match (f.htype, m[f.slot]) {
      case (Required, One(prev)) =>
        ok, v := DecodeValue(s, f, prev);
        m' := m[f.slot := One(v)];
      case (Singular, One(prev)) =>
        ok, v := DecodeValue(s, f, prev);
        m' := m[f.slot := One(v)];
      case (Optional, Opt(_, prev)) =>
        ok, v := DecodeValue(s, f, prev);
        m' := m[f.slot := Opt(1, v)];
      case (Repeated, Rep(items)) =>
        var more;
        ok, more := DecodeArrayItems(s, f, wt, |items|);
        m' := m[f.slot := Rep(items + more)];
      case (FixedCount, Fix(items)) =>
        ok, m', fixed' := DecodeFixedCount(s, f, wt, m, items, fixed);
      case (Oneof, Union(which, prev)) =>
        ok := ReleaseUnionField(it, which);
        if !ok {
          return;
        }
        ok, v := DecodeValue(s, f, if which == f.tag then prev else VNone);
        m' := m[f.slot := Union(f.tag, v)];
      case _ => return false, m, fixed;
    }
  }

  /** The repeated branch for an array without a count field: the decoder's own counter is used. */
  method DecodeFixedCount(s: IStream, f: Field, wt: nat, m: Msg, items: seq<Value>, fixed: Option<Progress>)
    returns (ok: bool, m': Msg, fixed': Option<Progress>)
    requires s.Valid() && WfField(f)
    modifies s
    ensures s.Confined(ok, old(s.state), old(s.state + s.bytesLeft))
    ensures var unfit := fixed.None? || |items| != f.arraySize || fixed.value.size > f.arraySize;
      if unfit then !ok
      else
        var k := fixed.value.size;
        var r := DecItems(f, wt, old(s.Remaining()), k);
        && s.At(r, ok)
        && (ok ==>
              && m' == m[f.slot := Fix(items[..k] + r.val + items[k + |r.val|..])]
              && fixed' == Some(fixed.value.(size := k + |r.val|)))
    decreases s.bytesLeft, 2
  {
    hide DecItems;
    m', fixed' := m, fixed;
    if fixed.None? || |items| != f.arraySize || fixed.value.size > f.arraySize {
      return false, m, fixed;
    }
    var k := fixed.value.size;
    var more;
    ok, more := DecodeArrayItems(s, f, wt, k);
    if ok {
      m' := m[f.slot := Fix(items[..k] + more + items[k + |more|..])];
      fixed' := Some(fixed.value.(size := k + |more|));
    }
  }

  // ---------------------------------------------------------------- required fields

  /** The bitmap agrees with the set of required fields met. */
  ghost predicate BitsAgree(fields: seq<Field>, bits: seq<bool>, seen: set<nat>) {
    && |bits| == MAX_REQUIRED
    && (forall i :: 0 <= i < |fields| && fields[i].htype.Required? && RequiredIndex(fields, i) < MAX_REQUIRED ==>
          (bits[RequiredIndex(fields, i)] <==> fields[i].tag in seen))
    && (forall j :: RequiredIndex(fields, |fields|) <= j < MAX_REQUIRED ==> !bits[j])
  }

  lemma {:induction false} IndexGrows(fields: seq<Field>, i: nat, j: nat)
    requires i < j <= |fields|
    ensures RequiredIndex(fields, i) + (if fields[i].htype.Required? then 1 else 0) <= RequiredIndex(fields, j)
    decreases j
  {
    if i < j - 1 {
      IndexGrows(fields, i, j - 1);
    }
  }

  lemma {:induction false} IndexCovers(fields: seq<Field>, n: nat, k: nat) returns (i: nat)
    requires n <= |fields| && k < RequiredIndex(fields, n)
    ensures i < n && fields[i].htype.Required? && RequiredIndex(fields, i) == k
    decreases n
  {
    if k == RequiredIndex(fields, n - 1) {
      i := n - 1;
    } else {
      i := IndexCovers(fields, n - 1, k);
    }
  }

  lemma MarkAgrees(fields: seq<Field>, bits: seq<bool>, seen: set<nat>, p: nat)
    requires DistinctTags(fields) && BitsAgree(fields, bits, seen) && p < |fields| && fields[p].htype.Required?
    ensures RequiredIndex(fields, p) < MAX_REQUIRED ==>
      BitsAgree(fields, bits[RequiredIndex(fields, p) := true], seen + {fields[p].tag})
    ensures RequiredIndex(fields, p) >= MAX_REQUIRED ==> BitsAgree(fields, bits, seen + {fields[p].tag})
  {
    hide RequiredIndex;
    IndexGrows(fields, p, |fields|);
    forall i | 0 <= i < |fields| && i != p && fields[i].htype.Required?
      ensures RequiredIndex(fields, i) != RequiredIndex(fields, p)
    {
      if i < p {
        IndexGrows(fields, i, p);
      } else {
        IndexGrows(fields, p, i);
      }
    }
  }

  /** All tracked bits are set exactly when every tracked required field was met. */
  lemma BitsTest(fields: seq<Field>, bits: seq<bool>, seen: set<nat>, count: nat)
    requires BitsAgree(fields, bits, seen)
    requires count == if RequiredIndex(fields, |fields|) > MAX_REQUIRED then MAX_REQUIRED else RequiredIndex(fields, |fields|)
    ensures (forall j :: 0 <= j < count ==> bits[j]) <==>
      forall i :: 0 <= i < |fields| && fields[i].htype.Required? && RequiredIndex(fields, i) < MAX_REQUIRED ==>
        fields[i].tag in seen
  {
    hide RequiredIndex;
    forall i | 0 <= i < |fields| && fields[i].htype.Required?
      ensures RequiredIndex(fields, i) < RequiredIndex(fields, |fields|)
    {
      IndexGrows(fields, i, |fields|);
    }
    if forall i :: 0 <= i < |fields| && fields[i].htype.Required? && RequiredIndex(fields, i) < MAX_REQUIRED ==> fields[i].tag in seen {
      forall j | 0 <= j < count
        ensures bits[j]
      {
        var i := IndexCovers(fields, |fields|, j);
      }
    }
  }

  /** The final check of required fields: the iterator is run to the end to count them. */
  method CheckRequired(it: FieldIter, seenBits: FieldsSeen, ghost seen: set<nat>) returns (ok: bool)
    requires it.Valid() && seenBits.Valid() && BitsAgree(it.fields, seenBits.bits, seen)
    modifies it
    ensures ok <==> forall i :: 0 <= i < |it.fields| && it.fields[i].htype.Required? && RequiredIndex(it.fields, i) < MAX_REQUIRED ==>
      it.fields[i].tag in seen
  {
    var count := 0;
    if |it.fields| > 0 {
      var more, lastRequired := true, false;
      while more
        invariant it.Valid()
        invariant !more ==> count == RequiredIndex(it.fields, |it.fields| - 1)
        invariant !more ==> lastRequired == it.fields[|it.fields| - 1].htype.Required?
        decreases more, |it.fields| - it.pos
      {
        count := it.requiredFieldIndex;
        lastRequired := it.fields[it.pos].htype.Required?;
        more := it.Next();
      }
      if lastRequired {
        count := count + 1;
      }
    }
    if count > MAX_REQUIRED {
      count := MAX_REQUIRED;
    }
    BitsTest(it.fields, seenBits.bits, seen, count);
    ok := true;
    if count > 0 {
      ok := seenBits.AllSeen(count);
    }
  }

  // ---------------------------------------------------------------- the field loop

  /** One record whose tag has been read: the known field is decoded, anything else skipped. */
  method DecodeRecord(s: IStream, it: FieldIter, seenBits: FieldsSeen, tag: nat, wt: nat, rangeStart: nat,
                      m: Msg, fixed: Option<Progress>, ghost seen: set<nat>)
    returns (ok: bool, rangeStart': nat, m': Msg, fixed': Option<Progress>, ghost seen': set<nat>)
    requires s.Valid() && it.Valid() && WfFields(it.fields) && tag < TWO_32 - 1
    requires seenBits.Valid() && BitsAgree(it.fields, seenBits.bits, seen)
    modifies s, it, seenBits, seenBits.words
    ensures it.Valid() && seenBits.Valid() && s.Confined(ok, old(s.state), old(s.state + s.bytesLeft))
    ensures var r := Step(it.fields, tag, wt, old(s.Remaining()), State(m, seen, fixed));
      s.At(r, ok) && (ok ==> r.val == State(m', seen', fixed') && BitsAgree(it.fields, seenBits.bits, seen'))
    decreases s.bytesLeft, 4
  {
    hide DecField, SkipField, DecVarint32, BitsAgree, WfField;
    rangeStart', m', fixed', seen' := rangeStart, m, fixed, seen;
    FindByTag(it.fields, tag);
    var found := it.Find(tag);
    if !found {
      // No extension field exists in the descriptors modelled, so the search for one only moves the bound.
      if tag >= rangeStart {
        rangeStart' := TWO_32 - 1;
      }
      ok := SkipFieldData(s, wt);
      return;
    }
    if |it.fields| == 0 {
      // The terminator of an empty table, read as a required bool.
      var value;
      ok, value := DecodeVarint32(s);
      return;
    }
    FindUnique(it.fields, it.fields[it.pos]);
    ok, m', fixed', seen' := DecodeKnown(s, it, seenBits, wt, m, fixed, seen);
  }

  /** A record of the field that the iterator has found. */
  method DecodeKnown(s: IStream, it: FieldIter, seenBits: FieldsSeen, wt: nat, m: Msg, fixed: Option<Progress>, ghost seen: set<nat>)
    returns (ok: bool, m': Msg, fixed': Option<Progress>, ghost seen': set<nat>)
    requires s.Valid() && it.Valid() && WfFields(it.fields) && |it.fields| > 0
    requires seenBits.Valid() && BitsAgree(it.fields, seenBits.bits, seen)
    modifies s, it, seenBits, seenBits.words
    ensures it.Valid() && seenBits.Valid() && s.Confined(ok, old(s.state), old(s.state + s.bytesLeft))
    ensures var f := old(it.fields[it.pos]);
      var entered := Enter(f, State(m, seen, fixed));
      if entered.None? then !ok else
        var r := DecField(it.fields, f, wt, old(s.Remaining()), entered.value);
        s.At(r, ok) && (ok ==> r.val == State(m', seen', fixed') && BitsAgree(it.fields, seenBits.bits, seen'))
    decreases s.bytesLeft, 4, 0
  {
    hide DecField, BitsAgree, WfField;
    m', fixed', seen' := m, fixed, seen;
    var f := it.fields[it.pos];
    if f.htype.FixedCount? {
      if fixed.None? || fixed.value.tag != f.tag {
        if fixed.Some? && fixed.value.size != fixed.value.full {
          return false, m, fixed, seen;
        }
        fixed' := Some(Progress(f.tag, 0, f.arraySize));
      }
    }
    if f.htype.Required? {
      MarkAgrees(it.fields, seenBits.bits, seen, it.pos);
      seen' := seen + {f.tag};
      if it.requiredFieldIndex < MAX_REQUIRED {
        seenBits.Mark(it.requiredFieldIndex);
      }
    }
    ok, m', fixed' := DecodeStaticField(s, it, wt, m, fixed', seen');
  }

  lemma FindByTag(fields: seq<Field>, tag: nat)
    ensures Find(fields, tag).Some? <==> exists i :: 0 <= i < |fields| && fields[i].tag == tag
  {
    if Find(fields, tag).Some? {
      var f := Find(fields, tag).value;
      var i :| 0 <= i < |fields| && fields[i] == f;
    } else {
      forall i | 0 <= i < |fields|
        ensures fields[i].tag != tag
      {
        assert fields[i] in fields;
      }
    }
  }

  /**
    pb_decode_noinit. Neither the iterator's position left by earlier fields nor the cached start of
    the extension range affects the outcome.
   */
  method DecodeNoInit(s: IStream, fields: seq<Field>, m: Msg) returns (ok: bool, m': Msg)
    requires s.Valid() && WfFields(fields)
    modifies s
    ensures s.Confined(ok, old(s.state), old(s.state + s.bytesLeft))
    ensures s.At(DecMsg(fields, old(s.Remaining()), m), ok)
    ensures ok ==> m' == DecMsg(fields, old(s.Remaining()), m).val
    decreases s.bytesLeft, 5
  {
    hide Step, DecTag, BitsAgree, WfFields, Finished;
    var seenBits := new FieldsSeen();
    var it := new FieldIter(fields);
    var rangeStart: nat := 0;
    var fixed: Option<Progress> := None;
    ghost var seen: set<nat> := {};
    ghost var whole := Run(fields, s.Remaining(), State(m, {}, None));
    m' := m;
    NoBits(fields, seenBits.bits);
    ghost var stopped := false;
    while s.bytesLeft > 0
      invariant s.Confined(true, old(s.state), old(s.state + s.bytesLeft))
      invariant it.Valid() && it.fields == fields && seenBits.Valid() && BitsAgree(fields, seenBits.bits, seen)
      invariant fresh(it) && fresh(seenBits) && fresh(seenBits.words)
      invariant whole == Run(fields, s.Remaining(), State(m', seen, fixed))
      invariant !stopped
      decreases s.bytesLeft
    {
      ghost var rest := s.Remaining();
      var wt, tag, eof;
      ok, wt, tag, eof := DecodeTag(s);
      if !ok {
        if eof {
          stopped := true;
          break;
        }
        return;
      }
      TagBound(rest);
      ok, rangeStart, m', fixed, seen := DecodeRecord(s, it, seenBits, tag, wt, rangeStart, m', fixed, seen);
      if !ok {
        return;
      }
    }
    assert whole == Ok(State(m', seen, fixed), s.Remaining()) by {
      if !stopped {
        NothingToRead(fields, s.Remaining(), State(m', seen, fixed));
      }
    }
    ok := FinishMessage(it, seenBits, m', fixed, seen);
  }

  /** The checks after the field loop: no fixed-count array is unfinished and the required fields were met. */
  method FinishMessage(it: FieldIter, seenBits: FieldsSeen, ghost m: Msg, fixed: Option<Progress>, ghost seen: set<nat>) returns (ok: bool)
    requires it.Valid() && seenBits.Valid() && BitsAgree(it.fields, seenBits.bits, seen)
    modifies it
    ensures ok <==> Finished(it.fields, State(m, seen, fixed))
  {
    hide BitsAgree;
    if fixed.Some? && fixed.value.size != fixed.value.full {
      return false;
    }
    ok := CheckRequired(it, seenBits, seen);
  }

  lemma NoBits(fields: seq<Field>, bits: seq<bool>)
    requires bits == seq(64, _ => false)
    ensures BitsAgree(fields, bits, {})
  {
  }

  lemma TagBound(bs: seq<byte>)
    ensures DecTag(bs).Tag? ==> DecTag(bs).tag < TWO_32 - 1
  {
  }

  lemma NothingToRead(fields: seq<Field>, bs: seq<byte>, st: State)
    requires |bs| == 0
    ensures Run(fields, bs, st) == Ok(st, bs)
  {
  }

  // ---------------------------------------------------------------- entry points

  /** pb_decode. */
  method PbDecode(s: IStream, fields: seq<Field>) returns (ok: bool, m: Msg)
    requires s.Valid() && WfFields(fields)
    modifies s
    ensures s.Confined(ok, old(s.state), old(s.state + s.bytesLeft))
    ensures s.At(Decode(fields, old(s.Remaining())), ok)
    ensures ok ==> m == Decode(fields, old(s.Remaining())).val
  {
    hide DecMsg, Defaults;
    m := MessageSetToDefaults(fields);
    ok, m := DecodeNoInit(s, fields, m);
  }

  /** pb_decode_delimited. */
  method DecodeDelimited(s: IStream, fields: seq<Field>) returns (ok: bool, m: Msg)
    requires s.Valid() && WfFields(fields)
    modifies s
    ensures s.Confined(ok, old(s.state), old(s.state + s.bytesLeft))
    ensures s.At(Framing.DecDelimited(fields, old(s.Remaining())), ok)
    ensures ok ==> m == Framing.DecDelimited(fields, old(s.Remaining())).val
  {
    hide Decode, DecString;
    var sub;
    m := map[];
    ok, sub := MakeSubstream(s);
    if !ok {
      return;
    }
    var status;
    status, m := PbDecode(sub, fields);
    ok := CloseSubstream(s, sub);
    ok := status;
  }
}
