/**
  The encoder (pb_encode.c): each routine writes to an output stream what `EncodeSpec`
  gives for its value, or returns false.

  A struct whose slots do not have the shapes that its descriptor says is an error here;
  in C the descriptor's types exclude it.
 */
module Encoder {
  import opened Bytes
  import opened Varint
  import opened Wire
  import opened Message
  import opened EncodeSpec
  import opened EncoderRuns
  import opened OutputStream
  import Framing

  /** pb_encode_varint. */
  method EncodeVarint(s: OStream, v: nat) returns (ok: bool)
    requires s.Valid() && v < TWO_64
    modifies s, s.buf
    ensures s.Emitted(old(s.out), Some(EncVarint(v)), ok) && s.Kept(old(s.Mem()), old(s.state))
  {
    hide EncVarint;
    VarintSplit(v);
    if v <= 0x7F {
      ok := s.Write([v]);
      return;
    }
    var buffer := VarintBytes(v);
    ok := s.Write(buffer);
  }

  lemma VarintSplit(v: nat)
    ensures EncVarint(v) == if v < 128 then [v] else [128 + v % 128] + EncVarint(v / 128)
  {
  }

  /** The loop of pb_encode_varint: a ten-byte buffer is filled, and the last byte's top bit cleared. */
  method VarintBytes(v: nat) returns (bytes: seq<byte>)
    requires 0 < v < TWO_64
    ensures bytes == EncVarint(v)
  {
    hide EncVarint;
    VarintAtMostTen(v);
    var buffer := new byte[10];
    var i: nat, value: nat := 0, v;
    while value > 0
      invariant 0 <= i <= 10
      invariant value > 0 ==> EncVarint(v) == buffer[..i] + EncVarint(value)
      invariant value == 0 ==> i > 0 && buffer[i - 1] >= 128 && EncVarint(v) == buffer[..i - 1] + [buffer[i - 1] - 128]
      modifies buffer
      decreases value
    {
      ghost var before := buffer[..i];
      VarintSplit(value);
      assert |EncVarint(v)| == |before| + |EncVarint(value)|;
      buffer[i] := 128 + value % 128;
      assert buffer[..i] == before;
      assert buffer[..i + 1] == before + [128 + value % 128];
      assert value >= 128 ==> before + EncVarint(value) == buffer[..i + 1] + EncVarint(value / 128);
      value := value / 128;
      i := i + 1;
    }
    buffer[i - 1] := buffer[i - 1] % 128;
    assert buffer[..i] == EncVarint(v);
    return buffer[..i];
  }

  /** pb_encode_svarint. */
  method EncodeSvarint(s: OStream, v: int) returns (ok: bool)
    requires s.Valid() && -TWO_63 <= v < TWO_63
    modifies s, s.buf
    ensures s.Emitted(old(s.out), Some(EncVarint(ZigZag(v))), ok) && s.Kept(old(s.Mem()), old(s.state))
  {
    var zigzagged: nat;
    if v < 0 {
      zigzagged := TWO_64 - 1 - (U64(v) * 2) % TWO_64;
    } else {
      zigzagged := U64(v) * 2 % TWO_64;
    }
    ok := EncodeVarint(s, zigzagged);
  }

  /** pb_encode_fixed32. */
  method EncodeFixed32(s: OStream, v: nat) returns (ok: bool)
    requires s.Valid() && v < TWO_32
    modifies s, s.buf
    ensures s.Emitted(old(s.out), Some(Le(v, 4)), ok) && s.Kept(old(s.Mem()), old(s.state))
  {
    LeOf4(v);
    ok := s.Write([v % 256, v / 0x100 % 256, v / 0x1_0000 % 256, v / 0x100_0000 % 256]);
  }

  lemma Shifts(v: nat)
    ensures v / 0x100 / 256 == v / 0x1_0000
    ensures v / 0x1_0000 / 256 == v / 0x100_0000
    ensures v / 0x100_0000 / 256 == v / TWO_32
  {
  }

  lemma LeOf4(v: nat)
    ensures Le(v, 4) == [v % 256, v / 0x100 % 256, v / 0x1_0000 % 256, v / 0x100_0000 % 256]
  {
    Shifts(v);
    assert Le(v / 0x100_0000, 1) == [v / 0x100_0000 % 256];
    assert Le(v / 0x1_0000, 2) == [v / 0x1_0000 % 256] + Le(v / 0x100_0000, 1);
    assert Le(v / 0x100, 3) == [v / 0x100 % 256] + Le(v / 0x1_0000, 2);
  }

  /** pb_encode_fixed64. */
  method EncodeFixed64(s: OStream, v: nat) returns (ok: bool)
    requires s.Valid() && v < TWO_64
    modifies s, s.buf
    ensures s.Emitted(old(s.out), Some(Le(v, 8)), ok) && s.Kept(old(s.Mem()), old(s.state))
  {
    LeOf8(v);
    LeOf4(v);
    var hi := v / TWO_32;
    LeOf4(hi);
    ok := s.Write([v % 256, v / 0x100 % 256, v / 0x1_0000 % 256, v / 0x100_0000 % 256,
                   hi % 256, hi / 0x100 % 256, hi / 0x1_0000 % 256, hi / 0x100_0000 % 256]);
  }

  lemma {:induction false} LeOf8(v: nat)
    ensures Le(v, 8) == Le(v, 4) + Le(v / TWO_32, 4)
  {
    Shifts(v);
    LeJoin(v / 0x100_0000, 0);
    LeJoin(v / 0x1_0000, 1);
    LeJoin(v / 0x100, 2);
    LeJoin(v, 3);
    assert Le(v / 0x100_0000, 0) == [];
  }

  lemma LeJoin(v: nat, n: nat)
    ensures Le(v, n + 1) == [v % 256] + Le(v / 256, n)
    ensures Le(v, n + 5) == [v % 256] + Le(v / 256, n + 4)
  {
  }

  /** pb_encode_tag. */
  method EncodeTag(s: OStream, wt: nat, tag: nat) returns (ok: bool)
    requires s.Valid() && wt < 8 && tag < TWO_32
    modifies s, s.buf
    ensures s.Emitted(old(s.out), Some(EncTag(wt, tag)), ok) && s.Kept(old(s.Mem()), old(s.state))
  {
    ok := EncodeVarint(s, tag * 8 + wt);
  }

  /** pb_encode_string. */
  method EncodeString(s: OStream, data: seq<byte>) returns (ok: bool)
    requires s.Valid() && |data| < TWO_64
    modifies s, s.buf
    ensures s.Emitted(old(s.out), Some(EncString(data)), ok) && s.Kept(old(s.Mem()), old(s.state))
  {
    ok := EncodeVarint(s, |data|);
    if !ok {
      return;
    }
    ok := s.Write(data);
    assert old(s.out) + EncVarint(|data|) + data == old(s.out) + (EncVarint(|data|) + data);
  }

  // ---------------------------------------------------------------- fields

  /** Static storage, and sizes and tags that are machine numbers: no data or encoding reaches 2^64 bytes. */
  predicate RepresentableValue(f: Field, v: Value)
    decreases f, 0
  {
    && f.tag < TWO_32 && f.dataSize < TWO_64 && !f.layout.pointer
    && (f.ltype.LFixed32? ==> v.VInt? && 0 <= v.n < TWO_32)
    && (f.ltype.LFixed64? ==> v.VInt? && 0 <= v.n < TWO_64)
    && (f.ltype.LSubmessage? && v.VMsg? ==>
          && Representable(f.ltype.ptr, v.msg)
          && (var body := Enc(f.ltype.ptr, v.msg); body.Some? ==> |body.value| < TWO_64))
  }

  predicate RepresentableSlot(f: Field, s: Slot)
    decreases f, 1
  {
    if s.Rep? || s.Fix? then
      && (forall i :: 0 <= i < |s.items| ==> RepresentableValue(f, s.items[i]))
      && f.tag < TWO_32
      && (var payload := EncPayload(f, s.items); payload.Some? ==> |payload.value| < TWO_64)
    else (s.Union? && s.which != f.tag) || RepresentableValue(f, s.v)
  }

  predicate Representable(fields: seq<Field>, m: Msg)
    decreases fields, 2
  {
    forall i :: 0 <= i < |fields| ==>
      fields[i].slot in m ==> RepresentableSlot(fields[i], m[fields[i].slot])
  }

  /** pb_encode_tag_for_field. */
  method EncodeTagForField(s: OStream, f: Field) returns (ok: bool)
    requires s.Valid() && f.tag < TWO_32
    modifies s, s.buf
    ensures s.Emitted(old(s.out), Some(EncTag(WireType(f.ltype), f.tag)), ok) && s.Kept(old(s.Mem()), old(s.state))
  {
    var wt: nat;
    match f.ltype {
      case LFixed32 => wt := WT_32BIT;
      case LFixed64 => wt := WT_64BIT;
      case LBytes => wt := WT_STRING;
      case LString => wt := WT_STRING;
      case LSubmessage(_) => wt := WT_STRING;
      case LFixedLengthBytes => wt := WT_STRING;
      case _ => wt := WT_VARINT;
    }
    ok := EncodeTag(s, wt, f.tag);
  }

  /** pb_enc_string: the length is found by scanning for the NUL, at most `data_size` bytes. */
  method StringLength(mem: seq<byte>, maxSize: nat) returns (size: nat)
    requires |mem| <= maxSize && (|CStr(mem)| < |mem| || |mem| == maxSize)
    ensures size == |CStr(mem)|
  {
    size := 0;
    while size < maxSize && mem[size] != 0
      invariant size <= |CStr(mem)|
    {
      size := size + 1;
    }
  }

  /** The pb_enc_* functions other than pb_enc_submessage. */
  method EncodeScalar(s: OStream, f: Field, v: Value) returns (ok: bool)
    requires s.Valid() && RepresentableValue(f, v) && !f.ltype.LSubmessage?
    modifies s, s.buf
    ensures s.Emitted(old(s.out), EncVal(f, v), ok) && s.Kept(old(s.Mem()), old(s.state))
  {
    hide EncVarint, Le;
    match f.ltype {
      case LBool =>
        if !v.VBool? { return false; }
        ok := EncodeVarint(s, if v.raw != 0 then 1 else 0);
      case LVarint =>
        if !v.VInt? || !FitsSigned(v.n, f.dataSize) { return false; }
        ok := EncodeVarint(s, U64(v.n));
      case LUvarint =>
        if !v.VInt? || !FitsUnsigned(v.n, f.dataSize) { return false; }
        ok := EncodeVarint(s, v.n);
      case LSvarint =>
        if !v.VInt? || !FitsSigned(v.n, f.dataSize) { return false; }
        ok := EncodeSvarint(s, v.n);
      case LFixed32 =>
        if !v.VInt? || !(0 <= v.n < TWO_32) { return false; }
        ok := EncodeFixed32(s, v.n);
      case LFixed64 =>
        if !v.VInt? || !(0 <= v.n < TWO_64) { return false; }
        ok := EncodeFixed64(s, v.n);
      case LBytes =>
        if !v.VBytes? || |v.bytes| > f.dataSize - SIZE_BYTES { return false; }
        ok := EncodeString(s, v.bytes);
      case LString =>
        if !v.VString? || |v.mem| > f.dataSize || (|CStr(v.mem)| == |v.mem| && |v.mem| != f.dataSize) { return false; }
        var size := StringLength(v.mem, f.dataSize);
        ok := EncodeString(s, v.mem[..size]);
      case LFixedLengthBytes =>
        if !v.VBytes? || |v.bytes| != f.dataSize { return false; }
        ok := EncodeString(s, v.bytes);
    }
  }

  /** The encoder of a field's type. `runs` counts the runs of the watched scalar's encoder. */
  method EncodeValue(s: OStream, f: Field, v: Value, ghost w: Watch) returns (ok: bool, ghost runs: nat)
    requires s.Valid() && RepresentableValue(f, v)
    modifies s, s.buf
    ensures s.Emitted(old(s.out), EncVal(f, v), ok) && s.Kept(old(s.Mem()), old(s.state))
    ensures ok ==> runs == ValueRuns(w, f, v, s.buf == null)
    decreases f, 0
  {
    hide Runs, Hit, EncString, EncVarint;
    runs := 0;
    if f.ltype.LSubmessage? {
      if !v.VMsg? {
        return false, 0;
      }
      ok, runs := EncodeSubmessage(s, f.ltype.ptr, v.msg, w);
    } else {
      ok := EncodeScalar(s, f, v);
      runs := Hit(w, f, v);
    }
  }

  /**
    pb_encode_submessage: the size is found with a sizing stream, then the same fields are written
    through a substream of exactly that size. The two passes agree, so "submsg size changed" is
    never reported.
   */
  method EncodeSubmessage(s: OStream, fields: seq<Field>, m: Msg, ghost w: Watch) returns (ok: bool, ghost runs: nat)
    requires s.Valid() && Representable(fields, m)
    requires Enc(fields, m).Some? ==> |Enc(fields, m).value| < TWO_64
    modifies s, s.buf
    ensures s.Emitted(old(s.out), Framing.EncDelimited(fields, m), ok) && s.Kept(old(s.Mem()), old(s.state))
    ensures ok ==> runs == Runs(w, fields, m, true) + (if s.buf == null then 0 else Runs(w, fields, m, false))
    decreases fields, 5
  {
    hide Enc, Representable, EncVarint, Runs;
    var sizing := new OStream.Sizing();
    ok, runs := PbEncode(sizing, fields, m, w);
    if !ok {
      return;
    }
    var size := sizing.bytesWritten;
    ok := EncodeVarint(s, size);
    if !ok {
      return;
    }
    ghost var body := Enc(fields, m).value;
    assert old(s.out) + EncVarint(size) + body == old(s.out) + (EncVarint(size) + body);
    if s.buf == null {
      s.Count(size, body);
      return true, runs;
    }
    if s.bytesWritten + size > s.maxSize {
      return false, runs;
    }
    ghost var more: nat;
    ok, more := EncodeThrough(s, fields, m, size, w);
    runs := runs + more;
  }

  /** The writing pass: a substream limited to the size found, then handed back to its parent. */
  method EncodeThrough(s: OStream, fields: seq<Field>, m: Msg, size: nat, ghost w: Watch) returns (ok: bool, ghost runs: nat)
    requires s.Valid() && Representable(fields, m) && s.buf != null
    requires Enc(fields, m).Some? && size == |Enc(fields, m).value| && s.bytesWritten + size <= s.maxSize
    modifies s, s.buf
    ensures ok && s.Emitted(old(s.out), Enc(fields, m), ok) && s.Kept(old(s.Mem()), old(s.state))
    ensures runs == Runs(w, fields, m, false)
    decreases fields, 4
  {
    hide Enc, Representable, Runs;
    ghost var before := s.out;
    var sub := new OStream.FromBuffer(s.buf, s.state, size);
    var status;
    status, runs := PbEncode(sub, fields, m, w);
    s.bytesWritten := s.bytesWritten + sub.bytesWritten;
    s.state := sub.state;
    s.out := s.out + sub.out;
    assert status && sub.bytesWritten == size;
    ok := status && sub.bytesWritten == size;
    assert s.buf[s.start..s.state] == before + sub.out;
  }

  /** A value with its tag. */
  method EncodeTagged(s: OStream, f: Field, v: Value, ghost w: Watch) returns (ok: bool, ghost runs: nat)
    requires s.Valid() && RepresentableValue(f, v)
    modifies s, s.buf
    ensures s.Emitted(old(s.out), EncItem(f, v), ok) && s.Kept(old(s.Mem()), old(s.state))
    ensures ok ==> runs == ValueRuns(w, f, v, s.buf == null)
    decreases f, 1
  {
    hide EncVal, EncTag, WireType, ValueRuns;
    runs := 0;
    ok := EncodeTagForField(s, f);
    if !ok {
      return;
    }
    ok, runs := EncodeValue(s, f, v, w);
    if ok {
      var t, d := EncTag(WireType(f.ltype), f.tag), EncVal(f, v).value;
      assert old(s.out) + t + d == old(s.out) + (t + d);
    }
  }

  /** The unpacked branch of encode_array: each item with its own tag. */
  method EncodeUnpacked(s: OStream, f: Field, items: seq<Value>, ghost w: Watch) returns (ok: bool, ghost runs: nat)
    requires s.Valid() && forall i :: 0 <= i < |items| ==> RepresentableValue(f, items[i])
    modifies s, s.buf
    ensures s.Emitted(old(s.out), EncItems(f, items), ok) && s.Kept(old(s.Mem()), old(s.state))
    ensures ok ==> runs == ItemsRuns(w, f, items, s.buf == null)
    decreases f, 2
  {
    hide EncItem, RepresentableValue, ValueRuns;
    ghost var before := s.out;
    ghost var done: seq<byte> := [];
    ghost var whole := EncItems(f, items);
    assert items[0..] == items;
    runs := 0;
    PrependNothing(whole);
    for i := 0 to |items|
      invariant s.Valid() && s.Kept(old(s.Mem()), old(s.state))
      invariant s.out == before + done && s.Fits(|s.out|)
      invariant whole == Prepend(done, EncItems(f, items[i..]))
      invariant runs + ItemsRuns(w, f, items[i..], s.buf == null) == ItemsRuns(w, f, items, s.buf == null)
    {
      assert items[i..][0] == items[i] && items[i..][1..] == items[i + 1..];
      ghost var more: nat;
      ok, more := EncodeTagged(s, f, items[i], w);
      runs := runs + more;
      if !ok {
        return;
      }
      ghost var first := EncItem(f, items[i]).value;
      PrependStep(done, first, EncItems(f, items[i + 1..]));
      assert before + done + first == before + (done + first);
      done := done + first;
    }
    assert items[|items|..] == [];
    return true, runs;
  }

  /** `enc` after `done`. */
  ghost function Prepend(done: seq<byte>, enc: Option<seq<byte>>): Option<seq<byte>> {
    var e :- enc;
    Some(done + e)
  }

  lemma PrependNothing(enc: Option<seq<byte>>)
    ensures Prepend([], enc) == enc
  {
    if enc.Some? {
      assert [] + enc.value == enc.value;
    }
  }

  lemma PrependStep(done: seq<byte>, first: seq<byte>, others: Option<seq<byte>>)
    ensures Prepend(done, Prepend(first, others)) == Prepend(done + first, others)
  {
    if others.Some? {
      assert done + (first + others.value) == (done + first) + others.value;
    }
  }

  /** The items of a packed array, without tags. */
  method EncodePayload(s: OStream, f: Field, items: seq<Value>, ghost w: Watch) returns (ok: bool, ghost runs: nat)
    requires s.Valid() && forall i :: 0 <= i < |items| ==> RepresentableValue(f, items[i])
    modifies s, s.buf
    ensures s.Emitted(old(s.out), EncPayload(f, items), ok) && s.Kept(old(s.Mem()), old(s.state))
    ensures ok ==> runs == ItemsRuns(w, f, items, s.buf == null)
    decreases f, 2
  {
    hide EncVal, RepresentableValue, ValueRuns;
    ghost var before := s.out;
    ghost var done: seq<byte> := [];
    ghost var whole := EncPayload(f, items);
    assert items[0..] == items;
    runs := 0;
    PrependNothing(whole);
    for i := 0 to |items|
      invariant s.Valid() && s.Kept(old(s.Mem()), old(s.state))
      invariant s.out == before + done && s.Fits(|s.out|)
      invariant whole == Prepend(done, EncPayload(f, items[i..]))
      invariant runs + ItemsRuns(w, f, items[i..], s.buf == null) == ItemsRuns(w, f, items, s.buf == null)
    {
      assert items[i..][0] == items[i] && items[i..][1..] == items[i + 1..];
      ghost var more: nat;
      ok, more := EncodeValue(s, f, items[i], w);
      runs := runs + more;
      if !ok {
        return;
      }
      ghost var first := EncVal(f, items[i]).value;
      PrependStep(done, first, EncPayload(f, items[i + 1..]));
      assert before + done + first == before + (done + first);
      done := done + first;
    }
    assert items[|items|..] == [];
    return true, runs;
  }

  lemma EncHead(fields: seq<Field>, m: Msg, i: nat)
    requires i < |fields|
    ensures Enc(fields[i..], m)
         == if EncField(fields[i], m).None? then None else Prepend(EncField(fields[i], m).value, Enc(fields[i + 1..], m))
  {
    assert fields[i..][0] == fields[i] && fields[i..][1..] == fields[i + 1..];
  }

  lemma EncNone(m: Msg)
    ensures Enc([], m) == Some([])
  {
  }

  lemma RunsHead(w: Watch, fields: seq<Field>, m: Msg, i: nat, sizing: bool)
    requires i < |fields|
    ensures Runs(w, fields[i..], m, sizing) == FieldRuns(w, fields[i], m, sizing) + Runs(w, fields[i + 1..], m, sizing)
  {
    hide FieldRuns;
    assert fields[i..][0] == fields[i] && fields[i..][1..] == fields[i + 1..];
  }

  lemma RunsNone(w: Watch, m: Msg, sizing: bool)
    ensures Runs(w, [], m, sizing) == 0
  {
  }

  lemma NoItemsRun(w: Watch, f: Field, items: seq<Value>)
    requires |items| == 0
    ensures forall sizing :: ItemsRuns(w, f, items, sizing) == 0
  {
  }

  /** pb_encode. */
  method PbEncode(s: OStream, fields: seq<Field>, m: Msg, ghost w: Watch) returns (ok: bool, ghost runs: nat)
    requires s.Valid() && Representable(fields, m)
    modifies s, s.buf
    ensures s.Emitted(old(s.out), Enc(fields, m), ok) && s.Kept(old(s.Mem()), old(s.state))
    ensures ok ==> runs == Runs(w, fields, m, s.buf == null)
    decreases fields, 3
  {
    hide EncField, RepresentableSlot, Enc, FieldRuns, Runs;
    ghost var before := s.out;
    ghost var done: seq<byte> := [];
    ghost var whole := Enc(fields, m);
    assert fields[0..] == fields;
    runs := 0;
    PrependNothing(whole);
    for i := 0 to |fields|
      invariant s.Valid() && s.Kept(old(s.Mem()), old(s.state))
      invariant s.out == before + done && s.Fits(|s.out|)
      invariant whole == Prepend(done, Enc(fields[i..], m))
      invariant runs + Runs(w, fields[i..], m, s.buf == null) == Runs(w, fields, m, s.buf == null)
    {
      EncHead(fields, m, i);
      RunsHead(w, fields, m, i, s.buf == null);
      ghost var more: nat;
      ok, more := EncodeBasicField(s, fields[i], m, w);
      runs := runs + more;
      if !ok {
        return;
      }
      ghost var first := EncField(fields[i], m).value;
      PrependStep(done, first, Enc(fields[i + 1..], m));
      assert before + done + first == before + (done + first);
      done := done + first;
    }
    assert fields[|fields|..] == [];
    EncNone(m);
    RunsNone(w, m, s.buf == null);
    return true, runs;
  }

  /** encode_basic_field. */
  method EncodeBasicField(s: OStream, f: Field, m: Msg, ghost w: Watch) returns (ok: bool, ghost runs: nat)
    requires s.Valid() && (f.slot in m ==> RepresentableSlot(f, m[f.slot]))
    modifies s, s.buf
    ensures s.Emitted(old(s.out), EncField(f, m), ok) && s.Kept(old(s.Mem()), old(s.state))
    ensures ok ==> runs == FieldRuns(w, f, m, s.buf == null)
    decreases f, 6
  {
    hide EncItem, EncArray, RepresentableValue, ValueIsDefault, EncPayload, ValueRuns, ArrayRuns;
    runs := 0;
    if f.slot !in m {
      return false, 0;
    }
    match (f.htype, m[f.slot]) {
      case (Required, One(v)) => ok, runs := EncodeTagged(s, f, v, w);
      case (Singular, One(v)) =>
        if ValueIsDefault(f, v) {
          ok := Nothing(s);
        } else {
          ok, runs := EncodeTagged(s, f, v, w);
        }
      case (Optional, Opt(has, v)) =>
        if has == 0 {
          ok := Nothing(s);
        } else {
          ok, runs := EncodeTagged(s, f, v, w);
        }
      case (Repeated, Rep(items)) => ok, runs := EncodeArray(s, f, items, w);
      case (FixedCount, Fix(items)) =>
        if |items| != f.arraySize {
          return false, 0;
        }
        ok, runs := EncodeArray(s, f, items, w);
      case (Oneof, Union(which, v)) =>
        if which == f.tag {
          ok, runs := EncodeTagged(s, f, v, w);
        } else {
          ok := Nothing(s);
        }
      case _ => return false, 0;
    }
  }

  /** An absent field. */
  method Nothing(s: OStream) returns (ok: bool)
    requires s.Valid()
    ensures s.Emitted(s.out, Some([]), ok)
  {
    assert s.out + [] == s.out;
    return true;
  }

  lemma {:induction false} FixedPayload(f: Field, items: seq<Value>, width: nat)
    requires (f.ltype.LFixed32? && width == 4) || (f.ltype.LFixed64? && width == 8)
    requires forall i :: 0 <= i < |items| ==> RepresentableValue(f, items[i])
    ensures EncPayload(f, items).Some? && |EncPayload(f, items).value| == width * |items|
    decreases |items|
  {
    hide Le;
    if |items| > 0 {
      FixedPayload(f, items[1..], width);
    }
  }

  /** The size of a packed array: by multiplication for fixed-width items, else with a sizing stream. */
  method PackedSize(f: Field, items: seq<Value>, ghost w: Watch) returns (ok: bool, size: nat, ghost runs: nat)
    requires Packable(f.ltype) && forall i :: 0 <= i < |items| ==> RepresentableValue(f, items[i])
    ensures ok == EncPayload(f, items).Some?
    ensures ok ==> size == |EncPayload(f, items).value|
    ensures ok ==> runs == if FixedWidth(f) then 0 else ItemsRuns(w, f, items, true)
    decreases f, 3
  {
    hide EncVal, EncPayload, RepresentableValue, ItemsRuns;
    if f.ltype.LFixed32? {
      FixedPayload(f, items, 4);
      return true, 4 * |items|, 0;
    } else if f.ltype.LFixed64? {
      FixedPayload(f, items, 8);
      return true, 8 * |items|, 0;
    }
    var sizing := new OStream.Sizing();
    ok, runs := EncodePayload(sizing, f, items, w);
    size := sizing.bytesWritten;
    if ok {
      assert [] + EncPayload(f, items).value == EncPayload(f, items).value;
    }
  }

  /** The packed branch of encode_array, after the tag. */
  method EncodePacked(s: OStream, f: Field, items: seq<Value>, ghost w: Watch) returns (ok: bool, ghost runs: nat)
    requires s.Valid() && Packable(f.ltype) && RepresentableSlot(f, Rep(items))
    modifies s, s.buf
    ensures s.Emitted(old(s.out), PackedData(f, items), ok) && s.Kept(old(s.Mem()), old(s.state))
    ensures ok ==> runs == ArrayRuns(w, f, items, s.buf == null)
    decreases f, 4
  {
    hide EncVal, EncPayload, RepresentableValue, EncVarint, ItemsRuns;
    var size;
    ok, size, runs := PackedSize(f, items, w);
    if !ok {
      return;
    }
    ghost var payload := EncPayload(f, items).value;
    ok := EncodeVarint(s, size);
    if !ok {
      return;
    }
    assert old(s.out) + EncVarint(size) + payload == old(s.out) + (EncVarint(size) + payload);
    if s.buf == null {
      s.Count(size, payload);
      return;
    }
    ghost var more: nat;
    ok, more := EncodePayload(s, f, items, w);
    runs := runs + more;
  }

  ghost function PackedData(f: Field, items: seq<Value>): Option<seq<byte>> {
    var payload :- EncPayload(f, items);
    Some(EncString(payload))
  }

  /** encode_array. */
  method EncodeArray(s: OStream, f: Field, items: seq<Value>, ghost w: Watch) returns (ok: bool, ghost runs: nat)
    requires s.Valid() && RepresentableSlot(f, Rep(items))
    modifies s, s.buf
    ensures s.Emitted(old(s.out), EncArray(f, items), ok) && s.Kept(old(s.Mem()), old(s.state))
    ensures ok ==> runs == ArrayRuns(w, f, items, s.buf == null)
    decreases f, 5
  {
    hide ItemsRuns, EncVal, EncPayload, RepresentableValue, EncString, EncTag, EncItems;
    runs := 0;
    if |items| == 0 {
      NoItemsRun(w, f, items);
      ok := Nothing(s);
      return;
    }
    if |items| > f.arraySize {
      return false, 0;
    }
    if Packable(f.ltype) {
      ok := EncodeTag(s, WT_STRING, f.tag);
      if !ok {
        return;
      }
      ok, runs := EncodePacked(s, f, items, w);
      if ok {
        var t, d := EncTag(WT_STRING, f.tag), PackedData(f, items).value;
        assert old(s.out) + t + d == old(s.out) + (t + d);
      }
    } else {
      ok, runs := EncodeUnpacked(s, f, items, w);
    }
  }

  // ---------------------------------------------------------------- entry points

  /** The watch of callers that count nothing. */
  const NO_FIELD := Field(0, LBool, Required, 0, 0, 0, None, Layout(0, 0, false))

  /** pb_get_encoded_size: the number of bytes pb_encode writes, exactly. */
  method GetEncodedSize(fields: seq<Field>, m: Msg, ghost w: Watch) returns (ok: bool, size: nat, ghost runs: nat)
    requires Representable(fields, m)
    ensures ok == Enc(fields, m).Some?
    ensures ok ==> size == |Enc(fields, m).value| && runs == Runs(w, fields, m, true)
  {
    hide Enc, Representable, Runs, Weight;
    var s := new OStream.Sizing();
    ok, runs := PbEncode(s, fields, m, w);
    size := s.bytesWritten;
    if ok {
      assert [] + Enc(fields, m).value == Enc(fields, m).value;
    }
  }

  /**
    Encoding into a buffer: it succeeds exactly when the encoding exists and fits, and touches nothing
    else. Then the encoder of a scalar at submessage depth d has run d + 1 times.
   */
  method EncodeToBuffer(a: array<byte>, fields: seq<Field>, m: Msg, ghost w: Watch) returns (ok: bool, written: nat, ghost runs: nat)
    requires Representable(fields, m)
    modifies a
    ensures ok <==> Enc(fields, m).Some? && |Enc(fields, m).value| <= a.Length
    ensures ok ==> written == |Enc(fields, m).value| <= a.Length
    ensures ok ==> a[..written] == Enc(fields, m).value && a[written..] == old(a[written..])
    ensures ok ==> runs == Weight(w, fields, m, 1)
  {
    hide Enc, Representable, Runs, Weight;
    var s := new OStream.FromBuffer(a, 0, a.Length);
    ok, runs := PbEncode(s, fields, m, w);
    RunsWeigh(w, fields, m, 1);
    written := s.bytesWritten;
    if ok {
      assert [] + Enc(fields, m).value == Enc(fields, m).value;
      assert a[0..s.state] == a[..written];
    }
  }

  /** pb_encode_delimited. */
  method EncodeDelimited(s: OStream, fields: seq<Field>, m: Msg) returns (ok: bool)
    requires s.Valid() && Representable(fields, m)
    requires Enc(fields, m).Some? ==> |Enc(fields, m).value| < TWO_64
    modifies s, s.buf
    ensures s.Emitted(old(s.out), Framing.EncDelimited(fields, m), ok) && s.Kept(old(s.Mem()), old(s.state))
  {
    ghost var w := Watch(NO_FIELD, VNone);
    ghost var runs: nat;
    ok, runs := EncodeSubmessage(s, fields, m, w);
  }

  /** pb_encode_nullterminated. */
  method EncodeNullTerminated(s: OStream, fields: seq<Field>, m: Msg) returns (ok: bool)
    requires s.Valid() && Representable(fields, m)
    modifies s, s.buf
    ensures s.Emitted(old(s.out), Framing.EncNullTerminated(fields, m), ok) && s.Kept(old(s.Mem()), old(s.state))
  {
    hide Enc, Representable, Runs, Weight;
    ghost var w := Watch(NO_FIELD, VNone);
    ghost var runs: nat;
    ok, runs := PbEncode(s, fields, m, w);
    if !ok {
      return;
    }
    var zero: byte := 0;
    ok := s.Write([zero]);
    assert old(s.out) + Enc(fields, m).value + [zero] == old(s.out) + (Enc(fields, m).value + [zero]);
  }
}
