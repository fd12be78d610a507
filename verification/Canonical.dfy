/**
  Re-encoding is canonical. Whatever bytes a message arrived in (padded varints, any field
  order, repeated or unknown fields, packed or unpacked arrays), the decoded struct encodes
  without error, and decoding and encoding that again gives the same bytes.
 */
module Canonical {
  import opened Bytes
  import opened Varint
  import opened Wire
  import opened Message
  import opened EncodeSpec
  import opened DecodeSpec
  import opened Normal
  import opened ScalarTrip
  import opened RoundTrip
  import Unreadable
  import Framing

  // ---------------------------------------------------------------- what a decoded struct satisfies

  /** A value its field can hold: in range, within capacity, strings terminated. */
  predicate GoodVal(f: Field, v: Value)
    decreases f, 0
  {
    if f.ltype.LSubmessage? then v.VMsg? && Good(f.ltype.ptr, v.msg)
    else EncVal(f, v).Some? && (f.ltype.LString? ==> |CStr(v.mem)| < f.dataSize)
  }

  predicate GoodSlot(fields: seq<Field>, f: Field, s: Slot)
    requires f in fields
    decreases fields, 0
  {
    match (f.htype, s)
    case (Required, One(v)) => GoodVal(f, v)
    case (Singular, One(v)) => GoodVal(f, v)
    case (Optional, Opt(_, v)) => GoodVal(f, v)
    case (Repeated, Rep(items)) => |items| <= f.arraySize && forall i :: 0 <= i < |items| ==> GoodVal(f, items[i])
    case (Oneof, Union(which, v)) =>
      which == 0 ||
      (match Find(fields, which)
       case Some(g) => g.htype.Oneof? && g.slot == f.slot && GoodVal(g, v)
       case None => false)
    case _ => false
  }

  predicate Good(fields: seq<Field>, m: Msg)
    decreases fields, 1
  {
    forall i :: 0 <= i < |fields| ==> fields[i].slot in m && GoodSlot(fields, fields[i], m[fields[i].slot])
  }

  /**
    Descriptors in scope: no fixed-count arrays, defaults of their field's type, and proto3
    defaults (fields without a has-flag) equal to zero.
   */
  predicate Plain(fields: seq<Field>)
    decreases fields, 1
  {
    forall i :: 0 <= i < |fields| ==> PlainField(fields[i])
  }

  predicate PlainField(f: Field)
    decreases f, 0
  {
    && !f.htype.FixedCount?
    && if f.ltype.LSubmessage? then Plain(f.ltype.ptr)
       else
         && GoodVal(f, InitValue(f))
         && (f.htype.Singular? && !f.ltype.LFixedLengthBytes? ==> ValueIsDefault(f, InitValue(f)))
  }

  lemma GoodAt(fields: seq<Field>, m: Msg, f: Field)
    requires Good(fields, m) && f in fields
    ensures f.slot in m && GoodSlot(fields, f, m[f.slot])
  {
    var i :| 0 <= i < |fields| && fields[i] == f;
  }

  lemma MemberFacts(fields: seq<Field>, f: Field)
    requires WfFields(fields) && Plain(fields) && f in fields
    ensures WfField(f) && PlainField(f) && Find(fields, f.tag) == Some(f) && 1 <= f.tag < 0x2000_0000
  {
    FindUnique(fields, f);
    var i :| 0 <= i < |fields| && fields[i] == f;
    WfAt(fields, i);
  }

  lemma {:induction false} DefaultsGood(fields: seq<Field>)
    requires WfFields(fields) && Plain(fields)
    ensures Good(fields, Defaults(fields))
    decreases fields, 1
  {
    hide Defaults, GoodVal, PlainField, InitValue, WfField;
    forall i | 0 <= i < |fields|
      ensures fields[i].slot in Defaults(fields) && GoodSlot(fields, fields[i], Defaults(fields)[fields[i].slot])
    {
      DefaultsAt(fields, i);
      MemberFacts(fields, fields[i]);
      InitGood(fields[i]);
    }
  }

  lemma {:induction false} InitGood(f: Field)
    requires WfField(f) && PlainField(f)
    ensures GoodVal(f, InitValue(f)) && !f.htype.FixedCount?
    decreases f, 0
  {
    if f.ltype.LSubmessage? {
      DefaultsGood(f.ltype.ptr);
    }
  }

  // ---------------------------------------------------------------- decoding keeps it

  lemma SignedFits(x: int, size: nat)
    requires IntSize(size) && CastSigned(x, size) == x
    ensures FitsSigned(x, size)
  {
  }

  lemma UnsignedFits(x: int, size: nat)
    requires IntSize(size) && CastUnsigned(x, size) == x
    ensures FitsUnsigned(x, size)
  {
  }

  lemma Terminated(data: seq<byte>)
    ensures |CStr(data + [0])| < |data + [0]|
  {
    var mem := data + [0];
    assert mem[|data|] == 0;
    assert CStr(mem) == mem[..|CStr(mem)|] && mem[..|mem|] == mem;
  }

  lemma ScalarGood(f: Field, bs: seq<byte>)
    requires !f.ltype.LSubmessage? && WfField(f) && DecScalar(f, bs).Ok?
    ensures GoodVal(f, DecScalar(f, bs).val)
  {
    hide DecVarint32, DecVarint64, CastSigned, CastUnsigned, S32, FromLe, Zeros, UnZigZag, CStr, EncVarint, Le, EncString,
      FitsSigned, FitsUnsigned, Take, Shl, ZigZag;
    match f.ltype
    case LVarint => SignedFits(DecScalar(f, bs).val.n, f.dataSize);
    case LUvarint => UnsignedFits(DecScalar(f, bs).val.n, f.dataSize);
    case LSvarint => SignedFits(DecScalar(f, bs).val.n, f.dataSize);
    case LString =>
      var data := Take(DecVarint32(bs).rest, DecVarint32(bs).val).val;
      Terminated(data);
    case LFixed32 => Shl32(1);
    case LFixed64 => Shl64(1);
    case _ =>
  }

  lemma {:induction false} PackedGood(f: Field, bs: seq<byte>, room: nat)
    requires !f.ltype.LSubmessage? && WfField(f) && DecPacked(f, bs, room).Some?
    ensures forall i :: 0 <= i < |DecPacked(f, bs, room).value| ==> GoodVal(f, DecPacked(f, bs, room).value[i])
    decreases |bs|
  {
    hide DecScalar, GoodVal, WfField;
    if |bs| > 0 {
      ScalarGood(f, bs);
      PackedGood(f, DecScalar(f, bs).rest, room - 1);
    }
  }

  lemma {:induction false} ValueGood(f: Field, bs: seq<byte>, prev: Value)
    requires WfField(f) && PlainField(f) && DecVal(f, bs, prev).Ok?
    requires f.ltype.LSubmessage? && prev.VMsg? ==> Good(f.ltype.ptr, prev.msg)
    ensures GoodVal(f, DecVal(f, bs, prev).val)
    decreases |bs|, 0
  {
    hide DecScalar, DecString, Defaults, Good, Run, Finished;
    if f.ltype.LSubmessage? {
      var base := if prev.VMsg? then prev.msg else Defaults(f.ltype.ptr);
      DefaultsGood(f.ltype.ptr);
      RunGood(f.ltype.ptr, DecString(bs).val, State(base, {}, None));
    } else {
      ScalarGood(f, bs);
    }
  }

  lemma {:induction false} ItemsGood(f: Field, wt: nat, bs: seq<byte>, count: nat)
    requires WfField(f) && PlainField(f) && DecItems(f, wt, bs, count).Ok?
    ensures forall i :: 0 <= i < |DecItems(f, wt, bs, count).val| ==> GoodVal(f, DecItems(f, wt, bs, count).val[i])
    decreases |bs|, 1
  {
    hide DecString, GoodVal, WfField, PlainField, DecVal, DecPacked;
    if wt == WT_STRING && Packable(f.ltype) {
      PackedGood(f, DecString(bs).val, if count <= Capacity(f) then Capacity(f) - count else 0);
    } else {
      ValueGood(f, bs, VNone);
    }
  }

  /** Storing a good slot for one field keeps the struct good. */
  lemma StoreGood(fields: seq<Field>, m: Msg, f: Field, s: Slot)
    requires WfFields(fields) && Plain(fields) && Good(fields, m) && f in fields && GoodSlot(fields, f, s)
    requires f.htype.Oneof? ==> s.Union? && (s.which == f.tag || s == m[f.slot])
    ensures Good(fields, m[f.slot := s])
  {
    hide GoodVal, WfField, PlainField;
    MemberFacts(fields, f);
    forall i | 0 <= i < |fields|
      ensures fields[i].slot in m[f.slot := s] && GoodSlot(fields, fields[i], m[f.slot := s][fields[i].slot])
    {
      GoodAt(fields, m, fields[i]);
      var j :| 0 <= j < |fields| && fields[j] == f;
      if i != j && fields[i].slot == f.slot {
        assert fields[i].htype.Oneof? && f.htype.Oneof?;
      }
    }
  }

  lemma {:induction false} FieldGood(fields: seq<Field>, f: Field, wt: nat, bs: seq<byte>, st: State)
    requires WfFields(fields) && Plain(fields) && Good(fields, st.m) && f in fields
    requires DecField(fields, f, wt, bs, st).Ok?
    ensures Good(fields, DecField(fields, f, wt, bs, st).val.m)
    decreases |bs|, 2
  {
    hide GoodVal, WfFields, Plain, Good, DecVal, DecItems, WfField, PlainField;
    MemberFacts(fields, f);
    NotFixed(f);
    GoodAt(fields, st.m, f);
    match (f.htype, st.m[f.slot])
    case (Required, One(v)) =>
      KeepsPrev(f, v);
      ValueGood(f, bs, v);
      StoreGood(fields, st.m, f, One(DecVal(f, bs, v).val));
    case (Singular, One(v)) =>
      KeepsPrev(f, v);
      ValueGood(f, bs, v);
      StoreGood(fields, st.m, f, One(DecVal(f, bs, v).val));
    case (Optional, Opt(_, v)) =>
      KeepsPrev(f, v);
      ValueGood(f, bs, v);
      StoreGood(fields, st.m, f, Opt(1, DecVal(f, bs, v).val));
    case (Repeated, Rep(items)) =>
      ItemsGood(f, wt, bs, |items|);
      StoreGood(fields, st.m, f, Rep(items + DecItems(f, wt, bs, |items|).val));
    case (Oneof, Union(which, v)) =>
      var prev := if which == f.tag then v else VNone;
      if which == f.tag {
        KeepsPrev(f, v);
      }
      ValueGood(f, bs, prev);
      StoreGood(fields, st.m, f, Union(f.tag, DecVal(f, bs, prev).val));
  }

  lemma NotFixed(f: Field)
    requires PlainField(f)
    ensures !f.htype.FixedCount?
  {
  }

  lemma KeepsPrev(f: Field, v: Value)
    requires GoodVal(f, v)
    ensures f.ltype.LSubmessage? && v.VMsg? ==> Good(f.ltype.ptr, v.msg)
  {
  }

  lemma {:induction false} StepGood(fields: seq<Field>, tag: nat, wt: nat, bs: seq<byte>, st: State)
    requires WfFields(fields) && Plain(fields) && Good(fields, st.m) && Step(fields, tag, wt, bs, st).Ok?
    ensures Good(fields, Step(fields, tag, wt, bs, st).val.m)
    decreases |bs|, 3
  {
    hide WfFields, Plain, Good, DecField, SkipField, DecVarint32;
    match Find(fields, tag)
    case None =>
    case Some(f) => FieldGood(fields, f, wt, bs, Enter(f, st).value);
  }

  lemma {:induction false} RunGood(fields: seq<Field>, bs: seq<byte>, st: State)
    requires WfFields(fields) && Plain(fields) && Good(fields, st.m) && Run(fields, bs, st).Ok?
    ensures Good(fields, Run(fields, bs, st).val.m)
    decreases |bs|, 4
  {
    hide WfFields, Plain, Good, Step, DecTag;
    var t := DecTag(bs);
    if t.Tag? {
      StepGood(fields, t.tag, t.wt, t.after, st);
      var next := Step(fields, t.tag, t.wt, t.after, st);
      RunGood(fields, next.rest, next.val);
    }
  }

  // ---------------------------------------------------------------- it encodes

  lemma {:induction false} GoodEncodes(fields: seq<Field>, m: Msg)
    requires WfFields(fields) && Plain(fields) && Good(fields, m)
    ensures Enc(fields, m).Some?
    decreases fields, 3
  {
    hide EncField, GoodVal, WfField, PlainField, GoodSlot;
    forall i | 0 <= i < |fields|
      ensures EncField(fields[i], m).Some?
    {
      FieldEncodes(fields, m, fields[i]);
    }
    AllEncode(fields, m);
  }

  lemma {:induction false} AllEncode(fields: seq<Field>, m: Msg)
    requires forall i :: 0 <= i < |fields| ==> EncField(fields[i], m).Some?
    ensures Enc(fields, m).Some?
  {
    hide EncField;
    if |fields| > 0 {
      AllEncode(fields[1..], m);
    }
  }

  lemma {:induction false} FieldEncodes(fields: seq<Field>, m: Msg, f: Field)
    requires WfFields(fields) && Plain(fields) && Good(fields, m) && f in fields
    ensures EncField(f, m).Some?
    decreases fields, 2
  {
    hide GoodVal, WfFields, Plain, Good, EncVal, ValueIsDefault, WfField, PlainField;
    MemberFacts(fields, f);
    GoodAt(fields, m, f);
    match (f.htype, m[f.slot])
    case (Required, One(v)) => ValueEncodes(f, v);
    case (Singular, One(v)) => ValueEncodes(f, v);
    case (Optional, Opt(_, v)) => ValueEncodes(f, v);
    case (Repeated, Rep(items)) =>
      forall i | 0 <= i < |items|
        ensures EncVal(f, items[i]).Some?
      {
        ValueEncodes(f, items[i]);
      }
      ItemsAllEncode(f, items);
    case (Oneof, Union(which, v)) =>
      if which == f.tag {
        ValueEncodes(f, v);
      }
  }

  lemma {:induction false} ItemsAllEncode(f: Field, items: seq<Value>)
    requires forall i :: 0 <= i < |items| ==> EncVal(f, items[i]).Some?
    ensures EncItems(f, items).Some? && EncPayload(f, items).Some?
    decreases |items|
  {
    hide EncVal;
    if |items| > 0 {
      ItemsAllEncode(f, items[1..]);
    }
  }

  lemma {:induction false} ValueEncodes(f: Field, v: Value)
    requires WfField(f) && PlainField(f) && GoodVal(f, v)
    ensures EncVal(f, v).Some?
    decreases f, 1
  {
    if f.ltype.LSubmessage? {
      GoodEncodes(f.ltype.ptr, v.msg);
    }
  }

  // ---------------------------------------------------------------- it can be read back

  lemma {:induction false} GoodReadable(fields: seq<Field>, m: Msg)
    requires WfFields(fields) && Plain(fields) && Good(fields, m)
    requires Enc(fields, m).Some? && |Enc(fields, m).value| < TWO_32
    ensures Readable(fields, fields, m)
    decreases fields, 3
  {
    hide EncField, GoodVal, WfField, PlainField, GoodSlot, ReadableField, Enc;
    forall i | 0 <= i < |fields|
      ensures ReadableField(fields, fields[i], m)
    {
      EncAt(fields, m, i);
      Unreadable.EncShorter(fields, m, i);
      MemberFacts(fields, fields[i]);
      FieldReadable(fields, fields[i], m);
    }
  }

  lemma {:induction false} FieldReadable(fields: seq<Field>, f: Field, m: Msg)
    requires WfFields(fields) && Plain(fields) && Good(fields, m) && f in fields
    requires EncField(f, m).Some? && |EncField(f, m).value| < TWO_32
    ensures ReadableField(fields, f, m)
    decreases fields, 2
  {
    hide GoodVal, WfFields, Plain, Good, EncVal, ValueIsDefault, WfField, PlainField, EncField, Emitted, EncItems, EncPayload,
      Enc, ReadableValue, Readable;
    MemberFacts(fields, f);
    FieldForm(f, m);
    EmittedGood(fields, f, m);
    var items := Emitted(f, m[f.slot]);
    forall i | 0 <= i < |items|
      ensures ReadableValue(f, f, items[i])
      ensures f.ltype.LSubmessage? && items[i].VMsg? && Enc(f.ltype.ptr, items[i].msg).Some? ==>
        |Enc(f.ltype.ptr, items[i].msg).value| < TWO_32
    {
      Unreadable.EmittedShorter(f, m, i);
      ValueReadable(f, items[i]);
    }
    if IsArray(f) && Packable(f.ltype) && |items| > 0 {
      Unreadable.PayloadShorter(EncTag(WT_STRING, f.tag), EncPayload(f, items).value);
    } else if |items| == 0 {
      EmptyPayload(f, items);
    }
  }

  lemma EmptyPayload(f: Field, items: seq<Value>)
    requires |items| == 0
    ensures EncPayload(f, items) == Some([])
  {
  }

  lemma EmittedGood(fields: seq<Field>, f: Field, m: Msg)
    requires WfFields(fields) && Plain(fields) && Good(fields, m) && f in fields
    ensures f.slot in m
    ensures forall i :: 0 <= i < |Emitted(f, m[f.slot])| ==> GoodVal(f, Emitted(f, m[f.slot])[i])
  {
    hide GoodVal, WfFields, Plain, Good, ValueIsDefault, WfField, PlainField;
    MemberFacts(fields, f);
    GoodAt(fields, m, f);
  }

  lemma {:induction false} ValueReadable(f: Field, v: Value)
    requires WfField(f) && PlainField(f) && GoodVal(f, v) && EncVal(f, v).Some? && |EncVal(f, v).value| < TWO_32
    ensures ReadableValue(f, f, v)
    ensures f.ltype.LSubmessage? ==> v.VMsg? && Enc(f.ltype.ptr, v.msg).Some? && |Enc(f.ltype.ptr, v.msg).value| < TWO_32
    decreases f, 1
  {
    hide Good, Readable, Enc, CStr, EncString, WfFields, Plain;
    if f.ltype.LSubmessage? {
      SubmessageData(f, v);
      Unreadable.PayloadShorter([], Enc(f.ltype.ptr, v.msg).value);
      assert [] + EncString(Enc(f.ltype.ptr, v.msg).value) == EncString(Enc(f.ltype.ptr, v.msg).value);
      GoodReadable(f.ltype.ptr, v.msg);
    }
  }

  // ---------------------------------------------------------------- it re-encodes to the same bytes

  lemma CStrOfCStr(s: seq<byte>)
    requires 0 !in s
    ensures CStr(s + [0]) == s
    decreases |s|
  {
    if |s| > 0 {
      CStrOfCStr(s[1..]);
      assert (s + [0])[1..] == s[1..] + [0];
    } else {
      assert s + [0] == [0];
    }
  }

  /** Where a singular field may be absent, its default is absent too. */
  lemma {:induction false} InitAbsent(f: Field, v: Value)
    requires WfField(f) && PlainField(f) && f.htype.Singular? && ValueIsDefault(f, v)
    ensures ValueIsDefault(f, InitValue(f))
    decreases f, 0
  {
    if f.ltype.LSubmessage? {
      var ptr := f.ltype.ptr;
      hide ValueIsDefault, WfField, PlainField, InitValue;
      SubmessageDefault(f, v);
      SubmessagePlain(f);
      forall i | 0 <= i < |ptr|
        ensures ptr[i].slot in Defaults(ptr) && SlotIsDefault(ptr[i], Defaults(ptr)[ptr[i].slot])
      {
        DefaultsAt(ptr, i);
        MemberFacts(ptr, ptr[i]);
        InitSlotAbsent(ptr[i], v.msg[ptr[i].slot]);
      }
      AllDefault(f, InitValue(f));
    }
  }

  lemma SubmessagePlain(f: Field)
    requires WfField(f) && PlainField(f) && f.ltype.LSubmessage?
    ensures WfFields(f.ltype.ptr) && Plain(f.ltype.ptr) && InitValue(f) == VMsg(Defaults(f.ltype.ptr))
  {
  }

  lemma AllDefault(f: Field, v: Value)
    requires f.ltype.LSubmessage? && v.VMsg?
    requires forall i :: 0 <= i < |f.ltype.ptr| ==>
      f.ltype.ptr[i].slot in v.msg && SlotIsDefault(f.ltype.ptr[i], v.msg[f.ltype.ptr[i].slot])
    ensures ValueIsDefault(f, v)
  {
  }

  lemma {:induction false} InitSlotAbsent(f: Field, s: Slot)
    requires WfField(f) && PlainField(f) && SlotIsDefault(f, s)
    ensures SlotIsDefault(f, InitSlot(f))
    decreases f, 1
  {
    hide ValueIsDefault, WfField, PlainField, InitValue;
    if f.htype.Singular? {
      InitAbsent(f, s.v);
    }
  }

  /** Normalising keeps a value's presence. */
  lemma {:induction false} NormPresence(f: Field, v: Value)
    requires WfField(f) && PlainField(f) && GoodVal(f, v)
    ensures ValueIsDefault(f, NormVal(f, v)) == ValueIsDefault(f, v)
    decreases f, 0
  {
    match f.ltype
    case LSubmessage(ptr) =>
      hide ValueIsDefault, WfField, PlainField, InitValue, GoodVal;
      SubmessagePlain(f);
      SubmessageNorm(f, v);
      var n := NormMsg(ptr, v.msg);
      forall i | 0 <= i < |ptr|
        ensures ptr[i].slot in v.msg && ptr[i].slot in n
        ensures SlotIsDefault(ptr[i], n[ptr[i].slot]) == SlotIsDefault(ptr[i], v.msg[ptr[i].slot])
      {
        MemberFacts(ptr, ptr[i]);
        GoodAt(ptr, v.msg, ptr[i]);
        WantAt(ptr, ptr[i], v.msg, Tags(ptr));
        TagsHas(ptr, ptr[i]);
        SlotPresence(ptr, ptr[i], v.msg);
      }
      SameDefault(f, v.msg, n);
    case LString =>
      CStrOfCStr(CStr(v.mem));
    case _ =>
  }

  lemma SubmessageNorm(f: Field, v: Value)
    requires f.ltype.LSubmessage? && WfField(f) && GoodVal(f, v)
    ensures v.VMsg? && Good(f.ltype.ptr, v.msg) && NormVal(f, v) == VMsg(NormMsg(f.ltype.ptr, v.msg))
    ensures DistinctSlots(f.ltype.ptr)
    ensures NormMsg(f.ltype.ptr, v.msg) == Want(f.ltype.ptr, v.msg, Tags(f.ltype.ptr))
  {
  }

  lemma SameDefault(f: Field, a: Msg, b: Msg)
    requires f.ltype.LSubmessage?
    requires forall i :: 0 <= i < |f.ltype.ptr| ==>
      f.ltype.ptr[i].slot in a && f.ltype.ptr[i].slot in b
      && SlotIsDefault(f.ltype.ptr[i], b[f.ltype.ptr[i].slot]) == SlotIsDefault(f.ltype.ptr[i], a[f.ltype.ptr[i].slot])
    ensures ValueIsDefault(f, VMsg(b)) == ValueIsDefault(f, VMsg(a))
  {
  }

  lemma {:induction false} SlotPresence(fields: seq<Field>, f: Field, m: Msg)
    requires WfFields(fields) && Plain(fields) && f in fields && f.slot in m && GoodSlot(fields, f, m[f.slot])
    ensures SlotIsDefault(f, WantSlot(fields, f, m, Tags(fields))) == SlotIsDefault(f, m[f.slot])
    decreases f, 1
  {
    hide ValueIsDefault, WfField, PlainField, InitValue, GoodVal, WfFields, Plain, NormVal;
    MemberFacts(fields, f);
    TagsHas(fields, f);
    match (f.htype, m[f.slot])
    case (Singular, One(v)) =>
      NormPresence(f, v);
      if ValueIsDefault(f, v) {
        InitAbsent(f, v);
      }
    case (Oneof, Union(which, v)) =>
      if which != 0 {
        TagsHas(fields, Find(fields, which).value);
      } else if Find(fields, 0).Some? {
        MemberFacts(fields, Find(fields, 0).value);
      }
    case _ =>
  }

  /** A normalised value encodes to the same bytes. */
  lemma {:induction false} NormValueEnc(f: Field, v: Value)
    requires WfField(f) && PlainField(f) && GoodVal(f, v)
    ensures EncVal(f, NormVal(f, v)) == EncVal(f, v)
    decreases f, 0
  {
    match f.ltype
    case LSubmessage(ptr) =>
      hide Enc, NormMsg;
      NormEnc(ptr, v.msg);
    case LString =>
      CStrOfCStr(CStr(v.mem));
    case _ =>
  }

  lemma {:induction false} NormItemsEnc(f: Field, items: seq<Value>, norm: seq<Value>)
    requires |norm| == |items| && forall i :: 0 <= i < |items| ==> EncVal(f, norm[i]) == EncVal(f, items[i])
    ensures EncItems(f, norm) == EncItems(f, items) && EncPayload(f, norm) == EncPayload(f, items)
    decreases |items|
  {
    hide EncVal;
    if |items| > 0 {
      NormItemsEnc(f, items[1..], norm[1..]);
    }
  }

  lemma {:induction false} NormFieldEnc(fields: seq<Field>, f: Field, m: Msg)
    requires WfFields(fields) && Plain(fields) && Good(fields, m) && f in fields
    ensures EncField(f, NormMsg(fields, m)) == EncField(f, m)
    decreases fields, 1
  {
    hide ValueIsDefault, WfField, PlainField, InitValue, GoodVal, WfFields, Plain, NormVal, EncVal, Want, Good;
    MemberFacts(fields, f);
    GoodAt(fields, m, f);
    Framing.DistinctOf(fields);
    TagsHas(fields, f);
    WantAt(fields, f, m, Tags(fields));
    match (f.htype, m[f.slot])
    case (Required, One(v)) => NormValueEnc(f, v);
    case (Singular, One(v)) =>
      NormValueEnc(f, v);
      NormPresence(f, v);
      if ValueIsDefault(f, v) {
        InitAbsent(f, v);
      }
    case (Optional, Opt(has, v)) => NormValueEnc(f, v);
    case (Repeated, Rep(items)) =>
      var norm := NormVals(f, items);
      forall i | 0 <= i < |items|
        ensures EncVal(f, norm[i]) == EncVal(f, items[i])
      {
        NormValueEnc(f, items[i]);
      }
      NormItemsEnc(f, items, norm);
    case (Oneof, Union(which, v)) =>
      if which != 0 {
        TagsHas(fields, Find(fields, which).value);
        if which == f.tag {
          NormValueEnc(f, v);
        }
      } else if Find(fields, 0).Some? {
        MemberFacts(fields, Find(fields, 0).value);
      }
  }

  /** The normalised struct encodes to the same bytes: nothing the wire carries is lost. */
  lemma {:induction false} NormEnc(fields: seq<Field>, m: Msg)
    requires WfFields(fields) && Plain(fields) && Good(fields, m)
    ensures Enc(fields, NormMsg(fields, m)) == Enc(fields, m)
    decreases fields, 2
  {
    hide EncField, NormMsg, WfField, PlainField, GoodSlot;
    forall i | 0 <= i < |fields|
      ensures EncField(fields[i], NormMsg(fields, m)) == EncField(fields[i], m)
    {
      NormFieldEnc(fields, fields[i], m);
    }
    SameEnc(fields, NormMsg(fields, m), m);
  }

  lemma {:induction false} SameEnc(fields: seq<Field>, a: Msg, b: Msg)
    requires forall i :: 0 <= i < |fields| ==> EncField(fields[i], a) == EncField(fields[i], b)
    ensures Enc(fields, a) == Enc(fields, b)
  {
    hide EncField;
    if |fields| > 0 {
      SameEnc(fields[1..], a, b);
    }
  }

  // ---------------------------------------------------------------- main results

  /** Any bytes that decode give a struct that encodes without error. */
  lemma DecodedEncodes(fields: seq<Field>, bs: seq<byte>)
    requires WfFields(fields) && Plain(fields) && Decode(fields, bs).Ok?
    ensures Good(fields, Decode(fields, bs).val) && Enc(fields, Decode(fields, bs).val).Some?
  {
    hide WfFields, Plain, Good, Run, Finished, Enc, Defaults;
    DefaultsGood(fields);
    RunGood(fields, bs, State(Defaults(fields), {}, None));
    GoodEncodes(fields, Decode(fields, bs).val);
  }

  /**
    Encoding is a canonical form: decoding the encoded bytes once more and encoding that reproduces
    them, exactly when they can be read back at all, as any below 2^32 bytes can.
   */
  lemma {:induction false} ReencodingIsCanonical(fields: seq<Field>, bs: seq<byte>)
    requires WfFields(fields) && Plain(fields) && Decode(fields, bs).Ok?
    ensures var m := Decode(fields, bs).val;
      && Enc(fields, m).Some?
      && var again := Decode(fields, Enc(fields, m).value);
      && (Readable(fields, fields, m) ==> again == Ok(NormMsg(fields, m), []) && Enc(fields, again.val) == Enc(fields, m))
      && (!Readable(fields, fields, m) && |Enc(fields, m).value| < TWO_63 ==> again == Err)
      && (|Enc(fields, m).value| < TWO_32 ==> Readable(fields, fields, m))
  {
    hide WfFields, Plain, Good, Enc, Decode, NormMsg, Readable;
    DecodedEncodes(fields, bs);
    var m := Decode(fields, bs).val;
    NormEnc(fields, m);
    if |Enc(fields, m).value| < TWO_32 {
      GoodReadable(fields, m);
    }
    if Readable(fields, fields, m) {
      DecodeInvertsEncode(fields, m);
    } else if |Enc(fields, m).value| < TWO_63 {
      NarrowRefl(fields);
      Unreadable.DecodeIffReadable(fields, fields, m);
    }
  }
}
