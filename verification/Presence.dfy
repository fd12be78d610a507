/**
  Which singular fields without a has-flag are left out, and what the reader makes of it
  (pb_check_proto3_default_value): said in terms of the bytes written and of the struct
  that comes back, not of the encoder's own test.
 */
module Presence {
  import opened Bytes
  import opened Varint
  import opened Wire
  import opened Message
  import opened EncodeSpec
  import opened DecodeSpec
  import opened Normal
  import opened RoundTrip

  // ---------------------------------------------------------------- scalars

  /** The types whose zero value is left out. A fixed-length byte string is left out only if it has no bytes. */
  predicate ZeroIsAbsent(f: Field) {
    !f.ltype.LSubmessage? && (f.ltype.LFixedLengthBytes? ==> f.dataSize == 0)
  }

  lemma ItemIsNotEmpty(f: Field, v: Value)
    ensures EncItem(f, v) != Some([])
    ensures EncVal(f, v).Some? ==> EncItem(f, v) == Some(EncTag(WireType(f.ltype), f.tag) + EncVal(f, v).value)
  {
    hide EncVal, EncTag;
  }

  /** A scalar is left out if and only if the reader would read a zero; any other is written behind its key. */
  lemma ScalarAbsentIffZero(f: Field, m: Msg, v: Value)
    requires f.htype.Singular? && !f.ltype.LSubmessage? && f.slot in m && m[f.slot] == One(v) && EncVal(f, v).Some?
    ensures EncField(f, m) == Some([]) <==> ZeroIsAbsent(f) && NormVal(f, v) == ZeroValue(f)
    ensures EncField(f, m) == Some([]) || EncField(f, m) == Some(EncTag(WireType(f.ltype), f.tag) + EncVal(f, v).value)
  {
    hide EncVarint, EncString, Le, ZigZag, CStr, EncTag;
    ItemIsNotEmpty(f, v);
    match f.ltype
    case LString =>
      if NormVal(f, v) == ZeroValue(f) {
        assert (CStr(v.mem) + [0])[..|CStr(v.mem)|] == CStr(v.mem);
        assert |CStr(v.mem) + [0]| == |CStr(v.mem)| + 1;
      }
    case _ =>
  }

  // ---------------------------------------------------------------- submessages

  /** A field of a submessage writes nothing, and is neither a fixed-count array nor a union with a member. */
  predicate Silent(g: Field, m: Msg) {
    && EncField(g, m) == Some([]) && !g.htype.FixedCount?
    && (g.htype.Oneof? ==> Memberless(g, m))
  }

  predicate Memberless(g: Field, m: Msg) {
    g.slot in m && m[g.slot].Union? && m[g.slot].which == 0
  }

  lemma ArrayIsNotEmpty(f: Field, items: seq<Value>)
    requires |items| > 0
    ensures EncArray(f, items) != Some([])
  {
    hide EncVal, EncTag, EncString, EncItems, EncPayload;
    if EncItems(f, items).Some? {
      ItemsHead(f, items);
    }
  }

  lemma EmptyIsEmpty(f: Field)
    ensures EncArray(f, []) == Some([])
  {
  }

  lemma SlotSilent(g: Field, m: Msg)
    requires g.slot in m && g.tag > 0 && EncField(g, m).Some?
    ensures SlotIsDefault(g, m[g.slot]) <==> Silent(g, m)
  {
    hide EncArray, EncItem, ValueIsDefault;
    match (g.htype, m[g.slot])
    case (Required, One(v)) => ItemIsNotEmpty(g, v);
    case (Singular, One(v)) => ItemIsNotEmpty(g, v);
    case (Optional, Opt(_, v)) => ItemIsNotEmpty(g, v);
    case (Repeated, Rep(items)) =>
      EmptyIsEmpty(g);
      if |items| > 0 {
        ArrayIsNotEmpty(g, items);
      }
    case (Oneof, Union(which, v)) => ItemIsNotEmpty(g, v);
    case _ =>
  }

  lemma {:induction false} EmptyParts(fields: seq<Field>, m: Msg)
    ensures Enc(fields, m) == Some([]) <==> forall i :: 0 <= i < |fields| ==> EncField(fields[i], m) == Some([])
    decreases |fields|
  {
    hide EncField;
    if |fields| > 0 {
      EmptyParts(fields[1..], m);
      assert forall i :: 0 <= i < |fields[1..]| ==> fields[1..][i] == fields[i + 1];
      if forall i :: 0 <= i < |fields| ==> EncField(fields[i], m) == Some([]) {
        assert EncField(fields[0], m) == Some([]) && Enc(fields[1..], m) == Some([]);
        var none: seq<byte> := [];
        assert none + none == [];
      } else if Enc(fields, m) == Some([]) {
        var first, others := EncField(fields[0], m).value, Enc(fields[1..], m).value;
        assert |first + others| == |first| + |others|;
        assert first == [] && others == [];
        forall i | 0 <= i < |fields|
          ensures EncField(fields[i], m) == Some([])
        {
          assert i > 0 ==> EncField(fields[1..][i - 1], m) == Some([]);
        }
      }
    }
  }

  /**
    A submessage is left out if and only if its own encoding is empty, it has no fixed-count array
    and none of its unions has a member, so that the reader's defaults are what it held.
   */
  lemma SubmessageAbsentIff(f: Field, m: Msg, v: Value)
    requires WfField(f) && f.htype.Singular? && f.ltype.LSubmessage?
    requires f.slot in m && m[f.slot] == One(v) && EncVal(f, v).Some?
    ensures var ptr := f.ltype.ptr;
      EncField(f, m) == Some([]) <==>
        && Enc(ptr, v.msg) == Some([])
        && forall i :: 0 <= i < |ptr| ==> !ptr[i].htype.FixedCount? && (ptr[i].htype.Oneof? ==> Memberless(ptr[i], v.msg))
    ensures EncField(f, m) == Some([]) || EncField(f, m) == Some(EncTag(WT_STRING, f.tag) + EncVal(f, v).value)
  {
    hide EncField, Enc, EncVal, SlotIsDefault, EncTag, EncItem;
    var ptr := f.ltype.ptr;
    SubmessageData(f, v);
    ItemIsNotEmpty(f, v);
    SingularForm(f, m, v);
    EmptyParts(ptr, v.msg);
    forall i | 0 <= i < |ptr|
      ensures ptr[i].slot in v.msg && (SlotIsDefault(ptr[i], v.msg[ptr[i].slot]) <==> Silent(ptr[i], v.msg))
    {
      EncAt(ptr, v.msg, i);
      WfAt(ptr, i);
      SlotSilent(ptr[i], v.msg);
    }
  }

  lemma SingularForm(f: Field, m: Msg, v: Value)
    requires f.htype.Singular? && f.ltype.LSubmessage? && f.slot in m && m[f.slot] == One(v) && v.VMsg?
    ensures var ptr := f.ltype.ptr;
      EncField(f, m) == if forall i :: 0 <= i < |ptr| ==> ptr[i].slot in v.msg && SlotIsDefault(ptr[i], v.msg[ptr[i].slot])
                        then Some([]) else EncItem(f, v)
  {
    hide EncVal, SlotIsDefault;
  }

  // ---------------------------------------------------------------- what comes back

  lemma SingularSlot(fields: seq<Field>, f: Field, m: Msg, v: Value)
    requires f in fields && f.htype.Singular? && f.slot in m && m[f.slot] == One(v) && EncVal(f, v).Some?
    ensures WantSlot(fields, f, m, Tags(fields)) == One(if EncField(f, m) == Some([]) then InitValue(f) else NormVal(f, v))
    ensures EncField(f, m) == Some([]) <==> ValueIsDefault(f, v)
  {
    hide NormVal, InitValue, EncVal, ValueIsDefault, EncItem;
    TagsHas(fields, f);
    ItemIsNotEmpty(f, v);
  }

  lemma ScalarInit(f: Field)
    requires !f.ltype.LSubmessage? && !f.layout.pointer
    ensures InitValue(f) == if f.init.Some? then f.init.value else ZeroValue(f)
  {
  }

  /**
    A singular field comes back as it was, submessages included, with one exception: where the zero
    of a scalar is left out, the reader takes the field's own default. With a zero default nothing is lost.
   */
  lemma SingularComesBack(fields: seq<Field>, m: Msg, f: Field, v: Value)
    requires WfFields(fields) && Enc(fields, m).Some? && Readable(fields, fields, m)
    requires f in fields && f.htype.Singular? && f.slot in m && m[f.slot] == One(v) && EncVal(f, v).Some?
    ensures var r := Decode(fields, Enc(fields, m).value);
      && r.Ok? && f.slot in r.val
      && r.val[f.slot] == One(if ZeroIsAbsent(f) && NormVal(f, v) == ZeroValue(f) then InitValue(f) else NormVal(f, v))
      && (f.init.None? || f.init == Some(ZeroValue(f)) || f.ltype.LSubmessage? ==> r.val[f.slot] == One(NormVal(f, v)))
  {
    hide Enc, Decode, WfField, NormVal, InitValue, EncField, EncVal, Readable, ValueIsDefault, ZeroValue, Want;
    DecodeInvertsEncode(fields, m);
    WantAt(fields, f, m, Tags(fields));
    var i :| 0 <= i < |fields| && fields[i] == f;
    WfAt(fields, i);
    SingularSlot(fields, f, m, v);
    if f.ltype.LSubmessage? {
      if ValueIsDefault(f, v) {
        DefaultIsInit(f, v);
      }
    } else {
      ScalarAbsentIffZero(f, m, v);
      Embedded(f);
      ScalarInit(f);
    }
  }

  /**
    What the reader has for what was sent: a required value, the items of an array and the member of
    a union, an optional value exactly if its flag was set; otherwise the default, or no member.
   */
  predicate ReadAs(fields: seq<Field>, f: Field, sent: Slot, s: Slot) {
    match f.htype
    case Required => sent.One? && s == One(NormVal(f, sent.v))
    case Singular => sent.One? && (s == One(NormVal(f, sent.v)) || s == One(InitValue(f)))
    case Optional => sent.Opt? && s == if sent.has == 0 then Opt(0, InitValue(f)) else Opt(1, NormVal(f, sent.v))
    case Repeated => sent.Rep? && s == Rep(NormVals(f, sent.items))
    case FixedCount => sent.Fix? && s == Fix(NormVals(f, sent.items))
    case Oneof =>
      && sent.Union?
      && (sent.which == f.tag ==> s == Union(f.tag, NormVal(f, sent.v)))
      && ((forall g :: g in fields && g.tag == sent.which ==> !g.htype.Oneof? || g.slot != f.slot) ==> s == Union(0, VNone))
  }

  /** All fields come back; which of the two a singular one comes back as, `SingularComesBack` says. */
  lemma FieldComesBack(fields: seq<Field>, m: Msg, f: Field)
    requires WfFields(fields) && Enc(fields, m).Some? && Readable(fields, fields, m) && f in fields
    ensures var r := Decode(fields, Enc(fields, m).value);
      r.Ok? && f.slot in m && f.slot in r.val && ReadAs(fields, f, m[f.slot], r.val[f.slot])
  {
    hide Enc, Decode, WfField, EncField, Readable, Want, ReadAs, Tags;
    DecodeInvertsEncode(fields, m);
    WantAt(fields, f, m, Tags(fields));
    TagsHas(fields, f);
    FindUnique(fields, f);
    var i :| 0 <= i < |fields| && fields[i] == f;
    EncAt(fields, m, i);
    WantReads(fields, f, m);
  }

  lemma WantReads(fields: seq<Field>, f: Field, m: Msg)
    requires f in fields && f.slot in m && EncField(f, m).Some? && f.tag in Tags(fields) && Find(fields, f.tag) == Some(f)
    ensures ReadAs(fields, f, m[f.slot], WantSlot(fields, f, m, Tags(fields)))
  {
    hide NormVal, InitValue, EncItem, EncArray, ValueIsDefault, Tags;
  }

  /** Normal values: true is 1, a string is its characters and a terminator, and anything else without a submessage is itself. */
  lemma NormalIs(f: Field, v: Value)
    ensures f.ltype.LBool? && v.VBool? ==> NormVal(f, v) == VBool(if v.raw == 0 then 0 else 1)
    ensures f.ltype.LString? && v.VString? ==>
      var mem := NormVal(f, v).mem;
      |mem| == |CStr(v.mem)| + 1 && mem[..|mem| - 1] == CStr(v.mem) && mem[|mem| - 1] == 0
    ensures !f.ltype.LBool? && !f.ltype.LString? && !f.ltype.LSubmessage? ==> NormVal(f, v) == v
    ensures NormVal(f, NormVal(f, v)) == NormVal(f, v) || f.ltype.LSubmessage?
  {
    if f.ltype.LString? && v.VString? {
      TerminatedStr(CStr(v.mem));
    }
  }

  lemma {:induction false} TerminatedStr(s: seq<byte>)
    requires 0 !in s
    ensures CStr(s + [0]) == s
    decreases |s|
  {
    if |s| > 0 {
      assert (s + [0])[1..] == s[1..] + [0];
      TerminatedStr(s[1..]);
    }
  }
}
