/**
  Decoding what was encoded.

  The reader's descriptor may be narrower than the writer's: at every nesting depth it
  may lack fields and list the others in another order. Reading then projects the
  struct to the reader's fields; with equal descriptors it is the round trip.
 */
module RoundTrip {
  import opened Bytes
  import opened Varint
  import opened Wire
  import opened Message
  import opened EncodeSpec
  import opened DecodeSpec
  import opened Normal
  import opened ScalarTrip

  // ---------------------------------------------------------------- descriptors of reader and writer

  /** `r` describes the same field as `w` with a submessage type that may be narrower. */
  predicate NarrowField(r: Field, w: Field)
    decreases r, 0
  {
    && r.tag == w.tag && r.htype == w.htype && r.slot == w.slot && r.arraySize == w.arraySize
    && if r.ltype.LSubmessage? then w.ltype.LSubmessage? && Narrow(r.ltype.ptr, w.ltype.ptr)
       else r.ltype == w.ltype && r.dataSize == w.dataSize
  }

  /** Every field of the reader is a field of the writer. */
  predicate Narrow(reader: seq<Field>, writer: seq<Field>)
    decreases reader, 0
  {
    forall i :: 0 <= i < |reader| ==>
      var w := Find(writer, reader[i].tag); w.Some? && NarrowField(reader[i], w.value)
  }

  // ---------------------------------------------------------------- what a reader can read

  /** The values a field puts on the wire. */
  function Emitted(f: Field, s: Slot): seq<Value> {
    match (f.htype, s)
    case (Required, One(v)) => [v]
    case (Singular, One(v)) => if ValueIsDefault(f, v) then [] else [v]
    case (Optional, Opt(has, v)) => if has == 0 then [] else [v]
    case (Repeated, Rep(items)) => items
    case (FixedCount, Fix(items)) => items
    case (Oneof, Union(which, v)) => if which == f.tag then [v] else []
    case _ => []
  }

  predicate IsArray(f: Field) {
    f.htype.Repeated? || f.htype.FixedCount?
  }

  /** The length of every submessage and packed array fits the reader's 32-bit length. */
  predicate LengthsFit(f: Field, items: seq<Value>) {
    && (f.ltype.LSubmessage? ==> forall i :: 0 <= i < |items| && items[i].VMsg? ==>
          var body := Enc(f.ltype.ptr, items[i].msg); body.Some? ==> |body.value| < TWO_32)
    && (IsArray(f) && Packable(f.ltype) ==>
          var payload := EncPayload(f, items); payload.Some? ==> |payload.value| < TWO_32)
  }

  /** A string is terminated within its array; a submessage is readable. */
  predicate ReadableValue(r: Field, w: Field, v: Value)
    decreases r, 0
  {
    && (w.ltype.LString? && v.VString? ==> |CStr(v.mem)| < w.dataSize)
    && (r.ltype.LSubmessage? && w.ltype.LSubmessage? && v.VMsg? ==> Readable(r.ltype.ptr, w.ltype.ptr, v.msg))
  }

  predicate ReadableField(reader: seq<Field>, w: Field, m: Msg)
    decreases reader, 0
  {
    w.slot in m ==>
      && LengthsFit(w, Emitted(w, m[w.slot]))
      && (match Find(reader, w.tag)
          case None => true
          case Some(r) => forall i :: 0 <= i < |Emitted(w, m[w.slot])| ==> ReadableValue(r, w, Emitted(w, m[w.slot])[i]))
  }

  predicate Readable(reader: seq<Field>, writer: seq<Field>, m: Msg)
    decreases reader, 1
  {
    forall i :: 0 <= i < |writer| ==> ReadableField(reader, writer[i], m)
  }

  // ---------------------------------------------------------------- records

  lemma RunRecord(reader: seq<Field>, wt: nat, tag: nat, data: seq<byte>, st: State)
    requires wt < 8 && 1 <= tag < 0x2000_0000
    ensures Run(reader, EncTag(wt, tag) + data, st) ==
      match Step(reader, tag, wt, data, st)
      case Err => Err
      case Ok(st', rest) => Run(reader, rest, st')
  {
    hide EncTag, DecTag, Step;
    TagRoundTrip(wt, tag, data);
  }

  /** What encode_basic_field wrote, in terms of the emitted values. */
  lemma FieldForm(f: Field, m: Msg)
    requires EncField(f, m).Some?
    ensures f.slot in m
    ensures var items := Emitted(f, m[f.slot]);
      && (IsArray(f) ==> |items| <= f.arraySize) && (!IsArray(f) ==> |items| <= 1)
      && (if IsArray(f) && Packable(f.ltype) && |items| > 0
          then EncPayload(f, items).Some?
            && EncField(f, m).value == EncTag(WT_STRING, f.tag) + EncString(EncPayload(f, items).value)
          else EncItems(f, items) == EncField(f, m))
  {
    hide EncVal, ValueIsDefault;
    var items := Emitted(f, m[f.slot]);
    if !IsArray(f) && |items| == 1 {
      var v := items[0];
      assert items[1..] == [];
      assert EncItems(f, items) == Some(EncItem(f, v).value + []);
      assert EncItem(f, v).value + [] == EncItem(f, v).value;
    }
  }

  lemma ItemsHead(f: Field, items: seq<Value>)
    requires |items| > 0 && EncItems(f, items).Some?
    ensures EncVal(f, items[0]).Some? && EncItems(f, items[1..]).Some?
    ensures EncItems(f, items).value
         == EncTag(WireType(f.ltype), f.tag) + (EncVal(f, items[0]).value + EncItems(f, items[1..]).value)
  {
    hide EncVal, EncTag;
    var t, d, o := EncTag(WireType(f.ltype), f.tag), EncVal(f, items[0]).value, EncItems(f, items[1..]).value;
    assert (t + d) + o == t + (d + o);
  }

  // ---------------------------------------------------------------- dropped fields

  lemma SkipRecord(reader: seq<Field>, f: Field, v: Value, rest: seq<byte>, st: State)
    requires WfField(f) && Find(reader, f.tag).None? && EncVal(f, v).Some?
    requires f.ltype.LSubmessage? ==> v.VMsg? && Enc(f.ltype.ptr, v.msg).Some? && |Enc(f.ltype.ptr, v.msg).value| < TWO_32
    ensures Run(reader, EncTag(WireType(f.ltype), f.tag) + (EncVal(f, v).value + rest), st) == Run(reader, rest, st)
  {
    hide EncVal, EncTag, SkipField, Run;
    SkipValue(f, v, rest);
    RunRecord(reader, WireType(f.ltype), f.tag, EncVal(f, v).value + rest, st);
  }

  lemma SubmessageData(f: Field, v: Value)
    requires f.ltype.LSubmessage?
    ensures EncVal(f, v).Some? ==>
      && v.VMsg? && Enc(f.ltype.ptr, v.msg).Some?
      && EncVal(f, v).value == EncString(Enc(f.ltype.ptr, v.msg).value)
  {
  }

  lemma {:induction false} SkipItems(reader: seq<Field>, f: Field, items: seq<Value>, rest: seq<byte>, st: State)
    requires WfField(f) && Find(reader, f.tag).None? && EncItems(f, items).Some?
    requires f.ltype.LSubmessage? ==> LengthsFit(f, items)
    ensures Run(reader, EncItems(f, items).value + rest, st) == Run(reader, rest, st)
    decreases |items|
  {
    hide EncVal, EncTag, Run, SkipField;
    if |items| == 0 {
      assert EncItems(f, items).value + rest == rest;
    } else {
      ItemsHead(f, items);
      var t := EncTag(WireType(f.ltype), f.tag);
      var d, o := EncVal(f, items[0]).value, EncItems(f, items[1..]).value;
      assert (t + (d + o)) + rest == t + (d + (o + rest));
      HeadFits(f, items);
      SkipRecord(reader, f, items[0], o + rest, st);
      SkipItems(reader, f, items[1..], rest, st);
    }
  }

  lemma HeadFits(f: Field, items: seq<Value>)
    requires |items| > 0 && EncVal(f, items[0]).Some?
    requires f.ltype.LSubmessage? ==> LengthsFit(f, items)
    ensures f.ltype.LSubmessage? ==> LengthsFit(f, items[1..])
    ensures f.ltype.LSubmessage? ==> items[0].VMsg? && Enc(f.ltype.ptr, items[0].msg).Some?
    ensures f.ltype.LSubmessage? ==> |Enc(f.ltype.ptr, items[0].msg).value| < TWO_32
  {
    hide Enc, EncPayload;
    if f.ltype.LSubmessage? {
      SubmessageData(f, items[0]);
      assert forall i :: 0 <= i < |items[1..]| ==> items[1..][i] == items[i + 1];
    }
  }

  /** A field that the reader does not have leaves its state as it was. */
  lemma SkipWholeField(reader: seq<Field>, f: Field, m: Msg, rest: seq<byte>, st: State)
    requires WfField(f) && Find(reader, f.tag).None? && EncField(f, m).Some?
    requires LengthsFit(f, Emitted(f, m[f.slot]))
    ensures Run(reader, EncField(f, m).value + rest, st) == Run(reader, rest, st)
  {
    hide EncVal, EncTag, Run, SkipField, EncPayload, EncField, Emitted, EncString, DecString;
    FieldForm(f, m);
    var items := Emitted(f, m[f.slot]);
    if IsArray(f) && Packable(f.ltype) && |items| > 0 {
      var payload := EncPayload(f, items).value;
      SkipPacked(payload, rest);
      RunRecord(reader, WT_STRING, f.tag, EncString(payload) + rest, st);
      assert (EncTag(WT_STRING, f.tag) + EncString(payload)) + rest == EncTag(WT_STRING, f.tag) + (EncString(payload) + rest);
    } else {
      SkipItems(reader, f, items, rest, st);
    }
  }

  lemma SkipPacked(payload: seq<byte>, rest: seq<byte>)
    requires |payload| < TWO_32
    ensures SkipField(WT_STRING, EncString(payload) + rest) == Ok((), rest)
  {
    hide DecString, EncString;
    StringRoundTrip(payload, rest);
  }

  // ---------------------------------------------------------------- kept fields

  /** What a submessage is decoded on top of: the defaults, unless the struct has none there. */
  predicate FreshPrev(r: Field, prev: Value) {
    r.ltype.LSubmessage? && prev.VMsg? ==> prev.msg == Defaults(r.ltype.ptr)
  }

  /** The reader gets the normalised value back, whatever follows it. */
  ghost predicate Reads(r: Field, w: Field, v: Value) {
    && EncVal(w, v).Some?
    && forall rest: seq<byte>, prev: Value :: FreshPrev(r, prev) ==>
         DecVal(r, EncVal(w, v).value + rest, prev) == Ok(NormVal(r, v), rest)
  }

  lemma ReadsAt(r: Field, w: Field, v: Value, rest: seq<byte>, prev: Value)
    requires Reads(r, w, v) && FreshPrev(r, prev)
    ensures DecVal(r, EncVal(w, v).value + rest, prev) == Ok(NormVal(r, v), rest)
  {
  }

  ghost predicate AllRead(r: Field, w: Field, items: seq<Value>) {
    forall i :: 0 <= i < |items| ==> Reads(r, w, items[i])
  }

  lemma {:induction false} PackedTrip(r: Field, w: Field, items: seq<Value>, room: nat)
    requires !r.ltype.LSubmessage? && EncPayload(w, items).Some? && AllRead(r, w, items) && |items| <= room
    ensures DecPacked(r, EncPayload(w, items).value, room) == Some(NormVals(r, items))
    decreases |items|
  {
    hide EncVal, DecScalar, NormVal;
    if |items| == 0 {
      assert NormVals(r, items) == [];
    } else {
      assert Reads(r, w, items[0]);
      var d, o := EncVal(w, items[0]).value, EncPayload(w, items[1..]).value;
      ReadsAt(r, w, items[0], o, VNone);
      assert AllRead(r, w, items[1..]) by {
        assert forall i :: 0 <= i < |items[1..]| ==> items[1..][i] == items[i + 1];
      }
      PackedTrip(r, w, items[1..], room - 1);
      assert NormVals(r, items) == [NormVal(r, items[0])] + NormVals(r, items[1..]);
    }
  }

  /** The reader's presence test, on values the writer sends or does not send. */
  lemma {:induction false} DefaultNarrows(r: Field, w: Field, v: Value)
    requires NarrowField(r, w) && ValueIsDefault(w, v)
    ensures ValueIsDefault(r, v)
    decreases r, 0
  {
    if r.ltype.LSubmessage? {
      forall i | 0 <= i < |r.ltype.ptr|
        ensures r.ltype.ptr[i].slot in v.msg && SlotIsDefault(r.ltype.ptr[i], v.msg[r.ltype.ptr[i].slot])
      {
        var ri := r.ltype.ptr[i];
        var wi := Find(w.ltype.ptr, ri.tag).value;
        assert NarrowField(ri, wi);
        SlotDefaultNarrows(ri, wi, v.msg[wi.slot]);
      }
    }
  }

  lemma {:induction false} SlotDefaultNarrows(r: Field, w: Field, s: Slot)
    requires NarrowField(r, w) && SlotIsDefault(w, s)
    ensures SlotIsDefault(r, s)
    decreases r, 1
  {
    if r.htype.Singular? {
      DefaultNarrows(r, w, s.v);
    }
  }

  /** A submessage in which nothing is present normalises to the defaults. */
  lemma DefaultIsInit(r: Field, v: Value)
    requires r.ltype.LSubmessage? && WfField(r) && ValueIsDefault(r, v)
    ensures NormVal(r, v) == InitValue(r)
  {
    hide ValueIsDefault, NormVal, InitValue;
    var ptr := r.ltype.ptr;
    SubmessageDefault(r, v);
    var w := Defaults(ptr);
    forall f | f in ptr && f.slot in w
      ensures w[f.slot] == WantSlot(ptr, f, v.msg, Tags(ptr))
    {
      var i :| 0 <= i < |ptr| && ptr[i] == f;
      DefaultsAt(ptr, i);
      DefaultSlotUnset(ptr, f, v.msg, Tags(ptr));
    }
    WantIs(ptr, v.msg, Tags(ptr), w);
  }

  lemma SubmessageDefault(r: Field, v: Value)
    requires r.ltype.LSubmessage? && WfField(r) && ValueIsDefault(r, v)
    ensures v.VMsg? && NormVal(r, v) == VMsg(NormMsg(r.ltype.ptr, v.msg))
    ensures InitValue(r) == VMsg(Defaults(r.ltype.ptr)) && WfFields(r.ltype.ptr)
    ensures forall f :: f in r.ltype.ptr ==> f.slot in v.msg && SlotIsDefault(f, v.msg[f.slot])
  {
  }

  lemma DefaultSlotUnset(fields: seq<Field>, f: Field, m: Msg, done: set<nat>)
    requires WfFields(fields) && f in fields && f.slot in m && SlotIsDefault(f, m[f.slot])
    ensures WantSlot(fields, f, m, done) == InitSlot(f)
  {
    hide ValueIsDefault, NormVal, InitValue;
    if f.htype.Repeated? {
      assert NormVals(f, []) == [];
    }
  }

  // ---------------------------------------------------------------- receiving a kept field

  /** The required fields among `done`. */
  function SeenTags(reader: seq<Field>, done: set<nat>): set<nat> {
    set i | 0 <= i < |reader| && reader[i].htype.Required? && reader[i].tag in done :: reader[i].tag
  }

  /** The reader's state once the fields in `done` have been received. */
  function After(reader: seq<Field>, m: Msg, done: set<nat>, fixed: Option<Progress>): State
    requires DistinctSlots(reader)
  {
    State(Want(reader, m, done), SeenTags(reader, done), fixed)
  }

  lemma SeenGrows(reader: seq<Field>, r: Field, done: set<nat>)
    requires DistinctTags(reader) && r in reader
    ensures SeenTags(reader, done + {r.tag})
         == if r.htype.Required? then SeenTags(reader, done) + {r.tag} else SeenTags(reader, done)
  {
    FindUnique(reader, r);
    var k :| 0 <= k < |reader| && reader[k] == r;
    forall i | 0 <= i < |reader| && reader[i].tag == r.tag
      ensures reader[i] == r
    {
    }
    if r.htype.Required? {
      assert reader[k].tag in SeenTags(reader, done + {r.tag});
    }
  }

  /** The contents of a slot before and after its field arrives, for fields that are not arrays. */
  lemma SingleSlot(reader: seq<Field>, r: Field, w: Field, v: Value, m: Msg, done: set<nat>)
    requires WfFields(reader) && Find(reader, w.tag) == Some(r) && NarrowField(r, w) && !IsArray(w) && WfField(r)
    requires w.slot in m && Emitted(w, m[w.slot]) == [v] && w.tag !in done && EncVal(w, v).Some?
    ensures WantSlot(reader, r, m, done) == InitSlot(r)
    ensures WantSlot(reader, r, m, done + {w.tag}) ==
      match r.htype
      case Optional => Opt(1, NormVal(r, v))
      case Oneof => Union(r.tag, NormVal(r, v))
      case _ => One(NormVal(r, v))
  {
    hide NormVal, EncVal, ValueIsDefault, InitValue;
    if r.htype.Singular? && ValueIsDefault(r, v) {
      if r.ltype.LSubmessage? {
        DefaultIsInit(r, v);
      } else {
        DefaultNarrows'(r, w, v);
      }
    }
  }

  lemma DefaultNarrows'(r: Field, w: Field, v: Value)
    requires NarrowField(r, w) && !r.ltype.LSubmessage?
    ensures ValueIsDefault(r, v) == ValueIsDefault(w, v)
  {
  }

  lemma SingleStep(reader: seq<Field>, r: Field, w: Field, v: Value, m: Msg, rest: seq<byte>, done: set<nat>, fixed: Option<Progress>)
    requires WfFields(reader) && Find(reader, w.tag) == Some(r) && NarrowField(r, w) && !IsArray(w) && WfField(r)
    requires w.slot in m && Emitted(w, m[w.slot]) == [v] && w.tag !in done && Reads(r, w, v)
    ensures Step(reader, w.tag, WireType(w.ltype), EncVal(w, v).value + rest, After(reader, m, done, fixed))
         == Ok(After(reader, m, done + {w.tag}, fixed), rest)
  {
    hide NormVal, EncVal, DecVal, WantSlot, SeenTags, InitValue, Want;
    var st := After(reader, m, done, fixed);
    SingleSlot(reader, r, w, v, m, done);
    WantAt(reader, r, m, done);
    SeenGrows(reader, r, done);
    WantUpdate(reader, r, m, done, WantSlot(reader, r, m, done + {w.tag}));
    var prev := if r.htype.Oneof? then VNone else InitValue(r);
    InitIsFresh(r);
    ReadsAt(r, w, v, rest, prev);
  }

  lemma InitIsFresh(r: Field)
    ensures FreshPrev(r, InitValue(r)) && FreshPrev(r, VNone)
  {
  }

  /** An array slot with the first `k` of its items received. */
  function Partial(r: Field, items: seq<Value>, k: nat): Slot
    requires k <= |items|
  {
    if r.htype.FixedCount?
    then Fix(NormVals(r, items[..k]) + seq(if k <= r.arraySize then r.arraySize - k else 0, _ => VNone))
    else Rep(NormVals(r, items[..k]))
  }

  function FixedProgress(r: Field, k: nat, fixed: Option<Progress>): Option<Progress> {
    if r.htype.FixedCount? && k > 0 then Some(Progress(r.tag, k, r.arraySize)) else fixed
  }

  /** The reader's state with the first `k` items of array `r` received, after the fields in `done`. */
  function Filling(reader: seq<Field>, r: Field, items: seq<Value>, m: Msg, done: set<nat>,
                   fixed: Option<Progress>, k: nat): State
    requires DistinctSlots(reader) && k <= |items|
  {
    State(Want(reader, m, done)[r.slot := Partial(r, items, k)], SeenTags(reader, done), FixedProgress(r, k, fixed))
  }

  lemma ArraySlot(reader: seq<Field>, r: Field, items: seq<Value>, m: Msg, done: set<nat>)
    requires WfFields(reader) && r in reader && IsArray(r) && r.slot in m && r.tag !in done
    requires Emitted(r, m[r.slot]) == items && (r.htype.Repeated? ==> m[r.slot].Rep?)
    requires r.htype.FixedCount? ==> m[r.slot].Fix? && |items| == r.arraySize
    ensures WantSlot(reader, r, m, done) == InitSlot(r) == Partial(r, items, 0)
    ensures WantSlot(reader, r, m, done + {r.tag}) == Partial(r, items, |items|)
  {
    hide NormVal, InitValue;
    assert NormVals(r, items[..0]) == [] && items[..|items|] == items;
    if r.htype.FixedCount? {
      assert NormVals(r, items) + [] == NormVals(r, items);
      assert seq(r.arraySize, _ => VNone) == [] + seq(r.arraySize, _ => VNone);
    }
  }

  lemma FillingEnds(reader: seq<Field>, r: Field, items: seq<Value>, m: Msg, done: set<nat>, fixed: Option<Progress>)
    requires WfFields(reader) && r in reader && IsArray(r) && r.slot in m && r.tag !in done
    requires Emitted(r, m[r.slot]) == items && (r.htype.Repeated? ==> m[r.slot].Rep?)
    requires r.htype.FixedCount? ==> m[r.slot].Fix? && |items| == r.arraySize
    ensures Filling(reader, r, items, m, done, fixed, 0) == After(reader, m, done, fixed)
    ensures Filling(reader, r, items, m, done, fixed, |items|)
         == After(reader, m, done + {r.tag}, FixedProgress(r, |items|, fixed))
  {
    hide WantSlot, SeenTags, Partial, Want, InitSlot;
    ArraySlot(reader, r, items, m, done);
    WantAt(reader, r, m, done);
    SeenGrows(reader, r, done);
    WantUpdate(reader, r, m, done, Partial(r, items, |items|));
    assert Want(reader, m, done)[r.slot := WantSlot(reader, r, m, done)] == Want(reader, m, done);
  }

  /** Appending to, or writing into, an array slot moves it to the next partial state. */
  lemma PartialNext(r: Field, items: seq<Value>, k: nat, more: seq<Value>)
    requires IsArray(r) && k + |more| <= |items| <= r.arraySize
    requires more == NormVals(r, items[k..k + |more|])
    ensures r.htype.Repeated? ==> Partial(r, items, k + |more|) == Rep(Partial(r, items, k).items + more)
    ensures r.htype.FixedCount? && |items| == r.arraySize ==>
      && |Partial(r, items, k).items| == r.arraySize
      && Partial(r, items, k + |more|) == Fix(Partial(r, items, k).items[..k] + more + Partial(r, items, k).items[k + |more|..])
  {
    hide NormVal;
    var n := k + |more|;
    assert NormVals(r, items[..n]) == NormVals(r, items[..k]) + more;
  }

  lemma ItemsStep(reader: seq<Field>, r: Field, items: seq<Value>, m: Msg, done: set<nat>, fixed: Option<Progress>,
                  k: nat, more: seq<Value>, wt: nat, bs: seq<byte>, rest: seq<byte>)
    requires WfFields(reader) && Find(reader, r.tag) == Some(r) && IsArray(r)
    requires 0 < |more| && k + |more| <= |items| <= r.arraySize && (r.htype.FixedCount? ==> |items| == r.arraySize)
    requires fixed.Some? ==> fixed.value.tag != r.tag && fixed.value.size == fixed.value.full
    requires more == NormVals(r, items[k..k + |more|]) && DecItems(r, wt, bs, k) == Ok(more, rest)
    ensures Step(reader, r.tag, wt, bs, Filling(reader, r, items, m, done, fixed, k))
         == Ok(Filling(reader, r, items, m, done, fixed, k + |more|), rest)
  {
    hide NormVals, DecItems, Want, SeenTags, Partial;
    PartialNext(r, items, k, more);
    PartialShape(r, items, k);
    var st := Filling(reader, r, items, m, done, fixed, k);
    var next := Partial(r, items, k + |more|);
    var w: Msg := Want(reader, m, done);
    var filled: Msg := w[r.slot := Partial(r, items, k)];
    assert filled[r.slot := next] == w[r.slot := next];
  }

  lemma PartialShape(r: Field, items: seq<Value>, k: nat)
    requires IsArray(r) && k <= |items|
    ensures r.htype.Repeated? ==> Partial(r, items, k).Rep? && |Partial(r, items, k).items| == k
    ensures r.htype.FixedCount? ==> Partial(r, items, k).Fix?
  {
  }

  lemma {:induction false} ItemsTrip(reader: seq<Field>, r: Field, w: Field, items: seq<Value>, m: Msg, done: set<nat>,
                                     fixed: Option<Progress>, k: nat, rest: seq<byte>)
    requires WfFields(reader) && Find(reader, r.tag) == Some(r) && NarrowField(r, w) && WfField(r) && IsArray(r)
    requires k <= |items| <= r.arraySize && (r.htype.FixedCount? ==> |items| == r.arraySize)
    requires fixed.Some? ==> fixed.value.tag != r.tag && fixed.value.size == fixed.value.full
    requires !Packable(r.ltype) && AllRead(r, w, items) && EncItems(w, items[k..]).Some?
    ensures Run(reader, EncItems(w, items[k..]).value + rest, Filling(reader, r, items, m, done, fixed, k))
         == Run(reader, rest, Filling(reader, r, items, m, done, fixed, |items|))
    decreases |items| - k
  {
    hide EncVal, DecVal, NormVal, Filling, Step, Run, Reads, EncTag, WfField;
    if k == |items| {
      assert EncItems(w, items[k..]).value + rest == rest;
    } else {
      ItemsHead(w, items[k..]);
      assert items[k..][1..] == items[k + 1..];
      var t := EncTag(WireType(w.ltype), w.tag);
      var d, o := EncVal(w, items[k]).value, EncItems(w, items[k + 1..]).value;
      assert (t + (d + o)) + rest == t + (d + (o + rest));
      TagInRange(r);
      Embedded(r);
      RunRecord(reader, WireType(w.ltype), r.tag, d + (o + rest), Filling(reader, r, items, m, done, fixed, k));
      assert Reads(r, w, items[k]);
      InitIsFresh(r);
      ReadsAt(r, w, items[k], o + rest, VNone);
      var v := NormVal(r, items[k]);
      assert NormVals(r, items[k..k + |[v]|]) == [v];
      NarrowWire(r, w);
      ItemsStep(reader, r, items, m, done, fixed, k, [v], WireType(w.ltype), d + (o + rest), o + rest);
      ItemsTrip(reader, r, w, items, m, done, fixed, k + 1, rest);
    }
  }

  lemma TagInRange(f: Field)
    requires WfField(f)
    ensures 1 <= f.tag < 0x2000_0000
  {
  }

  lemma NarrowWire(r: Field, w: Field)
    requires NarrowField(r, w)
    ensures WireType(r.ltype) == WireType(w.ltype) && Packable(r.ltype) == Packable(w.ltype)
    ensures r.htype == w.htype && r.tag == w.tag && r.slot == w.slot && r.arraySize == w.arraySize
  {
  }

  lemma PackedStep(reader: seq<Field>, r: Field, w: Field, items: seq<Value>, m: Msg, done: set<nat>,
                   fixed: Option<Progress>, rest: seq<byte>)
    requires WfFields(reader) && Find(reader, r.tag) == Some(r) && NarrowField(r, w) && WfField(r) && IsArray(r)
    requires 0 < |items| <= r.arraySize && (r.htype.FixedCount? ==> |items| == r.arraySize)
    requires fixed.Some? ==> fixed.value.tag != r.tag && fixed.value.size == fixed.value.full
    requires Packable(r.ltype) && AllRead(r, w, items) && EncPayload(w, items).Some?
    requires |EncPayload(w, items).value| < TWO_32
    ensures Run(reader, EncTag(WT_STRING, w.tag) + EncString(EncPayload(w, items).value) + rest,
                Filling(reader, r, items, m, done, fixed, 0))
         == Run(reader, rest, Filling(reader, r, items, m, done, fixed, |items|))
  {
    hide EncVal, DecVal, NormVal, NormVals, Filling, Step, Run, Reads, EncTag, EncString, DecString, EncPayload, WfField, DecPacked;
    var payload := EncPayload(w, items).value;
    var t := EncTag(WT_STRING, w.tag);
    assert (t + EncString(payload)) + rest == t + (EncString(payload) + rest);
    TagInRange(r);
    Embedded(r);
    NarrowWire(r, w);
    RunRecord(reader, WT_STRING, w.tag, EncString(payload) + rest, Filling(reader, r, items, m, done, fixed, 0));
    StringRoundTrip(payload, rest);
    PackedTrip(r, w, items, r.arraySize);
    assert items[0..0 + |items|] == items;
    ItemsStep(reader, r, items, m, done, fixed, 0, NormVals(r, items), WT_STRING, EncString(payload) + rest, rest);
  }

  /** A field that sends nothing leaves the reader's slot at its default. */
  lemma NothingSent(reader: seq<Field>, r: Field, w: Field, m: Msg, done: set<nat>)
    requires WfFields(reader) && Find(reader, w.tag) == Some(r) && NarrowField(r, w) && !IsArray(w) && WfField(r)
    requires EncField(w, m).Some? && Emitted(w, m[w.slot]) == [] && w.tag !in done
    ensures Want(reader, m, done + {w.tag}) == Want(reader, m, done)
    ensures SeenTags(reader, done + {w.tag}) == SeenTags(reader, done)
  {
    hide NormVal, EncVal, ValueIsDefault, InitValue, Want, SeenTags;
    WantAt(reader, r, m, done);
    SeenGrows(reader, r, done);
    if r.htype.Singular? {
      DefaultNarrows(r, w, m[w.slot].v);
    }
    WantUpdate(reader, r, m, done, WantSlot(reader, r, m, done));
    assert Want(reader, m, done)[r.slot := WantSlot(reader, r, m, done)] == Want(reader, m, done);
  }

  lemma KeptField(reader: seq<Field>, r: Field, w: Field, m: Msg, done: set<nat>, fixed: Option<Progress>, rest: seq<byte>)
    requires WfFields(reader) && Find(reader, w.tag) == Some(r) && NarrowField(r, w) && WfField(r)
    requires EncField(w, m).Some? && w.tag !in done
    requires fixed.Some? ==> fixed.value.tag != w.tag && fixed.value.size == fixed.value.full
    requires LengthsFit(w, Emitted(w, m[w.slot])) && AllRead(r, w, Emitted(w, m[w.slot]))
    ensures Run(reader, EncField(w, m).value + rest, After(reader, m, done, fixed))
         == Run(reader, rest, After(reader, m, done + {w.tag}, FixedProgress(r, |Emitted(w, m[w.slot])|, fixed)))
  {
    hide EncVal, DecVal, NormVal, Filling, Step, Run, EncTag, EncString, DecString, EncPayload, WfField, DecPacked,
      EncField, Want, SeenTags, WantSlot;
    FieldForm(w, m);
    NarrowWire(r, w);
    TagInRange(r);
    var items := Emitted(w, m[w.slot]);
    if |items| == 0 {
      assert EncField(w, m).value + rest == rest;
      if IsArray(w) {
        EmptyArray(reader, r, w, m, done, fixed);
      } else {
        NothingSent(reader, r, w, m, done);
      }
    } else if !IsArray(w) {
      var v := items[0];
      ItemsHead(w, items);
      var t, d := EncTag(WireType(w.ltype), w.tag), EncVal(w, v).value;
      assert EncItems(w, items[1..]).value == [];
      assert (t + (d + [])) + rest == t + (d + rest);
      assert Reads(r, w, v);
      RunRecord(reader, WireType(w.ltype), w.tag, d + rest, After(reader, m, done, fixed));
      SingleStep(reader, r, w, v, m, rest, done, fixed);
    } else {
      ArrayForm(r, w, m);
      FillingEnds(reader, r, items, m, done, fixed);
      if Packable(w.ltype) {
        PackedStep(reader, r, w, items, m, done, fixed, rest);
      } else {
        assert items[0..] == items;
        ItemsTrip(reader, r, w, items, m, done, fixed, 0, rest);
      }
    }
  }

  lemma ArrayForm(r: Field, w: Field, m: Msg)
    requires NarrowField(r, w) && EncField(w, m).Some? && IsArray(w)
    ensures Emitted(r, m[r.slot]) == Emitted(w, m[w.slot])
    ensures r.htype.Repeated? ==> m[r.slot].Rep?
    ensures r.htype.FixedCount? ==> m[r.slot].Fix? && |Emitted(w, m[w.slot])| == r.arraySize
  {
  }

  lemma EmptyArray(reader: seq<Field>, r: Field, w: Field, m: Msg, done: set<nat>, fixed: Option<Progress>)
    requires WfFields(reader) && Find(reader, w.tag) == Some(r) && NarrowField(r, w) && IsArray(w)
    requires EncField(w, m).Some? && Emitted(w, m[w.slot]) == [] && w.tag !in done
    ensures After(reader, m, done + {w.tag}, fixed) == After(reader, m, done, fixed)
  {
    hide EncField, Want, SeenTags, Filling;
    NarrowWire(r, w);
    FieldForm(w, m);
    ArrayForm(r, w, m);
    FillingEnds(reader, r, [], m, done, fixed);
  }

  // ---------------------------------------------------------------- whole messages

  /** The fixed-count array the reader filled last, after the first `i` fields of the writer. */
  function FixedAfter(reader: seq<Field>, writer: seq<Field>, m: Msg, i: nat): Option<Progress>
    requires i <= |writer|
  {
    if i == 0 then None
    else
      var w := writer[i - 1];
      var before := FixedAfter(reader, writer, m, i - 1);
      match Find(reader, w.tag)
      case None => before
      case Some(r) => if w.slot in m then FixedProgress(r, |Emitted(w, m[w.slot])|, before) else before
  }

  lemma {:induction false} FixedAfterComplete(reader: seq<Field>, writer: seq<Field>, m: Msg, i: nat)
    requires i <= |writer| && Enc(writer, m).Some? && Narrow(reader, writer) && WfFields(writer)
    ensures var fixed := FixedAfter(reader, writer, m, i);
      fixed.Some? ==> fixed.value.tag in Tags(writer[..i]) && fixed.value.size == fixed.value.full
    decreases i
  {
    hide EncField, Emitted, NarrowField;
    if i > 0 {
      FixedAfterComplete(reader, writer, m, i - 1);
      var w := writer[i - 1];
      EncAt(writer, m, i - 1);
      assert writer[..i - 1] == writer[..i][..i - 1];
      assert forall t :: t in Tags(writer[..i - 1]) ==> t in Tags(writer[..i]) by {
        forall t | t in Tags(writer[..i - 1])
          ensures t in Tags(writer[..i])
        {
          var k :| 0 <= k < i - 1 && writer[..i - 1][k].tag == t;
          assert writer[..i][k].tag == t;
        }
      }
      assert writer[..i][i - 1].tag == w.tag;
      match Find(reader, w.tag)
      case None =>
      case Some(r) =>
        NarrowAt(reader, writer, i - 1, r);
        if r.htype.FixedCount? {
          FullArray(r, w, m);
        }
    }
  }

  lemma FullArray(r: Field, w: Field, m: Msg)
    requires NarrowField(r, w) && EncField(w, m).Some? && r.htype.FixedCount?
    ensures |Emitted(w, m[w.slot])| == r.arraySize
  {
  }

  lemma {:induction false} EncAt(fields: seq<Field>, m: Msg, i: nat)
    requires i < |fields| && Enc(fields, m).Some?
    ensures EncField(fields[i], m).Some? && Enc(fields[i..], m).Some? && Enc(fields[i + 1..], m).Some?
    ensures Enc(fields[i..], m).value == EncField(fields[i], m).value + Enc(fields[i + 1..], m).value
    ensures fields[i].slot in m
    decreases i
  {
    hide EncField;
    if i == 0 {
      assert fields[0..] == fields;
      FieldForm(fields[0], m);
    } else {
      EncAt(fields[1..], m, i - 1);
      assert fields[1..][i - 1..] == fields[i..] && fields[1..][i..] == fields[i + 1..];
    }
  }

  lemma NarrowAt(reader: seq<Field>, writer: seq<Field>, i: nat, r: Field)
    requires Narrow(reader, writer) && DistinctTags(writer) && i < |writer| && Find(reader, writer[i].tag) == Some(r)
    ensures NarrowField(r, writer[i])
  {
    hide NarrowField;
    FindUnique(writer, writer[i]);
    var k :| 0 <= k < |reader| && reader[k] == r;
  }

  ghost predicate FieldReads(reader: seq<Field>, w: Field, m: Msg) {
    w.slot in m ==>
      && LengthsFit(w, Emitted(w, m[w.slot]))
      && (match Find(reader, w.tag)
          case None => true
          case Some(r) => AllRead(r, w, Emitted(w, m[w.slot])))
  }

  lemma OneField(reader: seq<Field>, writer: seq<Field>, m: Msg, i: nat, rest: seq<byte>)
    requires WfFields(reader) && WfFields(writer) && Narrow(reader, writer)
    requires i < |writer| && Enc(writer, m).Some? && FieldReads(reader, writer[i], m)
    ensures EncField(writer[i], m).Some?
    ensures Run(reader, EncField(writer[i], m).value + rest, After(reader, m, Tags(writer[..i]), FixedAfter(reader, writer, m, i)))
         == Run(reader, rest, After(reader, m, Tags(writer[..i + 1]), FixedAfter(reader, writer, m, i + 1)))
  {
    hide EncField, Run, Want, SeenTags, NarrowField, LengthsFit, AllRead, Emitted, FixedProgress;
    var w := writer[i];
    var done := Tags(writer[..i]);
    EncAt(writer, m, i);
    FixedAfterComplete(reader, writer, m, i);
    TagsNext(writer, i);
    WfAt(writer, i);
    match Find(reader, w.tag)
    case None =>
      SkipWholeField(reader, w, m, rest, After(reader, m, done, FixedAfter(reader, writer, m, i)));
      forall f | f in reader
        ensures f.tag in done <==> f.tag in Tags(writer[..i + 1])
      {
      }
      WantSame(reader, m, done, Tags(writer[..i + 1]));
      SeenSame(reader, done, Tags(writer[..i + 1]));
    case Some(r) =>
      NarrowAt(reader, writer, i, r);
      var k :| 0 <= k < |reader| && reader[k] == r;
      WfAt(reader, k);
      KeptField(reader, r, w, m, done, FixedAfter(reader, writer, m, i), rest);
  }

  lemma SeenSame(reader: seq<Field>, done: set<nat>, done': set<nat>)
    requires forall f :: f in reader ==> (f.tag in done <==> f.tag in done')
    ensures SeenTags(reader, done) == SeenTags(reader, done')
  {
    forall i | 0 <= i < |reader|
      ensures reader[i].tag in done <==> reader[i].tag in done'
    {
      assert reader[i] in reader;
    }
  }

  lemma WfAt(fields: seq<Field>, i: nat)
    requires WfFields(fields) && i < |fields|
    ensures WfField(fields[i]) && 1 <= fields[i].tag < 0x2000_0000
  {
  }

  lemma TagsNext(fields: seq<Field>, i: nat)
    requires DistinctTags(fields) && i < |fields|
    ensures Tags(fields[..i + 1]) == Tags(fields[..i]) + {fields[i].tag}
    ensures fields[i].tag !in Tags(fields[..i])
  {
    var a, b := fields[..i], fields[..i + 1];
    forall t
      ensures t in Tags(b) <==> t in Tags(a) + {fields[i].tag}
    {
      if t in Tags(a) {
        var k :| 0 <= k < |a| && a[k].tag == t;
        assert b[k].tag == t;
      }
      if t == fields[i].tag {
        assert b[i].tag == t;
      }
      if t in Tags(b) {
        var k :| 0 <= k < |b| && b[k].tag == t;
        assert k < i ==> a[k].tag == t;
      }
    }
  }

  lemma StartState(reader: seq<Field>, writer: seq<Field>, m: Msg)
    requires DistinctSlots(reader)
    ensures After(reader, m, Tags(writer[..0]), FixedAfter(reader, writer, m, 0)) == State(Defaults(reader), {}, None)
  {
    assert Tags(writer[..0]) == {};
    WantNothing(reader, m);
  }

  /** The loop reaches every field of the writer with exactly the fields before it received. */
  lemma {:induction false} FieldsTrip(reader: seq<Field>, writer: seq<Field>, m: Msg, i: nat, rest: seq<byte>)
    requires WfFields(reader) && WfFields(writer) && Narrow(reader, writer)
    requires i <= |writer| && Enc(writer, m).Some?
    requires forall k :: 0 <= k < i ==> FieldReads(reader, writer[k], m)
    ensures Enc(writer[i..], m).Some?
    ensures Run(reader, Enc(writer, m).value + rest, State(Defaults(reader), {}, None))
         == Run(reader, Enc(writer[i..], m).value + rest,
                After(reader, m, Tags(writer[..i]), FixedAfter(reader, writer, m, i)))
    decreases i
  {
    hide EncField, Run, FieldReads, Narrow, FixedAfter, After, Tags, Defaults;
    if i == 0 {
      assert writer[0..] == writer;
      StartState(reader, writer, m);
    } else {
      FieldsTrip(reader, writer, m, i - 1, rest);
      EncAt(writer, m, i - 1);
      var a, b := EncField(writer[i - 1], m).value, Enc(writer[i..], m).value;
      assert (a + b) + rest == a + (b + rest);
      OneField(reader, writer, m, i - 1, b + rest);
    }
  }

  /** The reader's state after a whole message. */
  function Final(reader: seq<Field>, writer: seq<Field>, m: Msg): State
    requires DistinctSlots(reader)
  {
    After(reader, m, Tags(writer[..|writer|]), FixedAfter(reader, writer, m, |writer|))
  }

  lemma ReaderTags(reader: seq<Field>, writer: seq<Field>)
    requires Narrow(reader, writer)
    ensures forall f :: f in reader ==> f.tag in Tags(writer[..|writer|])
  {
    hide NarrowField;
    assert writer[..|writer|] == writer;
    forall f | f in reader
      ensures f.tag in Tags(writer)
    {
      var i :| 0 <= i < |reader| && reader[i] == f;
      var w := Find(writer, f.tag).value;
      var k :| 0 <= k < |writer| && writer[k] == w;
      assert writer[k].tag == f.tag;
    }
  }

  lemma {:induction false} FinalIsFinished(reader: seq<Field>, writer: seq<Field>, m: Msg)
    requires WfFields(reader) && WfFields(writer) && Narrow(reader, writer) && Enc(writer, m).Some?
    ensures Finished(reader, Final(reader, writer, m))
    ensures Final(reader, writer, m).m == NormMsg(reader, m)
  {
    hide WfField, WantSlot, Narrow, Enc, FixedAfter, Tags, Want;
    ReaderTags(reader, writer);
    var done := Tags(writer[..|writer|]);
    forall f | f in reader
      ensures f.tag in done <==> f.tag in Tags(reader)
    {
      TagsHas(reader, f);
    }
    WantSame(reader, m, done, Tags(reader));
    FixedAfterComplete(reader, writer, m, |writer|);
    forall i | 0 <= i < |reader| && reader[i].htype.Required?
      ensures reader[i].tag in SeenTags(reader, done)
    {
      assert reader[i] in reader;
    }
  }

  lemma TagsHas(fields: seq<Field>, f: Field)
    requires f in fields
    ensures f.tag in Tags(fields)
  {
    var i :| 0 <= i < |fields| && fields[i] == f;
    assert fields[i].tag == f.tag;
  }

  lemma NothingLeft(m: Msg, rest: seq<byte>)
    ensures Enc([], m) == Some([]) && [] + rest == rest
  {
  }

  /** The field loop on an encoded message, whatever follows it, at every nesting depth. */
  lemma {:induction false} MessageTrip(reader: seq<Field>, writer: seq<Field>, m: Msg, rest: seq<byte>)
    requires WfFields(reader) && WfFields(writer) && Narrow(reader, writer)
    requires Enc(writer, m).Some? && Readable(reader, writer, m)
    ensures Run(reader, Enc(writer, m).value + rest, State(Defaults(reader), {}, None))
         == Run(reader, rest, Final(reader, writer, m))
    decreases reader, 1
  {
    hide Run, Enc, EncField, FixedAfter, After, Defaults;
    forall k | 0 <= k < |writer|
      ensures FieldReads(reader, writer[k], m)
    {
      FieldTrip(reader, writer, m, k);
    }
    FieldsTrip(reader, writer, m, |writer|, rest);
    assert writer[|writer|..] == [];
    NothingLeft(m, rest);
  }

  lemma {:induction false} FieldTrip(reader: seq<Field>, writer: seq<Field>, m: Msg, k: nat)
    requires WfFields(reader) && WfFields(writer) && Narrow(reader, writer)
    requires Enc(writer, m).Some? && k < |writer| && ReadableField(reader, writer[k], m)
    ensures FieldReads(reader, writer[k], m)
    decreases reader, 0
  {
    hide Run, Enc, EncField, Reads, EncVal, LengthsFit, Emitted, NarrowField, ReadableValue, WfField;
    var w := writer[k];
    EncAt(writer, m, k);
    WfAt(writer, k);
    var items := Emitted(w, m[w.slot]);
    match Find(reader, w.tag)
    case None =>
    case Some(r) =>
      NarrowAt(reader, writer, k, r);
      var j :| 0 <= j < |reader| && reader[j] == r;
      WfAt(reader, j);
      forall i | 0 <= i < |items|
        ensures Reads(r, w, items[i])
      {
        ItemEncodes(w, m, i);
        ValueTrip(r, w, items[i]);
      }
  }

  lemma {:induction false} ItemsEncode(f: Field, items: seq<Value>, i: nat)
    requires i < |items|
    requires EncItems(f, items).Some? || EncPayload(f, items).Some?
    ensures EncVal(f, items[i]).Some?
    decreases i
  {
    hide EncVal;
    if i > 0 {
      ItemsEncode(f, items[1..], i - 1);
    }
  }

  lemma ItemEncodes(f: Field, m: Msg, i: nat)
    requires EncField(f, m).Some? && i < |Emitted(f, m[f.slot])|
    requires LengthsFit(f, Emitted(f, m[f.slot]))
    ensures var v := Emitted(f, m[f.slot])[i];
      && EncVal(f, v).Some?
      && (f.ltype.LSubmessage? ==> v.VMsg? && Enc(f.ltype.ptr, v.msg).Some? && |Enc(f.ltype.ptr, v.msg).value| < TWO_32)
  {
    hide EncVal, EncField, Emitted, EncItems, EncPayload, Enc;
    FieldForm(f, m);
    var items := Emitted(f, m[f.slot]);
    ItemsEncode(f, items, i);
    if f.ltype.LSubmessage? {
      SubmessageData(f, items[i]);
    }
  }

  lemma {:induction false} ValueTrip(r: Field, w: Field, v: Value)
    requires NarrowField(r, w) && WfField(r) && WfField(w) && EncVal(w, v).Some? && ReadableValue(r, w, v)
    requires w.ltype.LSubmessage? ==> v.VMsg? && Enc(w.ltype.ptr, v.msg).Some? && |Enc(w.ltype.ptr, v.msg).value| < TWO_32
    ensures Reads(r, w, v)
    decreases r, 2
  {
    if r.ltype.LSubmessage? {
      SubmessageTrip(r, w, v);
    } else {
      forall rest: seq<byte>, prev: Value | FreshPrev(r, prev)
        ensures DecVal(r, EncVal(w, v).value + rest, prev) == Ok(NormVal(r, v), rest)
      {
        SameScalar(r, w, v);
        ScalarRoundTrip(r, v, rest);
      }
    }
  }

  lemma SameScalar(r: Field, w: Field, v: Value)
    requires NarrowField(r, w) && !r.ltype.LSubmessage?
    ensures EncVal(r, v) == EncVal(w, v)
  {
  }

  lemma {:induction false} SubmessageTrip(r: Field, w: Field, v: Value)
    requires r.ltype.LSubmessage? && NarrowField(r, w) && WfField(r) && WfField(w) && EncVal(w, v).Some?
    requires v.VMsg? && Enc(w.ltype.ptr, v.msg).Some? && |Enc(w.ltype.ptr, v.msg).value| < TWO_32
    requires ReadableValue(r, w, v)
    ensures Reads(r, w, v)
    decreases r, 1
  {
    hide EncString, DecString, Enc, Defaults, Run, Finished, NormMsg, Final, Readable;
    var body := Enc(w.ltype.ptr, v.msg).value;
    SubmessageData(w, v);
    MessageTrip(r.ltype.ptr, w.ltype.ptr, v.msg, []);
    assert body + [] == body;
    FinalIsFinished(r.ltype.ptr, w.ltype.ptr, v.msg);
    EndOfBytes(r.ltype.ptr, Final(r.ltype.ptr, w.ltype.ptr, v.msg));
    forall rest: seq<byte>, prev: Value | FreshPrev(r, prev)
      ensures DecVal(r, EncVal(w, v).value + rest, prev) == Ok(NormVal(r, v), rest)
    {
      StringRoundTrip(body, rest);
    }
  }

  lemma EndOfBytes(reader: seq<Field>, st: State)
    ensures Run(reader, [], st) == Ok(st, [])
  {
  }

  // ---------------------------------------------------------------- main results

  /**
    Unknown-field skipping is projection: a reader that lacks any of the writer's fields, at
    any depth, decodes exactly the restriction of the struct to the fields it has.
   */
  lemma DecodeProjects(reader: seq<Field>, writer: seq<Field>, m: Msg)
    requires WfFields(reader) && WfFields(writer) && Narrow(reader, writer)
    requires Enc(writer, m).Some? && Readable(reader, writer, m)
    ensures Decode(reader, Enc(writer, m).value) == Ok(NormMsg(reader, m), [])
  {
    hide Enc, Defaults, Run, Finished, NormMsg, Final, Readable;
    var bytes := Enc(writer, m).value;
    MessageTrip(reader, writer, m, []);
    assert bytes + [] == bytes;
    FinalIsFinished(reader, writer, m);
    EndOfBytes(reader, Final(reader, writer, m));
  }

  lemma {:induction false} NarrowRefl(fields: seq<Field>)
    requires WfFields(fields)
    ensures Narrow(fields, fields)
    decreases fields, 1
  {
    forall i | 0 <= i < |fields|
      ensures Find(fields, fields[i].tag) == Some(fields[i]) && NarrowField(fields[i], fields[i])
    {
      FindUnique(fields, fields[i]);
      NarrowFieldRefl(fields[i]);
    }
  }

  lemma {:induction false} NarrowFieldRefl(f: Field)
    requires WfField(f)
    ensures NarrowField(f, f)
    decreases f, 0
  {
    if f.ltype.LSubmessage? {
      NarrowRefl(f.ltype.ptr);
    }
  }

  /** The whole-message round trip: every struct comes back normalised and every byte is consumed. */
  lemma DecodeInvertsEncode(fields: seq<Field>, m: Msg)
    requires WfFields(fields) && Enc(fields, m).Some? && Readable(fields, fields, m)
    ensures Decode(fields, Enc(fields, m).value) == Ok(NormMsg(fields, m), [])
  {
    NarrowRefl(fields);
    DecodeProjects(fields, fields, m);
  }
}
