/**
  The round trip is exact: a struct that encodes is decoded again if and only if every
  string it sends is terminated inside its array and every length fits in 32 bits.
 */
module Unreadable {
  import opened Bytes
  import opened Varint
  import opened Wire
  import opened Message
  import opened EncodeSpec
  import opened DecodeSpec
  import opened Normal
  import opened ScalarTrip
  import opened RoundTrip

  /** The reader rejects the value, whatever follows it. */
  ghost predicate Rejects(r: Field, w: Field, v: Value) {
    && EncVal(w, v).Some?
    && forall rest: seq<byte>, prev: Value :: FreshPrev(r, prev) ==>
         DecVal(r, EncVal(w, v).value + rest, prev) == Err
  }

  lemma RejectsAt(r: Field, w: Field, v: Value, rest: seq<byte>, prev: Value)
    requires Rejects(r, w, v) && FreshPrev(r, prev)
    ensures DecVal(r, EncVal(w, v).value + rest, prev) == Err
  {
  }

  /** A single value that no reader gets back: see `Rejects`. */
  predicate BadLength(w: Field, v: Value) {
    && w.ltype.LSubmessage? && v.VMsg?
    && (var body := Enc(w.ltype.ptr, v.msg); body.Some? && |body.value| >= TWO_32)
  }

  lemma SkipFails(f: Field, v: Value, rest: seq<byte>)
    requires BadLength(f, v) && EncVal(f, v).Some? && |EncVal(f, v).value| < TWO_63
    ensures SkipField(WireType(f.ltype), EncVal(f, v).value + rest) == Err
  {
    hide DecString, EncString, Enc;
    StringRoundTrip(Enc(f.ltype.ptr, v.msg).value, rest);
  }

  // ---------------------------------------------------------------- fields

  lemma {:induction false} SkipItemsFail(reader: seq<Field>, f: Field, items: seq<Value>, j: nat, rest: seq<byte>, st: State)
    requires WfField(f) && Find(reader, f.tag).None? && EncItems(f, items).Some? && |EncItems(f, items).value| < TWO_63
    requires j < |items| && BadLength(f, items[j]) && forall i :: 0 <= i < j ==> !BadLength(f, items[i])
    ensures Run(reader, EncItems(f, items).value + rest, st) == Err
    decreases j
  {
    hide EncVal, EncTag, Run, SkipField, Enc, EncString;
    ItemsHead(f, items);
    SubmessageData(f, items[0]);
    var t := EncTag(WireType(f.ltype), f.tag);
    var d, o := EncVal(f, items[0]).value, EncItems(f, items[1..]).value;
    assert (t + (d + o)) + rest == t + (d + (o + rest));
    TagInRange(f);
    if j == 0 {
      SkipFails(f, items[0], o + rest);
      RunRecord(reader, WireType(f.ltype), f.tag, d + (o + rest), st);
    } else {
      assert !BadLength(f, items[0]);
      SkipRecord(reader, f, items[0], o + rest, st);
      assert items[1..][j - 1] == items[j];
      SkipItemsFail(reader, f, items[1..], j - 1, rest, st);
    }
  }

  lemma {:induction false} ItemsFail(reader: seq<Field>, r: Field, w: Field, items: seq<Value>, m: Msg, done: set<nat>,
                                     fixed: Option<Progress>, k: nat, j: nat, rest: seq<byte>)
    requires WfFields(reader) && Find(reader, r.tag) == Some(r) && NarrowField(r, w) && WfField(r) && IsArray(r)
    requires k <= j < |items| <= r.arraySize && (r.htype.FixedCount? ==> |items| == r.arraySize)
    requires fixed.Some? ==> fixed.value.tag != r.tag && fixed.value.size == fixed.value.full
    requires !Packable(r.ltype) && EncItems(w, items[k..]).Some?
    requires Rejects(r, w, items[j]) && forall i :: k <= i < j ==> Reads(r, w, items[i])
    ensures Run(reader, EncItems(w, items[k..]).value + rest, Filling(reader, r, items, m, done, fixed, k)) == Err
    decreases j - k
  {
    hide EncVal, DecVal, NormVal, Filling, Step, Run, Reads, EncTag, WfField, Rejects;
    ItemsHead(w, items[k..]);
    assert items[k..][1..] == items[k + 1..];
    var t := EncTag(WireType(w.ltype), w.tag);
    var d, o := EncVal(w, items[k]).value, EncItems(w, items[k + 1..]).value;
    assert (t + (d + o)) + rest == t + (d + (o + rest));
    TagInRange(r);
    NarrowWire(r, w);
    Embedded(r);
    RunRecord(reader, WireType(w.ltype), r.tag, d + (o + rest), Filling(reader, r, items, m, done, fixed, k));
    InitIsFresh(r);
    if k == j {
      RejectsAt(r, w, items[k], o + rest, VNone);
      ItemRejected(reader, r, items, m, done, fixed, k, WireType(w.ltype), d + (o + rest));
    } else {
      ReadsAt(r, w, items[k], o + rest, VNone);
      var v := NormVal(r, items[k]);
      assert NormVals(r, items[k..k + |[v]|]) == [v];
      ItemsStep(reader, r, items, m, done, fixed, k, [v], WireType(w.ltype), d + (o + rest), o + rest);
      ItemsFail(reader, r, w, items, m, done, fixed, k + 1, j, rest);
    }
  }

  /** The number of items an array field already holds. */
  function Held(f: Field, st: State): nat {
    if f.htype.FixedCount? then (if st.fixed.Some? then st.fixed.value.size else 0)
    else if f.slot in st.m && st.m[f.slot].Rep? then |st.m[f.slot].items| else 0
  }

  lemma DecFieldRejects(reader: seq<Field>, r: Field, wt: nat, bs: seq<byte>, st: State)
    requires IsArray(r) && DecItems(r, wt, bs, Held(r, st)) == Err
    ensures DecField(reader, r, wt, bs, st) == Err
  {
    hide DecItems;
  }

  /** An array field whose next items cannot be decoded stops the reader. */
  lemma ArrayRejects(reader: seq<Field>, r: Field, wt: nat, bs: seq<byte>, st: State)
    requires Find(reader, r.tag) == Some(r) && IsArray(r)
    requires if wt == WT_STRING && Packable(r.ltype) then DecString(bs) == Err else DecVal(r, bs, VNone) == Err
    ensures Step(reader, r.tag, wt, bs, st) == Err
  {
    hide DecVal, DecString, DecField, DecPacked;
    var next := Enter(r, st);
    if next.Some? {
      assert DecItems(r, wt, bs, Held(r, next.value)) == Err;
      DecFieldRejects(reader, r, wt, bs, next.value);
    }
  }

  lemma ItemRejected(reader: seq<Field>, r: Field, items: seq<Value>, m: Msg, done: set<nat>, fixed: Option<Progress>,
                     k: nat, wt: nat, bs: seq<byte>)
    requires DistinctSlots(reader) && Find(reader, r.tag) == Some(r) && IsArray(r) && !Packable(r.ltype) && k <= |items|
    requires DecVal(r, bs, VNone) == Err
    ensures Step(reader, r.tag, wt, bs, Filling(reader, r, items, m, done, fixed, k)) == Err
  {
    hide DecVal, Want, SeenTags, Partial;
    PartialShape(r, items, k);
    ArrayRejects(reader, r, wt, bs, Filling(reader, r, items, m, done, fixed, k));
  }

  lemma SingleRejected(reader: seq<Field>, r: Field, w: Field, v: Value, m: Msg, rest: seq<byte>, done: set<nat>, fixed: Option<Progress>)
    requires WfFields(reader) && Find(reader, w.tag) == Some(r) && NarrowField(r, w) && !IsArray(w) && WfField(r)
    requires w.slot in m && Emitted(w, m[w.slot]) == [v] && w.tag !in done && Rejects(r, w, v)
    ensures Step(reader, w.tag, WireType(w.ltype), EncVal(w, v).value + rest, After(reader, m, done, fixed)) == Err
  {
    hide NormVal, EncVal, DecVal, WantSlot, SeenTags, InitValue, Want;
    SingleSlot(reader, r, w, v, m, done);
    WantAt(reader, r, m, done);
    InitIsFresh(r);
    RejectsAt(r, w, v, rest, if r.htype.Oneof? then VNone else InitValue(r));
  }

  /** A value that can be received: its strings are terminated and its lengths fit. */
  predicate Receivable(r: Field, w: Field, v: Value) {
    ReadableValue(r, w, v) && !BadLength(w, v)
  }

  /** Each item is either read back or rejected, according to `Receivable`. */
  ghost predicate Decided(r: Field, w: Field, items: seq<Value>) {
    forall i :: 0 <= i < |items| ==> if Receivable(r, w, items[i]) then Reads(r, w, items[i]) else Rejects(r, w, items[i])
  }

  lemma PackedFails(reader: seq<Field>, w: Field, m: Msg, payload: seq<byte>, rest: seq<byte>, done: set<nat>, fixed: Option<Progress>)
    requires WfFields(reader) && WfField(w) && IsArray(w) && Packable(w.ltype) && TWO_32 <= |payload| < TWO_63
    requires Find(reader, w.tag).Some? ==> NarrowField(Find(reader, w.tag).value, w)
    ensures Run(reader, EncTag(WT_STRING, w.tag) + EncString(payload) + rest, After(reader, m, done, fixed)) == Err
  {
    hide EncTag, EncString, DecString, Run, WfField, Want, SeenTags;
    var t := EncTag(WT_STRING, w.tag);
    assert (t + EncString(payload)) + rest == t + (EncString(payload) + rest);
    TagInRange(w);
    RunRecord(reader, WT_STRING, w.tag, EncString(payload) + rest, After(reader, m, done, fixed));
    StringRoundTrip(payload, rest);
    match Find(reader, w.tag)
    case None =>
    case Some(r) =>
      NarrowWire(r, w);
      ArrayRejects(reader, r, WT_STRING, EncString(payload) + rest, After(reader, m, done, fixed));
  }

  function FirstBad(w: Field, items: seq<Value>): (j: nat)
    requires exists i :: 0 <= i < |items| && BadLength(w, items[i])
    ensures j < |items| && BadLength(w, items[j]) && forall i :: 0 <= i < j ==> !BadLength(w, items[i])
  {
    if BadLength(w, items[0]) then 0 else 1 + FirstBad(w, items[1..])
  }

  function FirstUnreceivable(r: Field, w: Field, items: seq<Value>): (j: nat)
    requires exists i :: 0 <= i < |items| && !Receivable(r, w, items[i])
    ensures j < |items| && !Receivable(r, w, items[j]) && forall i :: 0 <= i < j ==> Receivable(r, w, items[i])
  {
    if !Receivable(r, w, items[0]) then 0 else 1 + FirstUnreceivable(r, w, items[1..])
  }

  /** Why a field cannot be read. */
  lemma WhyUnreadable(reader: seq<Field>, w: Field, m: Msg)
    requires EncField(w, m).Some? && w.slot in m && !ReadableField(reader, w, m)
    ensures var items := Emitted(w, m[w.slot]);
      if IsArray(w) && Packable(w.ltype) && |items| > 0 then
        EncPayload(w, items).Some? && |EncPayload(w, items).value| >= TWO_32
      else match Find(reader, w.tag)
        case None => exists i :: 0 <= i < |items| && BadLength(w, items[i])
        case Some(r) => exists i :: 0 <= i < |items| && !Receivable(r, w, items[i])
  {
    hide EncField, EncItems, Emitted, Enc, Readable;
    FieldForm(w, m);
    var items := Emitted(w, m[w.slot]);
    if !LengthsFit(w, items) && w.ltype.LSubmessage? {
      var i :| 0 <= i < |items| && items[i].VMsg? && Enc(w.ltype.ptr, items[i].msg).Some? && |Enc(w.ltype.ptr, items[i].msg).value| >= TWO_32;
      assert BadLength(w, items[i]);
    }
  }

  lemma KeptFails(reader: seq<Field>, r: Field, w: Field, m: Msg, done: set<nat>, fixed: Option<Progress>, rest: seq<byte>)
    requires WfFields(reader) && Find(reader, w.tag) == Some(r) && NarrowField(r, w) && WfField(r)
    requires EncField(w, m).Some? && w.slot in m && w.tag !in done
    requires fixed.Some? ==> fixed.value.tag != w.tag && fixed.value.size == fixed.value.full
    requires var items := Emitted(w, m[w.slot]);
      && !(IsArray(w) && Packable(w.ltype) && |items| > 0)
      && Decided(r, w, items) && exists i :: 0 <= i < |items| && !Receivable(r, w, items[i])
    ensures Run(reader, EncField(w, m).value + rest, After(reader, m, done, fixed)) == Err
  {
    hide EncVal, DecVal, NormVal, Filling, Step, Run, EncTag, EncString, WfField, EncField, Want, SeenTags, WantSlot,
      Receivable, Reads, Rejects, NarrowField;
    FieldForm(w, m);
    NarrowWire(r, w);
    TagInRange(r);
    var items := Emitted(w, m[w.slot]);
    var j := FirstUnreceivable(r, w, items);
    if IsArray(w) {
      ArrayForm(r, w, m);
      FillingEnds(reader, r, items, m, done, fixed);
      assert items[0..] == items;
      ItemsFail(reader, r, w, items, m, done, fixed, 0, j, rest);
    } else {
      var v := items[0];
      ItemsHead(w, items);
      var t, d := EncTag(WireType(w.ltype), w.tag), EncVal(w, v).value;
      assert EncItems(w, items[1..]).value == [];
      assert (t + (d + [])) + rest == t + (d + rest);
      RunRecord(reader, WireType(w.ltype), w.tag, d + rest, After(reader, m, done, fixed));
      SingleRejected(reader, r, w, v, m, rest, done, fixed);
    }
  }

  /** At a field that cannot be read the loop stops with an error. */
  lemma FieldFails(reader: seq<Field>, writer: seq<Field>, m: Msg, k: nat, rest: seq<byte>)
    requires WfFields(reader) && WfFields(writer) && Narrow(reader, writer) && Enc(writer, m).Some? && k < |writer|
    requires EncField(writer[k], m).Some? && |EncField(writer[k], m).value| < TWO_63 && writer[k].slot in m
    requires !ReadableField(reader, writer[k], m)
    requires match Find(reader, writer[k].tag)
      case None => true
      case Some(r) => Decided(r, writer[k], Emitted(writer[k], m[writer[k].slot]))
    ensures Run(reader, EncField(writer[k], m).value + rest,
                After(reader, m, Tags(writer[..k]), FixedAfter(reader, writer, m, k))) == Err
  {
    hide EncField, Run, Want, SeenTags, NarrowField, Emitted, FixedProgress, EncVal, EncPayload, Enc, EncTag, EncString,
      After, Tags, FixedAfter, WfField, BadLength, Decided, Receivable, ReadableField, EncItems;
    var w := writer[k];
    var done, fixed := Tags(writer[..k]), FixedAfter(reader, writer, m, k);
    FixedAfterComplete(reader, writer, m, k);
    TagsNext(writer, k);
    WfAt(writer, k);
    FieldForm(w, m);
    WhyUnreadable(reader, w, m);
    var items := Emitted(w, m[w.slot]);
    if Find(reader, w.tag).Some? {
      NarrowAt(reader, writer, k, Find(reader, w.tag).value);
    }
    if IsArray(w) && Packable(w.ltype) && |items| > 0 {
      PayloadShorter(EncTag(WT_STRING, w.tag), EncPayload(w, items).value);
      PackedFails(reader, w, m, EncPayload(w, items).value, rest, done, fixed);
    } else {
      match Find(reader, w.tag)
      case None =>
        SkipItemsFail(reader, w, items, FirstBad(w, items), rest, After(reader, m, done, fixed));
      case Some(r) =>
        var i :| 0 <= i < |reader| && reader[i] == r;
        WfAt(reader, i);
        KeptFails(reader, r, w, m, done, fixed, rest);
    }
  }

  lemma PayloadShorter(tag: seq<byte>, payload: seq<byte>)
    ensures |payload| < |tag + EncString(payload)|
  {
  }

  // ---------------------------------------------------------------- messages

  function FirstUnreadable(reader: seq<Field>, writer: seq<Field>, m: Msg): (k: nat)
    requires exists i :: 0 <= i < |writer| && !ReadableField(reader, writer[i], m)
    ensures k < |writer| && !ReadableField(reader, writer[k], m)
    ensures forall i :: 0 <= i < k ==> ReadableField(reader, writer[i], m)
  {
    if !ReadableField(reader, writer[0], m) then 0 else 1 + FirstUnreadable(reader, writer[1..], m)
  }

  lemma {:induction false} EncShorter(fields: seq<Field>, m: Msg, k: nat)
    requires k < |fields| && Enc(fields, m).Some? && EncField(fields[k], m).Some?
    ensures |EncField(fields[k], m).value| <= |Enc(fields, m).value|
    decreases k
  {
    hide EncField;
    if k > 0 {
      EncShorter(fields[1..], m, k - 1);
    }
  }

  lemma {:induction false} MessageFails(reader: seq<Field>, writer: seq<Field>, m: Msg, rest: seq<byte>)
    requires WfFields(reader) && WfFields(writer) && Narrow(reader, writer)
    requires Enc(writer, m).Some? && |Enc(writer, m).value| < TWO_63 && !Readable(reader, writer, m)
    ensures Run(reader, Enc(writer, m).value + rest, State(Defaults(reader), {}, None)) == Err
    decreases reader, 1
  {
    hide Run, Enc, EncField, FixedAfter, After, Defaults, ReadableField, FieldReads, NarrowField, WfField, Tags;
    var k := FirstUnreadable(reader, writer, m);
    forall i | 0 <= i < k
      ensures FieldReads(reader, writer[i], m)
    {
      FieldTrip(reader, writer, m, i);
    }
    FieldsTrip(reader, writer, m, k, rest);
    EncAt(writer, m, k);
    EncShorter(writer, m, k);
    FieldDecided(reader, writer, m, k);
    var a, b := EncField(writer[k], m).value, Enc(writer[k + 1..], m).value;
    assert (a + b) + rest == a + (b + rest);
    FieldFails(reader, writer, m, k, b + rest);
  }

  lemma {:induction false} ItemShorter(f: Field, items: seq<Value>, i: nat)
    requires i < |items| && EncItems(f, items).Some? && EncVal(f, items[i]).Some?
    ensures |EncVal(f, items[i]).value| <= |EncItems(f, items).value|
    decreases i
  {
    hide EncVal;
    if i > 0 {
      ItemShorter(f, items[1..], i - 1);
    }
  }

  lemma {:induction false} PayloadItemShorter(f: Field, items: seq<Value>, i: nat)
    requires i < |items| && EncPayload(f, items).Some? && EncVal(f, items[i]).Some?
    ensures |EncVal(f, items[i]).value| <= |EncPayload(f, items).value|
    decreases i
  {
    hide EncVal;
    if i > 0 {
      PayloadItemShorter(f, items[1..], i - 1);
    }
  }

  lemma EmittedShorter(f: Field, m: Msg, i: nat)
    requires EncField(f, m).Some? && i < |Emitted(f, m[f.slot])|
    ensures EncVal(f, Emitted(f, m[f.slot])[i]).Some?
    ensures |EncVal(f, Emitted(f, m[f.slot])[i]).value| <= |EncField(f, m).value|
  {
    hide EncVal, EncField, Emitted, EncItems, EncPayload;
    FieldForm(f, m);
    var items := Emitted(f, m[f.slot]);
    ItemsEncode(f, items, i);
    if EncItems(f, items) == EncField(f, m) {
      ItemShorter(f, items, i);
    } else {
      PayloadItemShorter(f, items, i);
      PayloadShorter(EncTag(WT_STRING, f.tag), EncPayload(f, items).value);
    }
  }

  lemma {:induction false} FieldDecided(reader: seq<Field>, writer: seq<Field>, m: Msg, k: nat)
    requires WfFields(reader) && WfFields(writer) && Narrow(reader, writer) && k < |writer|
    requires EncField(writer[k], m).Some? && |EncField(writer[k], m).value| < TWO_63
    ensures writer[k].slot in m
    ensures match Find(reader, writer[k].tag)
      case None => true
      case Some(r) => Decided(r, writer[k], Emitted(writer[k], m[writer[k].slot]))
    decreases reader, 0
  {
    hide EncField, Enc, EncVal, Emitted, NarrowField, WfField, Receivable, Reads, Rejects;
    var w := writer[k];
    FieldForm(w, m);
    WfAt(writer, k);
    var items := Emitted(w, m[w.slot]);
    match Find(reader, w.tag)
    case None =>
    case Some(r) =>
      NarrowAt(reader, writer, k, r);
      var j :| 0 <= j < |reader| && reader[j] == r;
      WfAt(reader, j);
      forall i | 0 <= i < |items|
        ensures if Receivable(r, w, items[i]) then Reads(r, w, items[i]) else Rejects(r, w, items[i])
      {
        EmittedShorter(w, m, i);
        ValueDecided(r, w, items[i]);
      }
  }

  lemma {:induction false} ValueDecided(r: Field, w: Field, v: Value)
    requires NarrowField(r, w) && WfField(r) && WfField(w) && EncVal(w, v).Some? && |EncVal(w, v).value| < TWO_63
    ensures if Receivable(r, w, v) then Reads(r, w, v) else Rejects(r, w, v)
    decreases r, 2
  {
    hide Reads, Run, Enc;
    if w.ltype.LSubmessage? {
      SubmessageData(w, v);
    }
    if Receivable(r, w, v) {
      ValueTrip(r, w, v);
    } else if r.ltype.LSubmessage? {
      SubmessageFails(r, w, v);
    } else {
      forall rest: seq<byte>, prev: Value | FreshPrev(r, prev)
        ensures DecVal(r, EncVal(w, v).value + rest, prev) == Err
      {
        SameScalar(r, w, v);
        ScalarRoundTrip(r, v, rest);
      }
    }
  }

  lemma {:induction false} SubmessageFails(r: Field, w: Field, v: Value)
    requires r.ltype.LSubmessage? && NarrowField(r, w) && WfField(r) && WfField(w)
    requires EncVal(w, v).Some? && |EncVal(w, v).value| < TWO_63 && !Receivable(r, w, v)
    ensures Rejects(r, w, v)
    decreases r, 1
  {
    hide EncString, DecString, Enc, Defaults, Run, Readable;
    var body := Enc(w.ltype.ptr, v.msg).value;
    SubmessageData(w, v);
    assert |body| < |EncString(body)| by {
      PayloadShorter([], body);
      assert [] + EncString(body) == EncString(body);
    }
    if |body| < TWO_32 {
      MessageFails(r.ltype.ptr, w.ltype.ptr, v.msg, []);
      assert body + [] == body;
    }
    forall rest: seq<byte>, prev: Value | FreshPrev(r, prev)
      ensures DecVal(r, EncVal(w, v).value + rest, prev) == Err
    {
      StringRoundTrip(body, rest);
    }
  }

  /**
    The exact condition for reading a message back, for every reader that is at most as wide as
    the writer: it decodes, to the restriction of the struct, if and only if it is readable.
   */
  lemma {:induction false} DecodeIffReadable(reader: seq<Field>, writer: seq<Field>, m: Msg)
    requires WfFields(reader) && WfFields(writer) && Narrow(reader, writer)
    requires Enc(writer, m).Some? && |Enc(writer, m).value| < TWO_63
    ensures Decode(reader, Enc(writer, m).value)
         == if Readable(reader, writer, m) then Ok(NormMsg(reader, m), []) else Err
  {
    hide Enc, Defaults, Run, Finished, NormMsg, Readable;
    if Readable(reader, writer, m) {
      DecodeProjects(reader, writer, m);
    } else {
      MessageFails(reader, writer, m, []);
      assert Enc(writer, m).value + [] == Enc(writer, m).value;
    }
  }
}
