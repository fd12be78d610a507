/**
  A field that is not an array may occur several times: of scalars, and of the members of a
  union, the last one stands; the parts of an embedded submessage are merged.
 */
module Repeats {
  import opened Bytes
  import opened Varint
  import opened Wire
  import opened Message
  import opened EncodeSpec
  import opened DecodeSpec
  import opened RoundTrip
  import opened Merge

  /** The storage has the shape of the field; a union holds nothing or a member that the table knows. */
  predicate Shaped(fields: seq<Field>, f: Field, m: Msg) {
    && f.slot in m && !IsArray(f)
    && (f.htype.Required? || f.htype.Singular? ==> m[f.slot].One?)
    && (f.htype.Optional? ==> m[f.slot].Opt?)
    && (f.htype.Oneof? ==> m[f.slot].Union? && (m[f.slot].which == 0 || Find(fields, m[f.slot].which).Some?))
  }

  /** What the storage holds for the field: nothing, if it is a pointer or the union has another member. */
  function Held(f: Field, m: Msg): Value {
    if f.layout.pointer || f.slot !in m then VNone
    else match m[f.slot]
      case One(v) => v
      case Opt(_, v) => v
      case Union(which, v) => if which == f.tag then v else VNone
      case _ => VNone
  }

  /** The struct with a value stored for the field. */
  function Holding(f: Field, m: Msg, v: Value): Msg {
    m[f.slot := if f.htype.Optional? then Opt(1, v) else if f.htype.Oneof? then Union(f.tag, v) else One(v)]
  }

  /** After a record of the field. */
  function Having(f: Field, st: State, v: Value): State {
    st.(m := Holding(f, st.m, v), seen := if f.htype.Required? then st.seen + {f.tag} else st.seen)
  }

  /** One record of a single field. */
  lemma RunSingle(fields: seq<Field>, f: Field, wt: nat, bs: seq<byte>, st: State)
    requires wt < 8 && 1 <= f.tag < 0x2000_0000 && Find(fields, f.tag) == Some(f) && Shaped(fields, f, st.m)
    ensures var r := DecVal(f, bs, Held(f, st.m));
      Run(fields, EncTag(wt, f.tag) + bs, st) == if r.Ok? then Run(fields, r.rest, Having(f, st, r.val)) else Err
  {
    hide DecVal, Run, EncTag;
    RunRecord(fields, wt, f.tag, bs, st);
  }

  /** A union that claims a member the table does not know is not decoded over. */
  lemma StrangeMember(fields: seq<Field>, f: Field, wt: nat, bs: seq<byte>, st: State)
    requires wt < 8 && 1 <= f.tag < 0x2000_0000 && Find(fields, f.tag) == Some(f) && f.htype.Oneof?
    requires f.slot in st.m && st.m[f.slot].Union? && !Shaped(fields, f, st.m)
    ensures Run(fields, EncTag(wt, f.tag) + bs, st) == Err
  {
    hide DecVal, Run, EncTag;
    RunRecord(fields, wt, f.tag, bs, st);
  }

  /** Data that is one whole value is read as that value, whatever follows it and whatever was there, unless it is merged. */
  lemma WholeValue(f: Field, data: seq<byte>, v: Value, rest: seq<byte>, prev: Value)
    requires DecVal(f, data, VNone) == Ok(v, []) && (f.ltype.LSubmessage? ==> prev == VNone)
    ensures DecVal(f, data + rest, prev) == Ok(v, rest)
  {
    hide DecMsg, DecScalar;
    ValueExtends(f, data, VNone, rest);
    assert [] + rest == rest;
  }

  /** The last record stands: one before it makes no difference, to a scalar and to anything by pointer. */
  lemma LastStands(fields: seq<Field>, f: Field, wt: nat, a: seq<byte>, b: seq<byte>, v: Value, st: State)
    requires wt < 8 && 1 <= f.tag < 0x2000_0000 && Find(fields, f.tag) == Some(f) && Shaped(fields, f, st.m)
    requires !f.ltype.LSubmessage? || f.layout.pointer
    requires DecVal(f, a, VNone) == Ok(v, [])
    ensures Run(fields, EncTag(wt, f.tag) + (a + (EncTag(wt, f.tag) + b)), st) == Run(fields, EncTag(wt, f.tag) + b, st)
  {
    hide DecVal, Run, EncTag;
    RunSingle(fields, f, wt, a + (EncTag(wt, f.tag) + b), st);
    WholeValue(f, a, v, EncTag(wt, f.tag) + b, Held(f, st.m));
    var st1 := Having(f, st, v);
    RunSingle(fields, f, wt, b, st1);
    RunSingle(fields, f, wt, b, st);
    SameWithout(f, b, Held(f, st1.m), Held(f, st.m));
    if DecVal(f, b, Held(f, st.m)).Ok? {
      var w := DecVal(f, b, Held(f, st.m)).val;
      assert Holding(f, Holding(f, st.m, v), w) == Holding(f, st.m, w);
    }
  }

  lemma SameWithout(f: Field, bs: seq<byte>, p: Value, q: Value)
    requires !f.ltype.LSubmessage? || p == q
    ensures DecVal(f, bs, p) == DecVal(f, bs, q)
  {
  }

  /** Another member of the union replaces what was there, and starts afresh. */
  lemma MemberReplaces(fields: seq<Field>, g: Field, f: Field, wt: nat, wt': nat, a: seq<byte>, b: seq<byte>, v: Value, w: Value, rest: seq<byte>, st: State)
    requires wt < 8 && wt' < 8 && 1 <= f.tag < 0x2000_0000 && 1 <= g.tag < 0x2000_0000
    requires Find(fields, f.tag) == Some(f) && Find(fields, g.tag) == Some(g) && Shaped(fields, g, st.m)
    requires f.htype.Oneof? && g.htype.Oneof? && f.slot == g.slot && f.tag != g.tag
    requires DecVal(g, a, Held(g, st.m)) == Ok(v, []) && DecVal(f, b, VNone) == Ok(w, [])
    ensures Run(fields, EncTag(wt, g.tag) + (a + (EncTag(wt', f.tag) + (b + rest))), st) == Run(fields, rest, st.(m := st.m[f.slot := Union(f.tag, w)]))
  {
    hide DecVal, Run, EncTag;
    var more := EncTag(wt', f.tag) + (b + rest);
    RunSingle(fields, g, wt, a + more, st);
    ValueExtends(g, a, Held(g, st.m), more);
    assert [] + more == more;
    var st1 := Having(g, st, v);
    RunSingle(fields, f, wt', b + rest, st1);
    WholeValue(f, b, w, rest, VNone);
    assert st.m[f.slot := Union(g.tag, v)][f.slot := Union(f.tag, w)] == st.m[f.slot := Union(f.tag, w)];
  }

  // ---------------------------------------------------------------- submessages in parts

  /** What an embedded submessage is decoded on top of. */
  function Under(f: Field, m: Msg): Msg
    requires f.ltype.LSubmessage?
  {
    if Held(f, m).VMsg? then Held(f, m).msg else Defaults(f.ltype.ptr)
  }

  /** The second part starts with the fixed-count array that the first one has filled. */
  predicate Clash(fields: seq<Field>, x: seq<byte>, y: seq<byte>, m: Msg) {
    var first := Run(fields, x, State(m, {}, None));
    first.Ok? && Overfills(fields, first.val.fixed, FirstFixed(fields, y, State(first.val.m, {}, None)))
  }

  lemma BodyRecord(fields: seq<Field>, f: Field, body: seq<byte>, rest: seq<byte>, st: State)
    requires 1 <= f.tag < 0x2000_0000 && Find(fields, f.tag) == Some(f) && Shaped(fields, f, st.m)
    requires f.ltype.LSubmessage? && |body| < TWO_32
    ensures var r := DecMsg(f.ltype.ptr, body, Under(f, st.m));
      Run(fields, EncTag(WT_STRING, f.tag) + (EncString(body) + rest), st) ==
        if r.Ok? then Run(fields, rest, Having(f, st, VMsg(r.val))) else Err
  {
    hide DecMsg, Run, EncTag, DecString, EncString, Held;
    RunSingle(fields, f, WT_STRING, EncString(body) + rest, st);
    StringRoundTrip(body, rest);
  }

  /**
    An embedded submessage sent in two records is the one whose encoding is the two joined, unless
    the parts clash over a fixed-count array, when the joined one is refused.
   */
  lemma PartsMerge(fields: seq<Field>, f: Field, x: seq<byte>, y: seq<byte>, rest: seq<byte>, st: State)
    requires 1 <= f.tag < 0x2000_0000 && Find(fields, f.tag) == Some(f) && Shaped(fields, f, st.m)
    requires f.ltype.LSubmessage? && !f.layout.pointer && |x + y| < TWO_32
    requires var base := Under(f, st.m);
      && RunsDry(f.ltype.ptr, x, State(base, {}, None)) && DecMsg(f.ltype.ptr, x, base).Ok?
      && DecMsg(f.ltype.ptr, y, DecMsg(f.ltype.ptr, x, base).val).Ok?
    ensures var key := EncTag(WT_STRING, f.tag);
      var joined := Run(fields, key + (EncString(x + y) + rest), st);
      if Clash(f.ltype.ptr, x, y, Under(f, st.m)) then joined == Err
      else Run(fields, key + (EncString(x) + (key + (EncString(y) + rest))), st) == joined
  {
    hide DecMsg, Run, EncTag, EncString, RunsDry, FirstFixed, Overfills;
    var ptr, base := f.ltype.ptr, Under(f, st.m);
    var more := EncTag(WT_STRING, f.tag) + (EncString(y) + rest);
    BodyRecord(fields, f, x, more, st);
    var mx := DecMsg(ptr, x, base).val;
    var st1 := Having(f, st, VMsg(mx));
    BodyRecord(fields, f, y, rest, st1);
    BodyRecord(fields, f, x + y, rest, st);
    var my := DecMsg(ptr, y, mx).val;
    assert Holding(f, Holding(f, st.m, VMsg(mx)), VMsg(my)) == Holding(f, st.m, VMsg(my));
    JoinedParts(ptr, x, y, base);
  }

  lemma JoinedParts(fields: seq<Field>, x: seq<byte>, y: seq<byte>, m: Msg)
    requires RunsDry(fields, x, State(m, {}, None)) && DecMsg(fields, x, m).Ok? && DecMsg(fields, y, DecMsg(fields, x, m).val).Ok?
    ensures if Clash(fields, x, y, m) then DecMsg(fields, x + y, m) == Err
      else DecMsg(fields, x + y, m) == DecMsg(fields, y, DecMsg(fields, x, m).val)
  {
    hide Run, RunsDry, FirstFixed, Overfills;
    ConcatIsMerge(fields, x, y, m);
  }
}
