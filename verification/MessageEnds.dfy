/**
  How a message begins and ends: the defaults that decoding starts from, the required fields
  it asks for at the end, and a table without fields.
 */
module MessageEnds {
  import opened Bytes
  import opened Varint
  import opened Wire
  import opened Message
  import opened EncodeSpec
  import opened DecodeSpec
  import opened RoundTrip

  // ---------------------------------------------------------------- required fields

  /** Only this many required fields are asked for. */
  predicate Tracked(fields: seq<Field>, i: nat)
    requires i < |fields|
  {
    fields[i].htype.Required? && RequiredIndex(fields, i) < 64
  }

  /** The tags of all records that are decoded or skipped. */
  function TagsMet(fields: seq<Field>, bs: seq<byte>, st: State): set<nat>
    decreases |bs|
  {
    match DecTag(bs)
    case Tag(tag, wt, after) =>
      (match Step(fields, tag, wt, after, st)
       case Ok(st', rest) => {tag} + TagsMet(fields, rest, st')
       case Err => {})
    case _ => {}
  }

  lemma StepSees(fields: seq<Field>, tag: nat, wt: nat, bs: seq<byte>, st: State, i: nat)
    requires DistinctTags(fields) && i < |fields| && fields[i].htype.Required? && Step(fields, tag, wt, bs, st).Ok?
    ensures fields[i].tag in Step(fields, tag, wt, bs, st).val.seen <==> fields[i].tag in st.seen || fields[i].tag == tag
  {
    hide DecVal, DecItems, SkipField, DecVarint32;
    if fields[i].tag == tag {
      FindUnique(fields, fields[i]);
    }
  }

  lemma {:induction false} RunSees(fields: seq<Field>, bs: seq<byte>, st: State, i: nat)
    requires DistinctTags(fields) && i < |fields| && fields[i].htype.Required? && Run(fields, bs, st).Ok?
    ensures fields[i].tag in Run(fields, bs, st).val.seen <==> fields[i].tag in st.seen || fields[i].tag in TagsMet(fields, bs, st)
    decreases |bs|
  {
    hide Step, DecTag;
    match DecTag(bs)
    case Tag(tag, wt, after) =>
      StepSees(fields, tag, wt, after, st, i);
      var next := Step(fields, tag, wt, after, st);
      RunSees(fields, next.rest, next.val, i);
    case _ =>
  }

  /**
    Bytes are a message exactly if every record can be decoded, the array of fixed size that came
    last is full, and each of the first 64 required fields occurs among the records.
   */
  lemma MessageIff(fields: seq<Field>, bs: seq<byte>, m: Msg)
    requires DistinctTags(fields)
    ensures var start := State(m, {}, None);
      var r := Run(fields, bs, start);
      DecMsg(fields, bs, m) ==
        if r.Ok? && (r.val.fixed.Some? ==> r.val.fixed.value.size == r.val.fixed.value.full)
           && forall i :: 0 <= i < |fields| && Tracked(fields, i) ==> fields[i].tag in TagsMet(fields, bs, start)
        then Ok(r.val.m, r.rest) else Err
  {
    hide Run, TagsMet;
    var start := State(m, {}, None);
    if Run(fields, bs, start).Ok? {
      forall i | 0 <= i < |fields| && fields[i].htype.Required?
        ensures fields[i].tag in Run(fields, bs, start).val.seen <==> fields[i].tag in TagsMet(fields, bs, start)
      {
        RunSees(fields, bs, start, i);
      }
    }
  }

  /** No bytes are a message exactly if nothing is required, and give the defaults. */
  lemma NoBytes(fields: seq<Field>)
    ensures Decode(fields, []) == if exists i :: 0 <= i < |fields| && Tracked(fields, i) then Err else Ok(Defaults(fields), [])
  {
    hide Defaults, Run, RequiredIndex;
    EndOfBytes(fields, State(Defaults(fields), {}, None));
    if exists i :: 0 <= i < |fields| && Tracked(fields, i) {
      var i :| 0 <= i < |fields| && Tracked(fields, i);
      assert RequiredIndex(fields, i) < MAX_REQUIRED && fields[i].tag !in {};
    } else {
      forall i | 0 <= i < |fields| && fields[i].htype.Required?
        ensures RequiredIndex(fields, i) >= MAX_REQUIRED
      {
        assert !Tracked(fields, i);
      }
    }
  }

  // ---------------------------------------------------------------- defaults

  /** What a value is before anything is decoded: nothing by pointer, the default that the table gives, or zero, false or empty. */
  lemma DefaultIs(f: Field)
    ensures var v := InitValue(f);
      if f.layout.pointer then v == VNone
      else if f.ltype.LSubmessage? then v == VMsg(Defaults(f.ltype.ptr))
      else if f.init.Some? then v == f.init.value
      else match f.ltype
        case LBool => v.VBool? && v.raw == 0
        case LBytes => v.VBytes? && |v.bytes| == 0
        case LString => v.VString? && CStr(v.mem) == [] && |v.mem| == 1
        case LFixedLengthBytes => v.VBytes? && |v.bytes| == f.dataSize && forall i :: 0 <= i < f.dataSize ==> v.bytes[i] == 0
        case _ => v.VInt? && v.n == 0
  {
    hide Defaults;
  }

  /** Nothing is present in the defaults: optional values have no flag set, arrays no items and unions no member. */
  lemma DefaultsAbsent(fields: seq<Field>, i: nat)
    requires DistinctSlots(fields) && i < |fields|
    ensures fields[i].slot in Defaults(fields)
    ensures var s := Defaults(fields)[fields[i].slot];
      match fields[i].htype
      case Optional => s.Opt? && s.has == 0 && s.v == InitValue(fields[i])
      case Repeated => s.Rep? && |s.items| == 0
      case FixedCount => s.Fix? && |s.items| == fields[i].arraySize
      case Oneof => s.Union? && s.which == 0
      case _ => s.One? && s.v == InitValue(fields[i])
  {
    hide InitValue, Defaults;
    DefaultsAt(fields, i);
  }

  // ---------------------------------------------------------------- a table without fields

  /** Without fields every record is skipped, whatever its tag; but one with tag zero is read as a 32-bit varint, whatever its type. */
  lemma EmptyTable(tag: nat, wt: nat, rest: seq<byte>, st: State)
    requires wt < 8 && tag < 0x2000_0000 && tag * 8 + wt > 0
    ensures Run([], EncVarint(tag * 8 + wt) + rest, st) ==
      if tag == 0 then (match DecVarint32(rest) case Err => Err case Ok(_, after) => Run([], after, st))
      else (match SkipField(wt, rest) case Err => Err case Ok(_, after) => Run([], after, st))
  {
    hide EncVarint, DecVarint32, SkipField;
    LengthRead(tag * 8 + wt, rest);
    assert Find([], tag) == None;
  }
}
