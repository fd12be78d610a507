/**
  The struct that decoding gives back.

  Encoding forgets what the wire format does not carry: absent optional values, the
  bytes after a string's NUL, the non-zero byte a bool was stored as. `NormMsg` is the
  struct in which exactly that has been replaced by the decoder's own choice.
  `Want` is the same with only the fields in `done` received so far.
 */
module Normal {
  import opened Bytes
  import opened Message
  import opened EncodeSpec

  function Tags(fields: seq<Field>): (r: set<nat>)
    ensures forall t :: t in r <==> exists i :: 0 <= i < |fields| && fields[i].tag == t
  {
    set i | 0 <= i < |fields| :: fields[i].tag
  }

  function NormVal(f: Field, v: Value): Value
    decreases f, 0
  {
    match (f.ltype, v)
    case (LBool, VBool(raw)) => VBool(if raw != 0 then 1 else 0)
    case (LString, VString(mem)) => VString(CStr(mem) + [0])
    case (LSubmessage(ptr), VMsg(m)) => VMsg(NormMsg(ptr, m))
    case _ => v
  }

  function NormVals(f: Field, items: seq<Value>): (r: seq<Value>)
    ensures |r| == |items|
    ensures forall i :: 0 <= i < |items| ==> r[i] == NormVal(f, items[i])
    decreases f, 1
  {
    seq(|items|, i requires 0 <= i < |items| => NormVal(f, items[i]))
  }

  function WantSlot(fields: seq<Field>, f: Field, m: Msg, done: set<nat>): Slot
    requires f in fields
    decreases fields, 0
  {
    if f.slot !in m then InitSlot(f)
    else match (f.htype, m[f.slot])
      case (Required, One(v)) => if f.tag in done then One(NormVal(f, v)) else InitSlot(f)
      case (Singular, One(v)) =>
        if f.tag in done && !ValueIsDefault(f, v) then One(NormVal(f, v)) else InitSlot(f)
      case (Optional, Opt(has, v)) =>
        if f.tag in done && has != 0 then Opt(1, NormVal(f, v)) else InitSlot(f)
      case (Repeated, Rep(items)) => if f.tag in done then Rep(NormVals(f, items)) else InitSlot(f)
      case (FixedCount, Fix(items)) => if f.tag in done then Fix(NormVals(f, items)) else InitSlot(f)
      case (Oneof, Union(which, v)) =>
        (match Find(fields, which)
         case Some(g) =>
           if which in done && g.htype.Oneof? && g.slot == f.slot then Union(which, NormVal(g, v)) else InitSlot(f)
         case None => InitSlot(f))
      case _ => InitSlot(f)
  }

  /** A field stored in slot `s`. */
  function FieldAt(fields: seq<Field>, s: nat): (f: Field)
    requires exists i :: 0 <= i < |fields| && fields[i].slot == s
    ensures f in fields && f.slot == s
  {
    if fields[0].slot == s then fields[0] else FieldAt(fields[1..], s)
  }

  function Want(fields: seq<Field>, m: Msg, done: set<nat>): (w: Msg)
    requires DistinctSlots(fields)
    ensures w.Keys == Defaults(fields).Keys
    decreases fields, 1
  {
    map s | s in Defaults(fields) :: DefaultsKeys(fields, s); WantSlot(fields, FieldAt(fields, s), m, done)
  }

  /** The struct with only what its fields carry over the wire. */
  function NormMsg(fields: seq<Field>, m: Msg): Msg
    decreases fields, 2
  {
    if DistinctSlots(fields) then Want(fields, m, Tags(fields)) else m
  }

  // ---------------------------------------------------------------- the slots of Want

  lemma WantAt(fields: seq<Field>, f: Field, m: Msg, done: set<nat>)
    requires DistinctSlots(fields) && f in fields
    ensures f.slot in Want(fields, m, done)
    ensures Want(fields, m, done)[f.slot] == WantSlot(fields, f, m, done)
  {
    hide NormVal, InitValue, Defaults;
    var i :| 0 <= i < |fields| && fields[i] == f;
    DefaultsAt(fields, i);
    DefaultsKeys(fields, f.slot);
    var g := FieldAt(fields, f.slot);
    var j :| 0 <= j < |fields| && fields[j] == g;
    if i != j {
      assert f.htype.Oneof? && g.htype.Oneof?;
    }
  }

  /** A message whose slots are those of `fields`, with the contents of `Want`, is `Want`. */
  lemma WantIs(fields: seq<Field>, m: Msg, done: set<nat>, w: Msg)
    requires DistinctSlots(fields)
    requires w.Keys == Defaults(fields).Keys
    requires forall f :: f in fields && f.slot in w ==> w[f.slot] == WantSlot(fields, f, m, done)
    ensures w == Want(fields, m, done)
  {
    forall s | s in w
      ensures w[s] == Want(fields, m, done)[s]
    {
      DefaultsKeys(fields, s);
    }
  }

  lemma WantNothing(fields: seq<Field>, m: Msg)
    requires DistinctSlots(fields)
    ensures Want(fields, m, {}) == Defaults(fields)
  {
    forall f | f in fields && f.slot in Defaults(fields)
      ensures Defaults(fields)[f.slot] == WantSlot(fields, f, m, {})
    {
      var i :| 0 <= i < |fields| && fields[i] == f;
      DefaultsAt(fields, i);
    }
    WantIs(fields, m, {}, Defaults(fields));
  }

  /** Only tags of the descriptor matter. */
  lemma WantSame(fields: seq<Field>, m: Msg, done: set<nat>, done': set<nat>)
    requires DistinctSlots(fields)
    requires forall f :: f in fields ==> (f.tag in done <==> f.tag in done')
    ensures Want(fields, m, done) == Want(fields, m, done')
  {
    hide NormVal, InitSlot, Defaults, Want;
    var w := Want(fields, m, done);
    forall f | f in fields && f.slot in w
      ensures w[f.slot] == WantSlot(fields, f, m, done')
    {
      WantAt(fields, f, m, done);
    }
    WantIs(fields, m, done', w);
  }

  /** Receiving field `f` changes its slot only. */
  lemma WantUpdate(fields: seq<Field>, f: Field, m: Msg, done: set<nat>, s: Slot)
    requires DistinctSlots(fields) && DistinctTags(fields) && f in fields
    requires s == WantSlot(fields, f, m, done + {f.tag})
    ensures Want(fields, m, done)[f.slot := s] == Want(fields, m, done + {f.tag})
  {
    var w := Want(fields, m, done)[f.slot := s];
    WantAt(fields, f, m, done);
    forall g | g in fields && g.slot in w
      ensures w[g.slot] == WantSlot(fields, g, m, done + {f.tag})
    {
      SlotKept(fields, f, g, m, done);
      WantAt(fields, g, m, done);
    }
    WantIs(fields, m, done + {f.tag}, w);
  }

  lemma SlotKept(fields: seq<Field>, f: Field, g: Field, m: Msg, done: set<nat>)
    requires DistinctSlots(fields) && DistinctTags(fields) && f in fields && g in fields
    ensures WantSlot(fields, g, m, done + {f.tag})
         == if g.slot == f.slot then WantSlot(fields, f, m, done + {f.tag}) else WantSlot(fields, g, m, done)
  {
    hide NormVal, InitValue;
    FindUnique(fields, f);
    FindUnique(fields, g);
    var i :| 0 <= i < |fields| && fields[i] == f;
    var j :| 0 <= j < |fields| && fields[j] == g;
  }
}
