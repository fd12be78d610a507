/**
  How often the encoder of a scalar runs during pb_encode: the two-pass submessage encoder runs
  everything inside it once more to find the size. The count is for one chosen scalar, a field
  with a value; occurrences are added up.
 */
module EncoderRuns {
  import opened Message
  import opened EncodeSpec

  datatype Watch = Watch(f: Field, v: Value)

  /** A scalar encoder runs once. */
  function Hit(w: Watch, f: Field, v: Value): nat {
    if f == w.f && v == w.v then 1 else 0
  }

  /** The runs while one value is encoded, to a sizing stream or to a buffer. */
  function ValueRuns(w: Watch, f: Field, v: Value, sizing: bool): nat
    decreases f, 0
  {
    if !f.ltype.LSubmessage? then Hit(w, f, v)
    else if !v.VMsg? then 0
    else Runs(w, f.ltype.ptr, v.msg, true) + (if sizing then 0 else Runs(w, f.ltype.ptr, v.msg, false))
  }

  function ItemsRuns(w: Watch, f: Field, items: seq<Value>, sizing: bool): nat
    decreases f, 1, |items|
  {
    if |items| == 0 then 0 else ValueRuns(w, f, items[0], sizing) + ItemsRuns(w, f, items[1..], sizing)
  }

  predicate FixedWidth(f: Field) {
    f.ltype.LFixed32? || f.ltype.LFixed64?
  }

  /** A packed array is sized first, unless its items have a fixed width. */
  function ArrayRuns(w: Watch, f: Field, items: seq<Value>, sizing: bool): nat
    decreases f, 2
  {
    if !Packable(f.ltype) then ItemsRuns(w, f, items, sizing)
    else (if FixedWidth(f) then 0 else ItemsRuns(w, f, items, true)) + (if sizing then 0 else ItemsRuns(w, f, items, false))
  }

  function FieldRuns(w: Watch, f: Field, m: Msg, sizing: bool): nat
    decreases f, 3
  {
    if f.slot !in m then 0
    else match (f.htype, m[f.slot])
      case (Required, One(v)) => ValueRuns(w, f, v, sizing)
      case (Singular, One(v)) => if ValueIsDefault(f, v) then 0 else ValueRuns(w, f, v, sizing)
      case (Optional, Opt(has, v)) => if has == 0 then 0 else ValueRuns(w, f, v, sizing)
      case (Repeated, Rep(items)) => ArrayRuns(w, f, items, sizing)
      case (FixedCount, Fix(items)) => ArrayRuns(w, f, items, sizing)
      case (Oneof, Union(which, v)) => if which == f.tag then ValueRuns(w, f, v, sizing) else 0
      case _ => 0
  }

  /** The runs of the chosen scalar's encoder in one pb_encode. */
  function Runs(w: Watch, fields: seq<Field>, m: Msg, sizing: bool): nat
    decreases fields
  {
    if |fields| == 0 then 0 else FieldRuns(w, fields[0], m, sizing) + Runs(w, fields[1..], m, sizing)
  }

  // ---------------------------------------------------------------- the weight of an occurrence

  /** An occurrence outside packed arrays weighs `k`, inside a message one deeper `k + 1`. */
  function ValueWeight(w: Watch, f: Field, v: Value, k: nat): nat
    decreases f, 0
  {
    if !f.ltype.LSubmessage? then k * Hit(w, f, v)
    else if !v.VMsg? then 0
    else Weight(w, f.ltype.ptr, v.msg, k + 1)
  }

  function ItemsWeight(w: Watch, f: Field, items: seq<Value>, k: nat): nat
    decreases f, 1, |items|
  {
    if |items| == 0 then 0 else ValueWeight(w, f, items[0], k) + ItemsWeight(w, f, items[1..], k)
  }

  /** An item of a packed array weighs one more than a single value, and just one if its width is fixed. */
  function ArrayWeight(w: Watch, f: Field, items: seq<Value>, k: nat): nat
    decreases f, 2
  {
    ItemsWeight(w, f, items, if !Packable(f.ltype) then k else if FixedWidth(f) then 1 else k + 1)
  }

  function FieldWeight(w: Watch, f: Field, m: Msg, k: nat): nat
    decreases f, 3
  {
    if f.slot !in m then 0
    else match (f.htype, m[f.slot])
      case (Required, One(v)) => ValueWeight(w, f, v, k)
      case (Singular, One(v)) => if ValueIsDefault(f, v) then 0 else ValueWeight(w, f, v, k)
      case (Optional, Opt(has, v)) => if has == 0 then 0 else ValueWeight(w, f, v, k)
      case (Repeated, Rep(items)) => ArrayWeight(w, f, items, k)
      case (FixedCount, Fix(items)) => ArrayWeight(w, f, items, k)
      case (Oneof, Union(which, v)) => if which == f.tag then ValueWeight(w, f, v, k) else 0
      case _ => 0
  }

  function Weight(w: Watch, fields: seq<Field>, m: Msg, k: nat): nat
    decreases fields
  {
    if |fields| == 0 then 0 else FieldWeight(w, fields[0], m, k) + Weight(w, fields[1..], m, k)
  }

  // ---------------------------------------------------------------- runs are weights

  /** The sizing pass adds one to every weight, and the writing pass runs everything with weight one. */
  lemma {:induction false} ValueRunsWeigh(w: Watch, f: Field, v: Value, k: nat)
    ensures ValueWeight(w, f, v, k + 1) == ValueWeight(w, f, v, k) + ValueRuns(w, f, v, true)
    ensures ValueRuns(w, f, v, false) == ValueWeight(w, f, v, 1)
    decreases f, 0
  {
    hide ValueIsDefault;
    if f.ltype.LSubmessage? && v.VMsg? {
      RunsWeigh(w, f.ltype.ptr, v.msg, k + 1);
      RunsWeigh(w, f.ltype.ptr, v.msg, 1);
    }
  }

  lemma {:induction false} ItemsRunsWeigh(w: Watch, f: Field, items: seq<Value>, k: nat)
    ensures ItemsWeight(w, f, items, k + 1) == ItemsWeight(w, f, items, k) + ItemsRuns(w, f, items, true)
    ensures ItemsRuns(w, f, items, false) == ItemsWeight(w, f, items, 1)
    decreases f, 1, |items|
  {
    hide ValueWeight, ValueRuns;
    if |items| > 0 {
      ValueRunsWeigh(w, f, items[0], k);
      ItemsRunsWeigh(w, f, items[1..], k);
    }
  }

  lemma {:induction false} ArrayRunsWeigh(w: Watch, f: Field, items: seq<Value>, k: nat)
    ensures ArrayWeight(w, f, items, k + 1) == ArrayWeight(w, f, items, k) + ArrayRuns(w, f, items, true)
    ensures ArrayRuns(w, f, items, false) == ArrayWeight(w, f, items, 1)
    decreases f, 2
  {
    hide ItemsWeight, ItemsRuns;
    ItemsRunsWeigh(w, f, items, k);
    ItemsRunsWeigh(w, f, items, k + 1);
    ItemsRunsWeigh(w, f, items, 1);
  }

  lemma {:induction false} FieldRunsWeigh(w: Watch, f: Field, m: Msg, k: nat)
    ensures FieldWeight(w, f, m, k + 1) == FieldWeight(w, f, m, k) + FieldRuns(w, f, m, true)
    ensures FieldRuns(w, f, m, false) == FieldWeight(w, f, m, 1)
    decreases f, 3
  {
    hide ValueWeight, ValueRuns, ArrayWeight, ArrayRuns, ValueIsDefault;
    if f.slot in m {
      var s := m[f.slot];
      if s.Rep? || s.Fix? {
        ArrayRunsWeigh(w, f, s.items, k);
      } else {
        ValueRunsWeigh(w, f, s.v, k);
      }
    }
  }

  /** In the writing pass of pb_encode, a scalar at submessage depth d runs d + 1 times. */
  lemma {:induction false} RunsWeigh(w: Watch, fields: seq<Field>, m: Msg, k: nat)
    ensures Weight(w, fields, m, k + 1) == Weight(w, fields, m, k) + Runs(w, fields, m, true)
    ensures Runs(w, fields, m, false) == Weight(w, fields, m, 1)
    decreases fields
  {
    hide FieldWeight, FieldRuns;
    if |fields| > 0 {
      FieldRunsWeigh(w, fields[0], m, k);
      RunsWeigh(w, fields[1..], m, k);
    }
  }
}
