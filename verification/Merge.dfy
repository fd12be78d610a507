/**
  Concatenating two encodings merges them: the decoder carries nothing from one record
  to the next but the struct and the set of required fields met.
 */
module Merge {
  import opened Bytes
  import opened Varint
  import opened Wire
  import opened Message
  import opened EncodeSpec
  import opened DecodeSpec

  // ---------------------------------------------------------------- decoders look no further than they read

  lemma {:induction false} Varint64Extends(bs: seq<byte>, bitpos: nat, result: nat, more: seq<byte>)
    requires Varint64From(bs, bitpos, result).Ok?
    ensures var r := Varint64From(bs, bitpos, result);
      Varint64From(bs + more, bitpos, result) == Ok(r.val, r.rest + more)
    decreases |bs|
  {
    hide BitOr, Shl;
    assert (bs + more)[1..] == bs[1..] + more;
    if bs[0] >= 128 {
      Varint64Extends(bs[1..], bitpos + 7, BitOr(result, Shl(bs[0] % 128, bitpos) % TWO_64), more);
    }
  }

  lemma {:induction false} Varint32FromExtends(bs: seq<byte>, bitpos: nat, result: nat, more: seq<byte>)
    requires Varint32From(bs, bitpos, result).Ok?
    ensures var r := Varint32From(bs, bitpos, result);
      Varint32From(bs + more, bitpos, result) == Ok(r.val, r.rest + more)
    decreases |bs|
  {
    hide BitOr, Shl, TrailingByteOk;
    assert (bs + more)[1..] == bs[1..] + more;
    if bs[0] >= 128 {
      var result' := if bitpos >= 32 then result else BitOr(result, Shl(bs[0] % 128, bitpos) % TWO_32);
      Varint32FromExtends(bs[1..], (bitpos + 7) % 256, result', more);
    }
  }

  lemma Varint32Extends(bs: seq<byte>, more: seq<byte>)
    requires DecVarint32(bs).Ok?
    ensures DecVarint32(bs + more) == Ok(DecVarint32(bs).val, DecVarint32(bs).rest + more)
  {
    hide Varint32From;
    assert (bs + more)[1..] == bs[1..] + more;
    if bs[0] >= 128 {
      Varint32FromExtends(bs[1..], 7, bs[0] % 128, more);
    }
  }

  lemma TakeExtends(bs: seq<byte>, n: nat, more: seq<byte>)
    requires Take(bs, n).Ok?
    ensures Take(bs + more, n) == Ok(Take(bs, n).val, Take(bs, n).rest + more)
  {
    assert (bs + more)[..n] == bs[..n];
    assert (bs + more)[n..] == bs[n..] + more;
  }

  lemma StringExtends(bs: seq<byte>, more: seq<byte>)
    requires DecString(bs).Ok?
    ensures DecString(bs + more) == Ok(DecString(bs).val, DecString(bs).rest + more)
  {
    hide DecVarint32, Take;
    Varint32Extends(bs, more);
    TakeExtends(DecVarint32(bs).rest, DecVarint32(bs).val, more);
  }

  lemma {:induction false} SkipVarintExtends(bs: seq<byte>, more: seq<byte>)
    requires SkipVarint(bs).Ok?
    ensures SkipVarint(bs + more) == Ok((), SkipVarint(bs).rest + more)
    decreases |bs|
  {
    assert (bs + more)[1..] == bs[1..] + more;
    if bs[0] >= 128 {
      SkipVarintExtends(bs[1..], more);
    }
  }

  lemma SkipExtends(wt: nat, bs: seq<byte>, more: seq<byte>)
    requires SkipField(wt, bs).Ok?
    ensures SkipField(wt, bs + more) == Ok((), SkipField(wt, bs).rest + more)
  {
    hide SkipVarint, DecString, Take;
    if wt == WT_VARINT {
      SkipVarintExtends(bs, more);
    } else if wt == WT_64BIT {
      TakeExtends(bs, 8, more);
    } else if wt == WT_STRING {
      StringExtends(bs, more);
    } else {
      TakeExtends(bs, 4, more);
    }
  }

  lemma Dec64Extends(bs: seq<byte>, more: seq<byte>)
    requires DecVarint64(bs).Ok?
    ensures DecVarint64(bs + more) == Ok(DecVarint64(bs).val, DecVarint64(bs).rest + more)
  {
    hide Varint64From;
    Varint64Extends(bs, 0, 0, more);
  }

  lemma ScalarExtends(f: Field, bs: seq<byte>, more: seq<byte>)
    requires !f.ltype.LSubmessage? && DecScalar(f, bs).Ok?
    ensures DecScalar(f, bs + more) == Ok(DecScalar(f, bs).val, DecScalar(f, bs).rest + more)
  {
    hide DecVarint32, DecVarint64, Take, CastSigned, CastUnsigned, S32, FromLe, Zeros, UnZigZag;
    if DecVarint32(bs).Ok? {
      Varint32Extends(bs, more);
    }
    if DecVarint64(bs).Ok? {
      Dec64Extends(bs, more);
    }
    match f.ltype
    case LFixed32 => TakeExtends(bs, 4, more);
    case LFixed64 => TakeExtends(bs, 8, more);
    case LBytes => TakeExtends(DecVarint32(bs).rest, DecVarint32(bs).val, more);
    case LString => TakeExtends(DecVarint32(bs).rest, DecVarint32(bs).val, more);
    case LFixedLengthBytes =>
      if DecVarint32(bs).val > 0 {
        TakeExtends(DecVarint32(bs).rest, DecVarint32(bs).val, more);
      }
    case _ =>
  }

  lemma ValueExtends(f: Field, bs: seq<byte>, prev: Value, more: seq<byte>)
    requires DecVal(f, bs, prev).Ok?
    ensures DecVal(f, bs + more, prev) == Ok(DecVal(f, bs, prev).val, DecVal(f, bs, prev).rest + more)
  {
    hide DecScalar, DecString, DecMsg, Defaults;
    if f.ltype.LSubmessage? {
      StringExtends(bs, more);
    } else {
      ScalarExtends(f, bs, more);
    }
  }

  lemma ItemsExtend(f: Field, wt: nat, bs: seq<byte>, count: nat, more: seq<byte>)
    requires DecItems(f, wt, bs, count).Ok?
    ensures DecItems(f, wt, bs + more, count) == Ok(DecItems(f, wt, bs, count).val, DecItems(f, wt, bs, count).rest + more)
  {
    hide DecString, DecVal, DecPacked;
    if wt == WT_STRING && Packable(f.ltype) {
      StringExtends(bs, more);
    } else {
      ValueExtends(f, bs, VNone, more);
    }
  }

  lemma FieldExtends(fields: seq<Field>, f: Field, wt: nat, bs: seq<byte>, st: State, more: seq<byte>)
    requires DecField(fields, f, wt, bs, st).Ok?
    ensures DecField(fields, f, wt, bs + more, st)
         == Ok(DecField(fields, f, wt, bs, st).val, DecField(fields, f, wt, bs, st).rest + more)
  {
    hide DecVal, DecItems;
    match (f.htype, st.m[f.slot])
    case (Required, One(v)) => ValueExtends(f, bs, Base(f, v), more);
    case (Singular, One(v)) => ValueExtends(f, bs, Base(f, v), more);
    case (Optional, Opt(_, v)) => ValueExtends(f, bs, Base(f, v), more);
    case (Repeated, Rep(items)) => ItemsExtend(f, wt, bs, |items|, more);
    case (FixedCount, Fix(items)) => ItemsExtend(f, wt, bs, st.fixed.value.size, more);
    case (Oneof, Union(which, v)) => ValueExtends(f, bs, if which == f.tag then Base(f, v) else VNone, more);
  }

  lemma StepExtends(fields: seq<Field>, tag: nat, wt: nat, bs: seq<byte>, st: State, more: seq<byte>)
    requires Step(fields, tag, wt, bs, st).Ok?
    ensures Step(fields, tag, wt, bs + more, st)
         == Ok(Step(fields, tag, wt, bs, st).val, Step(fields, tag, wt, bs, st).rest + more)
  {
    hide DecField, SkipField, DecVarint32;
    match Find(fields, tag)
    case Some(f) => FieldExtends(fields, f, wt, bs, Enter(f, st).value, more);
    case None =>
      if |fields| == 0 && tag == 0 {
        Varint32Extends(bs, more);
      } else {
        SkipExtends(wt, bs, more);
      }
  }

  lemma TagExtends(bs: seq<byte>, more: seq<byte>)
    requires DecTag(bs).Tag?
    ensures DecTag(bs + more) == Tag(DecTag(bs).tag, DecTag(bs).wt, DecTag(bs).after + more)
  {
    hide DecVarint32;
    Varint32Extends(bs, more);
  }

  // ---------------------------------------------------------------- the field loop

  /** The loop ends because the bytes run out, not at a zero key or an error. */
  predicate RunsDry(fields: seq<Field>, bs: seq<byte>, st: State)
    decreases |bs|
  {
    if |bs| == 0 then true
    else match DecTag(bs)
      case Tag(tag, wt, rest) =>
        (match Step(fields, tag, wt, rest, st)
         case Ok(st', rest') => RunsDry(fields, rest', st')
         case Err => false)
      case _ => false
  }

  lemma RunsDryIsOk(fields: seq<Field>, bs: seq<byte>, st: State)
    requires RunsDry(fields, bs, st)
    ensures Run(fields, bs, st).Ok? && Run(fields, bs, st).rest == []
    decreases |bs|
  {
    hide Step;
    if |bs| > 0 {
      var t := DecTag(bs);
      var next := Step(fields, t.tag, t.wt, t.after, st);
      RunsDryIsOk(fields, next.rest, next.val);
    }
  }

  /** Decoding `x + y` is decoding `y` from where `x` ended, in success and in failure. */
  lemma {:induction false} RunConcat(fields: seq<Field>, x: seq<byte>, y: seq<byte>, st: State)
    requires RunsDry(fields, x, st)
    ensures Run(fields, x, st).Ok?
    ensures Run(fields, x + y, st) == Run(fields, y, Run(fields, x, st).val)
    decreases |x|
  {
    hide Step, DecTag;
    RunsDryIsOk(fields, x, st);
    if |x| == 0 {
      assert x + y == y;
      assert DecTag(x) == End(x) by { EmptyTag(x); }
    } else {
      var t := DecTag(x);
      var next := Step(fields, t.tag, t.wt, t.after, st);
      TagExtends(x, y);
      StepExtends(fields, t.tag, t.wt, t.after, st, y);
      RunConcat(fields, next.rest, y, next.val);
    }
  }

  lemma EmptyTag(bs: seq<byte>)
    requires |bs| == 0
    ensures DecTag(bs) == End(bs)
  {
  }

  // ---------------------------------------------------------------- independence of the required fields met

  /** `st` with more required fields counted as met. */
  function Plus(st: State, extra: set<nat>): State {
    st.(seen := st.seen + extra)
  }

  lemma StepPlus(fields: seq<Field>, tag: nat, wt: nat, bs: seq<byte>, st: State, extra: set<nat>)
    ensures Step(fields, tag, wt, bs, Plus(st, extra)) ==
      match Step(fields, tag, wt, bs, st)
      case Err => Err
      case Ok(st', rest) => Ok(Plus(st', extra), rest)
  {
    hide DecField, SkipField, DecVarint32;
    match Find(fields, tag)
    case None =>
    case Some(f) =>
      var next := Enter(f, st);
      assert (st.seen + extra) + {f.tag} == (st.seen + {f.tag}) + extra;
      if next.Some? {
        assert Enter(f, Plus(st, extra)) == Some(Plus(next.value, extra));
        FieldPlus(fields, f, wt, bs, next.value, extra);
      }
  }

  lemma FieldPlus(fields: seq<Field>, f: Field, wt: nat, bs: seq<byte>, st: State, extra: set<nat>)
    ensures DecField(fields, f, wt, bs, Plus(st, extra)) ==
      match DecField(fields, f, wt, bs, st)
      case Err => Err
      case Ok(st', rest) => Ok(Plus(st', extra), rest)
  {
    hide DecVal, DecItems;
  }

  lemma {:induction false} RunPlus(fields: seq<Field>, bs: seq<byte>, st: State, extra: set<nat>)
    ensures Run(fields, bs, Plus(st, extra)) ==
      match Run(fields, bs, st)
      case Err => Err
      case Ok(st', rest) => Ok(Plus(st', extra), rest)
    decreases |bs|
  {
    hide Step, DecTag, Plus;
    var t := DecTag(bs);
    if t.Tag? {
      StepPlus(fields, t.tag, t.wt, t.after, st, extra);
      var next := Step(fields, t.tag, t.wt, t.after, st);
      if next.Ok? {
        RunPlus(fields, next.rest, next.val, extra);
      }
    }
  }

  // ---------------------------------------------------------------- the fixed-count array in progress

  /** What the loop tracks of a fixed-count array is a field of the table and at most its size. */
  predicate Sized(fields: seq<Field>, fixed: Option<Progress>) {
    fixed.Some? ==>
      && Find(fields, fixed.value.tag).Some? && Find(fields, fixed.value.tag).value.htype.FixedCount?
      && fixed.value.size <= fixed.value.full == Find(fields, fixed.value.tag).value.arraySize
  }

  lemma StepSized(fields: seq<Field>, tag: nat, wt: nat, bs: seq<byte>, st: State)
    requires Sized(fields, st.fixed) && Step(fields, tag, wt, bs, st).Ok?
    ensures Sized(fields, Step(fields, tag, wt, bs, st).val.fixed)
  {
    hide DecVal, DecItems, SkipField, DecVarint32, Find;
  }

  lemma {:induction false} RunSized(fields: seq<Field>, bs: seq<byte>, st: State)
    requires Sized(fields, st.fixed) && Run(fields, bs, st).Ok?
    ensures Sized(fields, Run(fields, bs, st).val.fixed)
    decreases |bs|
  {
    hide Step, DecTag, Sized;
    var t := DecTag(bs);
    if t.Tag? {
      StepSized(fields, t.tag, t.wt, t.after, st);
      var next := Step(fields, t.tag, t.wt, t.after, st);
      RunSized(fields, next.rest, next.val);
    }
  }

  predicate IsFixed(fields: seq<Field>, tag: nat) {
    Find(fields, tag).Some? && Find(fields, tag).value.htype.FixedCount?
  }

  /** The field of the first record for a fixed-count array. */
  function FirstFixed(fields: seq<Field>, bs: seq<byte>, st: State): Option<Field>
    decreases |bs|
  {
    match DecTag(bs)
    case Tag(tag, wt, after) =>
      if IsFixed(fields, tag) then Find(fields, tag)
      else (match Step(fields, tag, wt, after, st)
        case Ok(st', rest) => FirstFixed(fields, rest, st')
        case Err => None)
    case _ => None
  }

  /** A record for another field neither reads nor changes the array in progress. */
  lemma StepUnfixed(fields: seq<Field>, tag: nat, wt: nat, bs: seq<byte>, st: State, fixed: Option<Progress>)
    requires !IsFixed(fields, tag)
    ensures Step(fields, tag, wt, bs, st.(fixed := fixed)) ==
      match Step(fields, tag, wt, bs, st)
      case Err => Err
      case Ok(st', rest) => Ok(st'.(fixed := fixed), rest)
    ensures Step(fields, tag, wt, bs, st).Ok? ==> Step(fields, tag, wt, bs, st).val.fixed == st.fixed
  {
    hide DecVal, DecItems, SkipField, DecVarint32, Find;
  }

  /** The first fixed-count record is for the array that was filled last, and not of size zero. */
  predicate Overfills(fields: seq<Field>, fixed: Option<Progress>, first: Option<Field>) {
    fixed.Some? && first.Some? && first.value.tag == fixed.value.tag && first.value.arraySize > 0
  }

  /** A complete array in progress makes no difference unless its field comes first. */
  lemma {:induction false} RunApart(fields: seq<Field>, bs: seq<byte>, st: State, fixed: Option<Progress>)
    requires st.fixed.None? && Sized(fields, fixed) && Complete(fixed)
    requires !Overfills(fields, fixed, FirstFixed(fields, bs, st))
    ensures Run(fields, bs, st.(fixed := fixed)) ==
      match Run(fields, bs, st)
      case Err => Err
      case Ok(st', rest) => Ok(if FirstFixed(fields, bs, st).None? then st'.(fixed := fixed) else st', rest)
    ensures FirstFixed(fields, bs, st).None? && Run(fields, bs, st).Ok? ==> Run(fields, bs, st).val.fixed.None?
    decreases |bs|
  {
    hide Step, DecTag, Find;
    var t := DecTag(bs);
    if t.Tag? {
      var next := Step(fields, t.tag, t.wt, t.after, st);
      if IsFixed(fields, t.tag) {
        StepEnters(fields, t.tag, t.wt, t.after, st, st.(fixed := fixed));
      } else {
        StepUnfixed(fields, t.tag, t.wt, t.after, st, fixed);
        if next.Ok? {
          RunApart(fields, next.rest, next.val, fixed);
        }
      }
    }
  }

  /** A step depends on the state as it is entered. */
  lemma StepEnters(fields: seq<Field>, tag: nat, wt: nat, bs: seq<byte>, st: State, st1: State)
    requires Find(fields, tag).Some? && Enter(Find(fields, tag).value, st) == Enter(Find(fields, tag).value, st1)
    ensures Step(fields, tag, wt, bs, st) == Step(fields, tag, wt, bs, st1)
  {
    hide DecField, Find, Enter;
  }

  /** An item for a full array is refused; only an empty packed record is not. */
  lemma ItemsOverfill(f: Field, wt: nat, bs: seq<byte>)
    requires DecItems(f, wt, bs, 0).Ok? && f.htype.FixedCount? && f.arraySize > 0
    ensures var r := DecItems(f, wt, bs, 0);
      DecItems(f, wt, bs, f.arraySize) == if |r.val| == 0 then r else Err
  {
    hide DecVal, DecString, DecScalar;
  }

  lemma StepOverfills(fields: seq<Field>, f: Field, tag: nat, wt: nat, bs: seq<byte>, st: State)
    requires Find(fields, f.tag) == Some(f) && f.htype.FixedCount? && f.arraySize > 0
    requires st.fixed == Some(Progress(f.tag, 0, f.arraySize)) && Step(fields, tag, wt, bs, st).Ok?
    ensures var r := Step(fields, tag, wt, bs, st);
      var full := Some(Progress(f.tag, f.arraySize, f.arraySize));
      || Step(fields, tag, wt, bs, st.(fixed := full)) == Err
      || (r.val.fixed == st.fixed && Step(fields, tag, wt, bs, st.(fixed := full)) == Ok(r.val.(fixed := full), r.rest))
  {
    hide DecItems, DecVal, SkipField, DecVarint32, Find;
    var full := Some(Progress(f.tag, f.arraySize, f.arraySize));
    if tag == f.tag {
      ItemsOverfill(f, wt, bs);
      var items := st.m[f.slot].items;
      assert items[..0] + [] + items[0..] == items;
      assert items[..f.arraySize] + [] + items[f.arraySize..] == items;
    } else if !IsFixed(fields, tag) {
      StepUnfixed(fields, tag, wt, bs, st, full);
    }
  }

  /** Bytes that fill an empty array overflow a full one. */
  lemma {:induction false} RunOverfills(fields: seq<Field>, f: Field, bs: seq<byte>, st: State)
    requires Find(fields, f.tag) == Some(f) && f.htype.FixedCount? && f.arraySize > 0
    requires st.fixed == Some(Progress(f.tag, 0, f.arraySize))
    requires Run(fields, bs, st).Ok? && Complete(Run(fields, bs, st).val.fixed)
    ensures Run(fields, bs, st.(fixed := Some(Progress(f.tag, f.arraySize, f.arraySize)))) == Err
    decreases |bs|
  {
    hide Step, DecTag, Find;
    var t := DecTag(bs);
    if t.Tag? {
      StepOverfills(fields, f, t.tag, t.wt, t.after, st);
      var full := Some(Progress(f.tag, f.arraySize, f.arraySize));
      var next := Step(fields, t.tag, t.wt, t.after, st);
      if Step(fields, t.tag, t.wt, t.after, st.(fixed := full)).Ok? {
        RunOverfills(fields, f, next.rest, next.val);
      }
    }
  }

  lemma {:induction false} RunClashes(fields: seq<Field>, bs: seq<byte>, st: State, fixed: Option<Progress>)
    requires st.fixed.None? && Sized(fields, fixed) && Complete(fixed) && Overfills(fields, fixed, FirstFixed(fields, bs, st))
    requires Run(fields, bs, st).Ok? && Complete(Run(fields, bs, st).val.fixed)
    ensures Run(fields, bs, st.(fixed := fixed)) == Err
    decreases |bs|
  {
    hide Step, DecTag, Find;
    var t := DecTag(bs);
    if t.Tag? {
      var next := Step(fields, t.tag, t.wt, t.after, st);
      if IsFixed(fields, t.tag) {
        var f := Find(fields, t.tag).value;
        var st0 := st.(fixed := Some(Progress(f.tag, 0, f.arraySize)));
        StepEnters(fields, t.tag, t.wt, t.after, st, st0);
        RunOverfills(fields, f, bs, st0);
      } else {
        StepUnfixed(fields, t.tag, t.wt, t.after, st, fixed);
        RunClashes(fields, next.rest, next.val, fixed);
      }
    }
  }

  // ---------------------------------------------------------------- main results

  /**
    Concatenation is merge: if `x` decodes in full, then decoding `x + y` gives what decoding `y`
    into the result of `x` gives, if and only if the first fixed-count record of `y` is not for
    the array that `x` filled last (or that array has size zero). Otherwise the concatenation is
    refused. Without that clash it fails only where the loop over `y` does or a fixed-count
    array stays incomplete: required fields may come from either part.
   */
  lemma {:induction false} ConcatIsMerge(fields: seq<Field>, x: seq<byte>, y: seq<byte>, m: Msg)
    requires RunsDry(fields, x, State(m, {}, None)) && DecMsg(fields, x, m).Ok?
    ensures var mx := DecMsg(fields, x, m).val;
      var both := DecMsg(fields, x + y, m);
      var anew := State(mx, {}, None);
      var clash := Overfills(fields, Run(fields, x, State(m, {}, None)).val.fixed, FirstFixed(fields, y, anew));
      var ry := Run(fields, y, anew);
      && (DecMsg(fields, y, mx).Ok? ==> (both == DecMsg(fields, y, mx) <==> !clash))
      && (clash && ry.Ok? && Complete(ry.val.fixed) ==> both == Err)
      && (!clash ==> both == if ry.Ok? && Complete(ry.val.fixed) then Ok(ry.val.m, ry.rest) else Err)
  {
    hide Run, RunsDry, Plus, FirstFixed, Find;
    var start := State(m, {}, None);
    RunConcat(fields, x, y, start);
    RunSized(fields, x, start);
    var after := Run(fields, x, start).val;
    var anew := State(after.m, {}, None);
    var ry := Run(fields, y, anew);
    MergeRun(fields, y, after);
    if ry.Ok? {
      PlusFinished(fields, after, ry.val, after.fixed);
      assert DecMsg(fields, x + y, m) == match Run(fields, y, after)
        case Err => Err
        case Ok(st, rest) => if Finished(fields, st) then Ok(st.m, rest) else Err;
    }
  }

  /** The end of a new call, seen from `after`: its required fields count, and its array stays if no other was met. */
  function MapState(r: Parse<State>, none: bool, after: State): Parse<State> {
    match r
    case Err => Err
    case Ok(st, rest) => Ok(Plus(if none then st.(fixed := after.fixed) else st, after.seen), rest)
  }

  /** Where the loop gets from the end of `x`, as against a new call. */
  lemma MergeRun(fields: seq<Field>, y: seq<byte>, after: State)
    requires Sized(fields, after.fixed) && Complete(after.fixed)
    ensures var anew := State(after.m, {}, None);
      var ry := Run(fields, y, anew);
      var first := FirstFixed(fields, y, anew);
      && (Overfills(fields, after.fixed, first) && ry.Ok? && Complete(ry.val.fixed) ==> Run(fields, y, after) == Err)
      && (!Overfills(fields, after.fixed, first) ==> Run(fields, y, after) == MapState(ry, first.None?, after))
      && (first.None? && ry.Ok? ==> ry.val.fixed.None?)
  {
    hide Run, FirstFixed, Find, Sized, Complete, Overfills;
    var anew := State(after.m, {}, None);
    var held := anew.(fixed := after.fixed);
    assert Plus(held, after.seen) == after;
    RunPlus(fields, y, held, after.seen);
    if Overfills(fields, after.fixed, FirstFixed(fields, y, anew)) {
      if Run(fields, y, anew).Ok? && Complete(Run(fields, y, anew).val.fixed) {
        RunClashes(fields, y, anew, after.fixed);
      }
      NeverNone(fields, after.fixed, FirstFixed(fields, y, anew));
    } else {
      RunApart(fields, y, anew, after.fixed);
    }
  }

  lemma NeverNone(fields: seq<Field>, fixed: Option<Progress>, first: Option<Field>)
    requires Overfills(fields, fixed, first)
    ensures first.Some?
  {
  }

  lemma PlusFinished(fields: seq<Field>, st: State, st': State, fixed: Option<Progress>)
    requires Finished(fields, st) && Complete(fixed)
    ensures Finished(fields, Plus(st', st.seen)) <==> Complete(st'.fixed)
    ensures Finished(fields, Plus(st'.(fixed := fixed), st.seen))
    ensures Plus(st', st.seen).m == Plus(st'.(fixed := fixed), st.seen).m == st'.m
  {
  }

  // ---------------------------------------------------------------- fixed-count arrays

  function FlagArray(): seq<Field> {
    [Field(1, LBool, FixedCount, 0, 1, 1, None, Layout(0, 0, false))]
  }

  function Flags(v: Value): Msg {
    map[0 := Fix([v])]
  }

  lemma FlagStep(size: nat, rest: seq<byte>, v: Value)
    requires size <= 1
    ensures var st := State(Flags(v), {}, Some(Progress(1, size, 1)));
      DecField(FlagArray(), FlagArray()[0], 0, [1] + rest, st) ==
        if size == 0 then Ok(State(Flags(VBool(1)), {}, Some(Progress(1, 1, 1))), rest) else Err
  {
    hide DecVarint32;
    ByteRead(1, rest);
    if size == 0 {
      var f := FlagArray()[0];
      assert DecVal(f, [1] + rest, VNone) == Ok(VBool(1), rest);
      assert DecItems(f, 0, [1] + rest, 0) == Ok([VBool(1)], rest);
      assert [v][..0] + [VBool(1)] + [v][1..] == [VBool(1)];
      assert Flags(v)[0 := Fix([VBool(1)])] == Flags(VBool(1));
    }
  }

  lemma FlagRun(st: State, entered: State, rest: seq<byte>)
    requires Enter(FlagArray()[0], st) == Some(entered)
    ensures Run(FlagArray(), [8] + ([1] + rest), st) ==
      match DecField(FlagArray(), FlagArray()[0], 0, [1] + rest, entered)
      case Err => Err
      case Ok(st1, rest1) => Run(FlagArray(), rest1, st1)
  {
    hide DecField, DecTag, Enter;
    KeyRead(1, 0, [1] + rest);
  }

  /**
    The clash occurs: this record fills the array and decodes again on top of itself, but two
    of them in one message overflow the array.
   */
  lemma FixedCountOverflows()
    ensures var fields, x, m := FlagArray(), [8, 1], Flags(VNone);
      && DecMsg(fields, x, m) == Ok(Flags(VBool(1)), [])
      && DecMsg(fields, x, Flags(VBool(1))) == Ok(Flags(VBool(1)), [])
      && DecMsg(fields, x + x, m) == Err
  {
    hide Run, DecField;
    var more: seq<byte> := [8, 1];
    assert [8, 1] == [8] + ([1] + []) && [8, 1] + [8, 1] == [8] + ([1] + more) && more == [8] + ([1] + []);
    var full := State(Flags(VBool(1)), {}, Some(Progress(1, 1, 1)));
    FlagEnds(full);
    FlagFirst(VNone, []);
    FlagFirst(VBool(1), []);
    FlagFirst(VNone, more);
    FlagRun(full, full, []);
    FlagStep(1, [], VBool(1));
  }

  lemma FlagFirst(v: Value, rest: seq<byte>)
    ensures Run(FlagArray(), [8] + ([1] + rest), State(Flags(v), {}, None)) ==
      Run(FlagArray(), rest, State(Flags(VBool(1)), {}, Some(Progress(1, 1, 1))))
  {
    hide Run, DecField;
    FlagRun(State(Flags(v), {}, None), State(Flags(v), {}, Some(Progress(1, 0, 1))), rest);
    FlagStep(0, rest, v);
  }

  lemma FlagEnds(st: State)
    ensures Run(FlagArray(), [], st) == Ok(st, [])
  {
  }
}
