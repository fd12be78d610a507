/**
  An array of numbers may arrive packed, item by item, or in any mixture of the two, as
  writers of different versions send it: the reader accepts every mixture and takes the
  items in their order.
 */
module PackedForms {
  import opened Bytes
  import opened Varint
  import opened Wire
  import opened Message
  import opened EncodeSpec
  import opened DecodeSpec
  import opened Normal
  import opened ScalarTrip
  import opened RoundTrip
  import Merge

  /** A run of items, in one packed record or with a key each. */
  datatype Chunk = Chunk(packed: bool, items: seq<Value>)

  function ChunkBytes(f: Field, c: Chunk): Option<seq<byte>> {
    if c.packed then
      var payload :- EncPayload(f, c.items);
      Some(EncTag(WT_STRING, f.tag) + EncString(payload))
    else EncItems(f, c.items)
  }

  function Records(f: Field, chunks: seq<Chunk>): Option<seq<byte>> {
    if |chunks| == 0 then Some([])
    else
      var first :- ChunkBytes(f, chunks[0]);
      var others :- Records(f, chunks[1..]);
      Some(first + others)
  }

  function AllItems(chunks: seq<Chunk>): seq<Value> {
    if |chunks| == 0 then [] else chunks[0].items + AllItems(chunks[1..])
  }

  /** No packed record is longer than its length field can say. */
  predicate ShortChunks(f: Field, chunks: seq<Chunk>) {
    forall i :: 0 <= i < |chunks| && chunks[i].packed && EncPayload(f, chunks[i].items).Some? ==>
      |EncPayload(f, chunks[i].items).value| < TWO_32
  }

  /** The array holds `k` items; one of fixed size is the one being filled. */
  predicate Holds(f: Field, st: State, k: nat) {
    && f.slot in st.m
    && (f.htype.Repeated? ==> st.m[f.slot].Rep? && |st.m[f.slot].items| == k)
    && (f.htype.FixedCount? ==>
          && st.m[f.slot].Fix? && |st.m[f.slot].items| == f.arraySize
          && st.fixed == Some(Progress(f.tag, k, f.arraySize)))
  }

  /** The state with more items: behind those of a counted array, or in the next places of one of fixed size. */
  function Received(f: Field, st: State, k: nat, more: seq<Value>): State
    requires IsArray(f) && Holds(f, st, k) && k + |more| <= f.arraySize
  {
    var items := st.m[f.slot].items;
    if f.htype.Repeated? then st.(m := st.m[f.slot := Rep(items + more)])
    else st.(m := st.m[f.slot := Fix(items[..k] + more + items[k + |more|..])],
             fixed := Some(Progress(f.tag, k + |more|, f.arraySize)))
  }

  lemma ReceivedNone(f: Field, st: State, k: nat)
    requires IsArray(f) && Holds(f, st, k) && k <= f.arraySize
    ensures Received(f, st, k, []) == st
  {
    var items := st.m[f.slot].items;
    assert items + [] == items;
    assert f.htype.FixedCount? ==> items[..k] + [] + items[k..] == items;
    assert st.m[f.slot := st.m[f.slot]] == st.m;
  }

  lemma ReceivedTwice(f: Field, st: State, k: nat, a: seq<Value>, b: seq<Value>)
    requires IsArray(f) && Holds(f, st, k) && k + |a + b| <= f.arraySize
    ensures Holds(f, Received(f, st, k, a), k + |a|)
    ensures Received(f, Received(f, st, k, a), k + |a|, b) == Received(f, st, k, a + b)
  {
    var items := st.m[f.slot].items;
    var once := Received(f, st, k, a);
    if f.htype.Repeated? {
      assert (items + a) + b == items + (a + b);
    } else {
      var next := once.m[f.slot].items;
      assert next[..k + |a|] == items[..k] + a;
      assert next[k + |a| + |b|..] == items[k + |a + b|..];
      assert (items[..k] + a) + b == items[..k] + (a + b);
    }
    var last := Received(f, once, k + |a|, b).m[f.slot];
    assert st.m[f.slot := once.m[f.slot]][f.slot := last] == st.m[f.slot := last];
  }

  // ---------------------------------------------------------------- one record

  lemma StepItems(fields: seq<Field>, f: Field, wt: nat, bs: seq<byte>, st: State, k: nat)
    requires Capacity(f) == f.arraySize
    requires Find(fields, f.tag) == Some(f) && IsArray(f) && Holds(f, st, k) && k <= f.arraySize
    ensures Step(fields, f.tag, wt, bs, st) ==
      match DecItems(f, wt, bs, k)
      case Err => Err
      case Ok(more, rest) => Ok(Received(f, st, k, more), rest)
  {
    hide DecItems;
  }

  lemma RunItems(fields: seq<Field>, f: Field, wt: nat, bs: seq<byte>, st: State, k: nat)
    requires WfField(f) && wt < 8
    requires Find(fields, f.tag) == Some(f) && IsArray(f) && Holds(f, st, k) && k <= f.arraySize
    ensures Run(fields, EncTag(wt, f.tag) + bs, st) ==
      match DecItems(f, wt, bs, k)
      case Err => Err
      case Ok(more, rest) => Run(fields, rest, Received(f, st, k, more))
  {
    hide DecItems, Run, Step, Received, EncTag, Holds;
    TagInRange(f);
    Embedded(f);
    RunRecord(fields, wt, f.tag, bs, st);
    StepItems(fields, f, wt, bs, st, k);
  }

  lemma NumberReads(f: Field, v: Value)
    requires WfField(f) && Packable(f.ltype) && EncVal(f, v).Some?
    ensures Reads(f, f, v)
  {
    ValueTrip(f, f, v);
  }

  /** The payload of a packed record is read back if there is room for it, and otherwise refused. */
  lemma {:induction false} PayloadTrip(f: Field, items: seq<Value>, room: nat)
    requires WfField(f) && Packable(f.ltype) && EncPayload(f, items).Some?
    ensures DecPacked(f, EncPayload(f, items).value, room) == if |items| <= room then Some(NormVals(f, items)) else None
    decreases |items|
  {
    hide EncVal, DecScalar, NormVal;
    if |items| == 0 {
      assert NormVals(f, items) == [];
    } else {
      var d, o := EncVal(f, items[0]).value, EncPayload(f, items[1..]).value;
      NumberReads(f, items[0]);
      ReadsAt(f, f, items[0], o, VNone);
      assert NormVals(f, items) == [NormVal(f, items[0])] + NormVals(f, items[1..]);
      if room > 0 {
        PayloadTrip(f, items[1..], room - 1);
      }
    }
  }

  /** A packed record. */
  lemma PackedRecord(fields: seq<Field>, f: Field, items: seq<Value>, st: State, k: nat, rest: seq<byte>)
    requires WfField(f) && Find(fields, f.tag) == Some(f) && IsArray(f) && Packable(f.ltype)
    requires Holds(f, st, k) && k <= f.arraySize
    requires EncPayload(f, items).Some? && |EncPayload(f, items).value| < TWO_32
    ensures Run(fields, ChunkBytes(f, Chunk(true, items)).value + rest, st) ==
      if k + |items| <= f.arraySize then Run(fields, rest, Received(f, st, k, NormVals(f, items))) else Err
  {
    hide EncPayload, DecPacked, DecString, EncString, EncTag, Run, Received, Holds, NormVal;
    var payload := EncPayload(f, items).value;
    var t, d := EncTag(WT_STRING, f.tag), EncString(payload);
    assert (t + d) + rest == t + (d + rest);
    RunItems(fields, f, WT_STRING, d + rest, st, k);
    StringRoundTrip(payload, rest);
    PayloadTrip(f, items, f.arraySize - k);
  }

  lemma OwnWireType(f: Field)
    ensures WireType(f.ltype) == WT_STRING ==> !Packable(f.ltype)
  {
  }

  /** One item with its own key. */
  lemma SingleRecord(fields: seq<Field>, f: Field, v: Value, st: State, k: nat, rest: seq<byte>)
    requires WfField(f) && Find(fields, f.tag) == Some(f) && IsArray(f)
    requires Holds(f, st, k) && k <= f.arraySize && Reads(f, f, v)
    ensures Run(fields, EncTag(WireType(f.ltype), f.tag) + (EncVal(f, v).value + rest), st) ==
      if k < f.arraySize then Run(fields, rest, Received(f, st, k, [NormVal(f, v)])) else Err
  {
    hide EncVal, DecVal, EncTag, Run, Received, Holds, NormVal, WfField;
    RunItems(fields, f, WireType(f.ltype), EncVal(f, v).value + rest, st, k);
    InitIsFresh(f);
    Embedded(f);
    OwnWireType(f);
    ReadsAt(f, f, v, rest, VNone);
  }

  /** The items of any array one by one: each lands in the next place, until there is none. */
  lemma {:induction false} UnpackedItems(fields: seq<Field>, f: Field, items: seq<Value>, st: State, k: nat, rest: seq<byte>)
    requires WfField(f) && Find(fields, f.tag) == Some(f) && IsArray(f)
    requires Holds(f, st, k) && k <= f.arraySize && EncItems(f, items).Some? && AllRead(f, f, items)
    ensures Run(fields, EncItems(f, items).value + rest, st) ==
      if k + |items| <= f.arraySize then Run(fields, rest, Received(f, st, k, NormVals(f, items))) else Err
    decreases |items|
  {
    hide EncVal, EncTag, Run, Received, Holds, NormVal, Reads, WfField;
    if |items| == 0 {
      assert EncItems(f, items).value + rest == rest && NormVals(f, items) == [];
      ReceivedNone(f, st, k);
    } else {
      ItemsHead(f, items);
      var t, d, o := EncTag(WireType(f.ltype), f.tag), EncVal(f, items[0]).value, EncItems(f, items[1..]).value;
      assert (t + (d + o)) + rest == t + (d + (o + rest));
      assert Reads(f, f, items[0]);
      SingleRecord(fields, f, items[0], st, k, o + rest);
      if k < f.arraySize {
        var first, others := [NormVal(f, items[0])], NormVals(f, items[1..]);
        assert NormVals(f, items) == first + others;
        ReceivedOnce(f, st, k, first);
        assert AllRead(f, f, items[1..]) by {
          assert forall i :: 0 <= i < |items[1..]| ==> items[1..][i] == items[i + 1];
        }
        UnpackedItems(fields, f, items[1..], Received(f, st, k, first), k + 1, rest);
        if k + |items| <= f.arraySize {
          ReceivedTwice(f, st, k, first, others);
        }
      }
    }
  }

  lemma ReceivedOnce(f: Field, st: State, k: nat, a: seq<Value>)
    requires IsArray(f) && Holds(f, st, k) && k + |a| <= f.arraySize
    ensures Holds(f, Received(f, st, k, a), k + |a|)
  {
  }

  // ---------------------------------------------------------------- any mixture

  lemma {:induction false} AllNormal(f: Field, a: seq<Value>, b: seq<Value>)
    ensures NormVals(f, a + b) == NormVals(f, a) + NormVals(f, b)
  {
    hide NormVal;
  }

  lemma OneChunk(fields: seq<Field>, f: Field, c: Chunk, st: State, k: nat, rest: seq<byte>)
    requires WfField(f) && Find(fields, f.tag) == Some(f) && IsArray(f) && Packable(f.ltype)
    requires Holds(f, st, k) && k <= f.arraySize && ChunkBytes(f, c).Some? && ShortChunks(f, [c])
    ensures Run(fields, ChunkBytes(f, c).value + rest, st) ==
      if k + |c.items| <= f.arraySize then Run(fields, rest, Received(f, st, k, NormVals(f, c.items))) else Err
  {
    hide EncPayload, EncItems, EncTag, EncString, Run, Received, Holds, NormVal;
    if c.packed {
      assert [c][0] == c;
      PackedRecord(fields, f, c.items, st, k, rest);
      assert c == Chunk(true, c.items);
    } else {
      forall i | 0 <= i < |c.items|
        ensures Reads(f, f, c.items[i])
      {
        ItemsEncode(f, c.items, i);
        NumberReads(f, c.items[i]);
      }
      UnpackedItems(fields, f, c.items, st, k, rest);
    }
  }

  /**
    An array in any mixture of packed records and single items: if there is room for all items,
    they are appended in order, and decoding goes on with what follows; otherwise it fails.
   */
  lemma {:induction false} MixtureDecodes(fields: seq<Field>, f: Field, chunks: seq<Chunk>, st: State, k: nat, rest: seq<byte>)
    requires WfField(f) && Find(fields, f.tag) == Some(f) && IsArray(f) && Packable(f.ltype)
    requires Holds(f, st, k) && k <= f.arraySize && Records(f, chunks).Some? && ShortChunks(f, chunks)
    ensures Run(fields, Records(f, chunks).value + rest, st) ==
      if k + |AllItems(chunks)| <= f.arraySize then Run(fields, rest, Received(f, st, k, NormVals(f, AllItems(chunks)))) else Err
    decreases |chunks|
  {
    hide ChunkBytes, EncPayload, Run, Received, Holds, NormVal;
    if |chunks| == 0 {
      assert Records(f, chunks).value + rest == rest && NormVals(f, AllItems(chunks)) == [];
      ReceivedNone(f, st, k);
    } else {
      var c, o := ChunkBytes(f, chunks[0]).value, Records(f, chunks[1..]).value;
      assert (c + o) + rest == c + (o + rest);
      assert ShortChunks(f, [chunks[0]]) && ShortChunks(f, chunks[1..]);
      OneChunk(fields, f, chunks[0], st, k, o + rest);
      var first, others := NormVals(f, chunks[0].items), NormVals(f, AllItems(chunks[1..]));
      AllNormal(f, chunks[0].items, AllItems(chunks[1..]));
      if k + |chunks[0].items| <= f.arraySize {
        ReceivedOnce(f, st, k, first);
        MixtureDecodes(fields, f, chunks[1..], Received(f, st, k, first), k + |first|, rest);
        if k + |AllItems(chunks)| <= f.arraySize {
          ReceivedTwice(f, st, k, first, others);
        }
      }
    }
  }

  /** Two ways of sending the same items decode alike, anywhere in a message. */
  lemma MixturesAgree(fields: seq<Field>, f: Field, a: seq<Chunk>, b: seq<Chunk>, st: State, k: nat, rest: seq<byte>)
    requires WfField(f) && Find(fields, f.tag) == Some(f) && IsArray(f) && Packable(f.ltype)
    requires Holds(f, st, k) && k <= f.arraySize && AllItems(a) == AllItems(b)
    requires Records(f, a).Some? && ShortChunks(f, a) && Records(f, b).Some? && ShortChunks(f, b)
    ensures Run(fields, Records(f, a).value + rest, st) == Run(fields, Records(f, b).value + rest, st)
  {
    hide Run, Records, Received, Holds, ShortChunks;
    MixtureDecodes(fields, f, a, st, k, rest);
    MixtureDecodes(fields, f, b, st, k, rest);
  }

  /**
    In a whole message, whatever is decoded before the array, whatever follows it, and whatever the
    struct held: the mixture in which the items were sent makes no difference.
   */
  lemma MixturesInMessage(fields: seq<Field>, f: Field, a: seq<Chunk>, b: seq<Chunk>, m: Msg, before: seq<byte>, rest: seq<byte>)
    requires WfField(f) && Find(fields, f.tag) == Some(f) && f.htype.Repeated? && Packable(f.ltype)
    requires Merge.RunsDry(fields, before, State(m, {}, None)) && AllItems(a) == AllItems(b)
    requires var st := Run(fields, before, State(m, {}, None));
      st.Ok? ==> f.slot in st.val.m && st.val.m[f.slot].Rep? && |st.val.m[f.slot].items| <= f.arraySize
    requires Records(f, a).Some? && ShortChunks(f, a) && Records(f, b).Some? && ShortChunks(f, b)
    ensures DecMsg(fields, before + (Records(f, a).value + rest), m) == DecMsg(fields, before + (Records(f, b).value + rest), m)
  {
    hide Run, Records, ShortChunks, Merge.RunsDry, AllItems, Finished;
    var start := State(m, {}, None);
    Merge.RunConcat(fields, before, Records(f, a).value + rest, start);
    Merge.RunConcat(fields, before, Records(f, b).value + rest, start);
    var st := Run(fields, before, start).val;
    MixturesAgree(fields, f, a, b, st, |st.m[f.slot].items|, rest);
  }

  // ---------------------------------------------------------------- arrays of fixed size

  /** Records of an array start with its key, if there are any. */
  lemma {:induction false} RecordsStart(f: Field, chunks: seq<Chunk>) returns (wt: nat, data: seq<byte>)
    requires Records(f, chunks).Some? && Records(f, chunks).value != []
    ensures wt < 8 && Records(f, chunks).value == EncTag(wt, f.tag) + data
    decreases |chunks|
  {
    hide EncVal, EncPayload, EncTag;
    var c, o := ChunkBytes(f, chunks[0]).value, Records(f, chunks[1..]).value;
    if c == [] {
      wt, data := RecordsStart(f, chunks[1..]);
      assert [] + o == o;
    } else if chunks[0].packed {
      wt, data := WT_STRING, EncString(EncPayload(f, chunks[0].items).value) + o;
      var t, d := EncTag(wt, f.tag), EncString(EncPayload(f, chunks[0].items).value);
      assert (t + d) + o == t + (d + o);
    } else {
      ItemsHead(f, chunks[0].items);
      var t := EncTag(WireType(f.ltype), f.tag);
      var d := EncVal(f, chunks[0].items[0]).value + EncItems(f, chunks[0].items[1..]).value;
      assert (t + d) + o == t + (d + o);
      wt, data := WireType(f.ltype), d + o;
    }
  }

  /** The first record of a fixed-size array starts filling it. */
  lemma Starts(fields: seq<Field>, f: Field, wt: nat, data: seq<byte>, st: State)
    requires wt < 8 && 1 <= f.tag < 0x2000_0000 && Find(fields, f.tag) == Some(f) && f.htype.FixedCount? && st.fixed == None
    ensures Run(fields, EncTag(wt, f.tag) + data, st)
         == Run(fields, EncTag(wt, f.tag) + data, st.(fixed := Some(Progress(f.tag, 0, f.arraySize))))
  {
    hide EncTag, Run, DecField;
    RunRecord(fields, wt, f.tag, data, st);
    RunRecord(fields, wt, f.tag, data, st.(fixed := Some(Progress(f.tag, 0, f.arraySize))));
  }

  /**
    An array of fixed size, sent in any mixture, ends the message well exactly if its items are
    neither too few nor too many; then it holds them.
   */
  lemma FixedSizeIsMet(fields: seq<Field>, f: Field, chunks: seq<Chunk>, m: Msg)
    requires WfField(f) && Find(fields, f.tag) == Some(f) && f.htype.FixedCount? && Packable(f.ltype)
    requires f.slot in m && m[f.slot].Fix? && |m[f.slot].items| == f.arraySize
    requires Records(f, chunks).Some? && ShortChunks(f, chunks) && Records(f, chunks).value != []
    ensures var r := Run(fields, Records(f, chunks).value, State(m, {}, None));
      && (r.Ok? && Complete(r.val.fixed) <==> |AllItems(chunks)| == f.arraySize)
      && (|AllItems(chunks)| == f.arraySize ==> r.val.m == m[f.slot := Fix(NormVals(f, AllItems(chunks)))])
  {
    hide Run, EncTag, WfField, Records, ShortChunks;
    var st := State(m, {}, None);
    var st1 := st.(fixed := Some(Progress(f.tag, 0, f.arraySize)));
    var bytes := Records(f, chunks).value;
    var wt, data := RecordsStart(f, chunks);
    TagInRange(f);
    Starts(fields, f, wt, data, st);
    assert bytes + [] == bytes;
    MixtureDecodes(fields, f, chunks, st1, 0, []);
    var more := NormVals(f, AllItems(chunks));
    if |more| <= f.arraySize {
      EndOfBytes(fields, Received(f, st1, 0, more));
      assert |more| == f.arraySize ==> m[f.slot].items[..0] + more + m[f.slot].items[|more|..] == more;
    }
  }

  /** While an array of fixed size is not full, no other one may be started. */
  lemma OtherInterrupts(fields: seq<Field>, g: Field, wt: nat, data: seq<byte>, st: State)
    requires wt < 8 && 1 <= g.tag < 0x2000_0000 && Find(fields, g.tag) == Some(g) && g.htype.FixedCount?
    requires st.fixed.Some? && st.fixed.value.tag != g.tag && st.fixed.value.size != st.fixed.value.full
    ensures Run(fields, EncTag(wt, g.tag) + data, st) == Err
  {
    hide EncTag, Run, DecField;
    RunRecord(fields, wt, g.tag, data, st);
  }
}
