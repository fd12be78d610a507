/**
  The ownership model and the codec follow the same control flow, pointers included: what the
  one accepts the other accepts, both stop at the same place, and only an allocation that is
  refused, or too large for a size_t, makes a difference.
 */
module OwnershipAgrees {
  import opened Bytes
  import opened Varint
  import opened Wire
  import opened Message
  import Spec = DecodeSpec
  import opened Ownership
  import opened ReleaseBlocks
  import opened DefaultBlocks
  import opened DecodeBlocks

  // ---------------------------------------------------------------- the same struct, with and without values

  predicate SameValue(f: Field, v: Value, c: Cell)
    decreases f, 0
  {
    f.ltype.LSubmessage? ==> v.VMsg? && c.Sub? && Same(f.ltype.ptr, v.msg, c.mem)
  }

  /** A cell whose struct, once set to its defaults, is the default struct. */
  predicate Resets(f: Field, c: Cell)
    decreases f, 0
  {
    f.ltype.LSubmessage? ==> c.Sub? && Same(f.ltype.ptr, Defaults(f.ltype.ptr), SetDefaults(f.ltype.ptr, c.mem))
  }

  /** The data of a field that is not an array. What a pointer leads to is decoded anew each time. */
  predicate SameData(f: Field, v: Value, c: Cell)
    decreases f, 1
  {
    if f.layout.pointer then c.Ptr? else SameValue(f, v, c)
  }

  predicate SameArray(f: Field, n: nat, c: Cell)
    decreases f, 1
  {
    if f.layout.pointer then c.Vec? && |Items(c)| == n
    else c.Arr? && c.count == n && forall i :: 0 <= i < |c.items| ==> Resets(f, c.items[i])
  }

  predicate SameSlot(f: Field, s: Slot, c: Cell)
    decreases f, 2
  {
    match f.htype
    case Required => s.One? && SameData(f, s.v, c)
    case Singular => s.One? && SameData(f, s.v, c)
    case Optional => s.Opt? && SameData(f, s.v, c)
    case Repeated => s.Rep? && |s.items| <= Capacity(f) && SameArray(f, |s.items|, c)
    case FixedCount =>
      s.Fix? && c.Fixed? && |s.items| == |c.items| == f.arraySize && forall i :: 0 <= i < |c.items| ==> Resets(f, c.items[i])
    case Oneof => s.Union? && c.Choice? && s.which == c.which && (s.which == f.tag ==> SameData(f, s.v, c.data))
  }

  /** A union's tag is that of a member, if of any field. */
  predicate OwnMember(fields: seq<Field>, f: Field, s: Slot) {
    s.Union? ==> forall j :: 0 <= j < |fields| && fields[j].tag == s.which ==> fields[j].htype.Oneof? && fields[j].slot == f.slot
  }

  predicate Same(fields: seq<Field>, m: Msg, mem: Mem)
    decreases fields
  {
    forall i :: 0 <= i < |fields| ==>
      && fields[i].slot in m && fields[i].slot in mem && SameSlot(fields[i], m[fields[i].slot], mem[fields[i].slot])
      && OwnMember(fields, fields[i], m[fields[i].slot])
  }

  // ---------------------------------------------------------------- defaults

  lemma {:induction false} BlankSame(fields: seq<Field>)
    requires Sound(fields)
    ensures Same(fields, Defaults(fields), Blank(fields))
    decreases fields
  {
    hide InitSlot, BlankCell, SameSlot, SoundField, Defaults, Blank;
    forall i | 0 <= i < |fields|
      ensures fields[i].slot in Defaults(fields) && fields[i].slot in Blank(fields)
      ensures SameSlot(fields[i], Defaults(fields)[fields[i].slot], Blank(fields)[fields[i].slot])
      ensures OwnMember(fields, fields[i], Defaults(fields)[fields[i].slot])
    {
      InitMember(fields, i);
      DefaultsAt(fields, i);
      BlankAt(fields, i);
      BlankSlotSame(fields[i]);
    }
  }

  lemma InitMember(fields: seq<Field>, i: nat)
    requires Sound(fields) && i < |fields|
    ensures OwnMember(fields, fields[i], InitSlot(fields[i]))
  {
    hide InitValue;
    forall j | 0 <= j < |fields|
      ensures fields[j].tag >= 1
    {
      assert SoundField(fields[j]);
    }
  }

  lemma {:induction false} BlankSlotSame(f: Field)
    requires SoundField(f)
    ensures SameSlot(f, InitSlot(f), BlankCell(f))
    decreases f
  {
    hide Sound, Same, SetDefaults;
    assert f.layout.pointer ==> BlankData(f) == if f.htype.Repeated? then Vec(0, []) else Ptr(0, Raw);
    assert f.htype.Repeated? ==> SameArray(f, 0, BlankData(f));
    assert f.htype.Required? || f.htype.Singular? || f.htype.Optional? ==>
      (f.layout.pointer || !f.ltype.LSubmessage? ==> SameData(f, InitValue(f), BlankData(f)));
    if f.ltype.LSubmessage? && !f.layout.pointer {
      BlankSame(f.ltype.ptr);
      ResetSame(f.ltype.ptr, Defaults(f.ltype.ptr), Blank(f.ltype.ptr));
      assert SameValue(f, InitValue(f), BlankBody(f)) && Resets(f, BlankItem(f));
      assert SameData(f, InitValue(f), BlankBody(f));
      assert f.htype.Required? || f.htype.Singular? || f.htype.Optional? ==> BlankCell(f) == BlankBody(f);
    }
  }

  lemma {:induction false} OverlayTwiceBody(f: Field, c: Cell)
    ensures OverlayBody(f, OverlayBody(f, c)) == OverlayBody(f, c)
    decreases f, 0
  {
    if f.ltype.LSubmessage? && c.Sub? {
      OverlayTwice(f.ltype.ptr, c.mem);
    }
  }

  lemma {:induction false} OverlayTwiceCell(f: Field, c: Cell)
    ensures OverlayCell(f, OverlayCell(f, c)) == OverlayCell(f, c)
    decreases f, 1
  {
    hide OverlayBody;
    OverlayTwiceBody(f, if c.Fixed? && |c.items| > 0 then c.items[0] else c);
    OverlayTwiceBody(f, c);
  }

  lemma {:induction false} OverlayTwice(fields: seq<Field>, mem: Mem)
    ensures Overlay(fields, Overlay(fields, mem)) == Overlay(fields, mem)
    decreases fields, 2
  {
    hide OverlayCell;
    if |fields| > 0 && fields[0].slot in mem {
      OverlayTwiceCell(fields[0], mem[fields[0].slot]);
    }
  }

  lemma {:induction false} DefaultsHideOverlayCell(f: Field, c: Cell)
    ensures DefaultCell(f, OverlayCell(f, c)) == DefaultCell(f, c)
    decreases f, 0
  {
    if f.htype.Oneof? || f.layout.pointer || f.htype.Repeated? || f.htype.Optional? {
    } else if f.htype.FixedCount? {
      if c.Fixed? && |c.items| > 0 {
        OverlayTwiceBody(f, c.items[0]);
      }
    } else if f.ltype.LSubmessage? && c.Sub? {
      DefaultsHideOverlay(f.ltype.ptr, c.mem);
    }
  }

  /** A zero count at the start of a struct makes no difference once its defaults are set. */
  lemma {:induction false} DefaultsHideOverlay(fields: seq<Field>, mem: Mem)
    ensures SetDefaults(fields, Overlay(fields, mem)) == SetDefaults(fields, mem)
    decreases fields, 1
  {
    hide OverlayCell, DefaultCell;
    if |fields| > 0 && fields[0].slot in mem {
      DefaultsHideOverlayCell(fields[0], mem[fields[0].slot]);
      var d := DefaultCell(fields[0], mem[fields[0].slot]);
      assert Overlay(fields, mem)[fields[0].slot := d] == mem[fields[0].slot := d];
    }
  }

  lemma OverlayResets(f: Field, c: Cell)
    requires Resets(f, c)
    ensures Resets(f, OverlayBody(f, c))
  {
    hide Same, SetDefaults, Defaults, Overlay;
    if f.ltype.LSubmessage? {
      DefaultsHideOverlay(f.ltype.ptr, c.mem);
    }
  }

  /** Setting the defaults of a struct makes it the default struct, but for what fixed-count items hold. */
  lemma {:induction false} ResetSame(fields: seq<Field>, m: Msg, mem: Mem)
    requires Sound(fields) && Same(fields, m, mem)
    ensures Same(fields, Defaults(fields), SetDefaults(fields, mem))
    decreases fields
  {
    hide InitSlot, DefaultCell, SameSlot, SoundField, Defaults, SetDefaults;
    forall i | 0 <= i < |fields|
      ensures fields[i].slot in Defaults(fields) && fields[i].slot in SetDefaults(fields, mem)
      ensures SameSlot(fields[i], Defaults(fields)[fields[i].slot], SetDefaults(fields, mem)[fields[i].slot])
      ensures OwnMember(fields, fields[i], Defaults(fields)[fields[i].slot])
    {
      InitMember(fields, i);
      DefaultsAt(fields, i);
      SetDefaultsAt(fields, mem, i);
      ResetSlotSame(fields[i], m[fields[i].slot], mem[fields[i].slot]);
    }
  }

  lemma {:induction false} ResetSlotSame(f: Field, s: Slot, c: Cell)
    requires SoundField(f) && SameSlot(f, s, c)
    ensures SameSlot(f, InitSlot(f), DefaultCell(f, c))
    decreases f
  {
    hide Sound, Same, Defaults, SetDefaults, OverlayBody, Resets;
    if f.htype.FixedCount? {
      if |c.items| > 0 {
        OverlayResets(f, c.items[0]);
      }
    } else if f.ltype.LSubmessage? && !f.layout.pointer && (f.htype.Required? || f.htype.Singular? || f.htype.Optional?) {
      assert SameData(f, s.v, c) && SameValue(f, s.v, c);
      ResetSame(f.ltype.ptr, s.v.msg, c.mem);
      assert SameData(f, InitValue(f), DefaultCell(f, c));
    } else if f.htype.Repeated? {
      assert SameArray(f, |s.items|, c) && SameArray(f, 0, DefaultCell(f, c));
    } else if !f.htype.Oneof? {
      assert SameData(f, s.v, c) && SameData(f, InitValue(f), DefaultCell(f, c));
    }
  }

  // ---------------------------------------------------------------- decoding

  /** What a value is decoded on top of: defaults for array items and new union members, else the same struct. */
  predicate SameBase(f: Field, v: Value, c: Cell) {
    if !f.ltype.LSubmessage? then true
    else if f.htype.Repeated? || f.htype.FixedCount? then v == VNone && Resets(f, c)
    else c.Sub? && if v.VMsg? then Same(f.ltype.ptr, v.msg, c.mem) else Same(f.ltype.ptr, Defaults(f.ltype.ptr), c.mem)
  }

  /** No allocation from here on is refused. */
  predicate Willing(h: Heap) {
    forall i :: 0 <= i < |h.refusals| ==> !h.refusals[i]
  }

  /** At any depth, arrays of every count and single values can be allocated: their sizes fit in a size_t. */
  predicate RoomyField(f: Field)
    decreases f
  {
    && (f.layout.pointer && (f.htype.Repeated? || !Blob(f.ltype)) ==> forall n :: 1 <= n <= PB_SIZE_MAX ==> SizeAccepted(f.dataSize, n))
    && (f.ltype.LSubmessage? ==> Roomy(f.ltype.ptr))
  }

  predicate Roomy(fields: seq<Field>)
    decreases fields
  {
    forall i :: 0 <= i < |fields| ==> RoomyField(fields[i])
  }

  /**
    What the ownership model accepts the codec accepts, and both stop at the same place. If no
    allocation fails (`w`), the converse holds and none will fail afterwards.
   */
  predicate Agree<T, U>(r: Parse<T>, o: Out<U>, w: bool) {
    && (o.rest.Some? ==> r.Ok? && o.rest == Some(r.rest))
    && (w && r.Ok? ==> o.rest.Some?)
    && (w ==> Willing(o.heap))
  }

  lemma {:induction false} BodyAgrees(f: Field, bs: seq<byte>, v: Value, c: Cell, h: Heap, w: bool)
    requires SoundField(f) && SameBase(f, v, c) && (w ==> Willing(h) && RoomyField(f))
    ensures var r, o := Spec.DecVal(f, bs, v), DecodeBody(f, bs, c, h);
      Agree(r, o, w) && (o.rest.Some? ==> SameValue(f, r.val, o.val))
    decreases |bs|, 0
  {
    hide Sound, Same, Roomy, Willing, Defaults, SetDefaults, DecString, Spec.DecScalar, Spec.DecMsg, MergeStruct, Release;
    if f.ltype.LSubmessage? && DecString(bs).Ok? {
      var body := DecString(bs).val;
      if f.htype.Repeated? || f.htype.FixedCount? {
        StructAgrees(f.ltype.ptr, body, c.mem, h, w);
      } else {
        MergeAgrees(f.ltype.ptr, body, if v.VMsg? then v.msg else Defaults(f.ltype.ptr), c.mem, h, w);
      }
    }
  }

  /** pb_decode on storage that the defaults make the default struct. */
  lemma {:induction false} StructAgrees(fields: seq<Field>, bs: seq<byte>, mem: Mem, h: Heap, w: bool)
    requires Sound(fields) && Same(fields, Defaults(fields), SetDefaults(fields, mem)) && (w ==> Willing(h) && Roomy(fields))
    ensures var r, o := Spec.Decode(fields, bs), DecodeStruct(fields, bs, mem, h);
      Agree(r, o, w) && (o.rest.Some? ==> Same(fields, r.val, o.val))
    decreases |bs|, 7
  {
    hide Sound, Same, Roomy, Willing, Defaults, SetDefaults, Spec.DecMsg, MergeStruct, Release;
    MergeAgrees(fields, bs, Defaults(fields), SetDefaults(fields, mem), h, w);
    WillingSame(MergeStruct(fields, bs, SetDefaults(fields, mem), h).heap, DecodeStruct(fields, bs, mem, h).heap);
  }

  lemma WillingSame(h: Heap, h1: Heap)
    requires h1.refusals == h.refusals
    ensures Willing(h) <==> Willing(h1)
  {
  }

  lemma BlankBase(f: Field)
    requires SoundField(f)
    ensures SameBase(f, VNone, BlankBody(f)) && Resets(f, BlankBody(f))
  {
    hide Sound, Same, Defaults, SetDefaults;
    if f.ltype.LSubmessage? {
      BlankSame(f.ltype.ptr);
      ResetSame(f.ltype.ptr, Defaults(f.ltype.ptr), Blank(f.ltype.ptr));
    }
  }

  predicate AllReset(f: Field, items: seq<Cell>) {
    forall i :: 0 <= i < |items| ==> Resets(f, items[i])
  }

  lemma {:induction false} ArrayAgrees(f: Field, wt: nat, bs: seq<byte>, c: Cell, h: Heap, w: bool)
    requires SoundField(f) && f.htype.Repeated? && !f.layout.pointer && c.Arr? && AllReset(f, c.items)
    requires w ==> Willing(h) && RoomyField(f)
    ensures var r, o := Spec.DecItems(f, wt, bs, c.count), DecodeArray(f, wt, bs, c, h);
      Agree(r, o, w) && (o.rest.Some? ==> SameArray(f, c.count + |r.val|, o.val))
    decreases |bs|, 1
  {
    hide SoundField, RoomyField, Willing, SameValue, Resets, Spec.DecVal, DecodeBody, BlankBody, Spec.DecPacked, DecString;
    if !(Packable(f.ltype) && wt == WT_STRING) && c.count < f.arraySize {
      BlankBase(f);
      var item := if c.count < |c.items| then c.items[c.count] else BlankBody(f);
      BodyAgrees(f, bs, VNone, item, h, w);
      if DecodeBody(f, bs, item, h).rest.Some? {
        ValueResets(f, Spec.DecVal(f, bs, VNone).val, DecodeBody(f, bs, item, h).val);
      }
    } else if Packable(f.ltype) {
      RawResets(f);
    }
  }

  lemma RawResets(f: Field)
    requires Packable(f.ltype)
    ensures forall d :: Resets(f, d)
  {
  }

  lemma {:induction false} FixedAgrees(f: Field, wt: nat, bs: seq<byte>, c: Cell, k: nat, h: Heap, w: bool)
    requires SoundField(f) && f.htype.FixedCount? && c.Fixed? && k <= f.arraySize == |c.items|
    requires (forall i :: 0 <= i < |c.items| ==> Resets(f, c.items[i])) && (w ==> Willing(h) && RoomyField(f))
    ensures var r, o := Spec.DecItems(f, wt, bs, k), DecodeFixed(f, wt, bs, c, k, h);
      && Agree(r, o, w) && o.val.0.Fixed? && |o.val.0.items| == |c.items|
      && (o.rest.Some? ==> o.val.1 == k + |r.val| && forall i :: 0 <= i < |c.items| ==> Resets(f, o.val.0.items[i]))
    decreases |bs|, 1
  {
    hide SoundField, RoomyField, Willing, SameValue, Resets, Spec.DecVal, DecodeBody, Spec.DecPacked, DecString;
    if k < f.arraySize && !(Packable(f.ltype) && wt == WT_STRING) {
      BodyAgrees(f, bs, VNone, c.items[k], h, w);
      if DecodeBody(f, bs, c.items[k], h).rest.Some? {
        ValueResets(f, Spec.DecVal(f, bs, VNone).val, DecodeBody(f, bs, c.items[k], h).val);
      }
    }
  }

  lemma ValueResets(f: Field, v: Value, c: Cell)
    requires SoundField(f) && SameValue(f, v, c)
    ensures Resets(f, c)
  {
    hide Sound, Same, Defaults, SetDefaults;
    if f.ltype.LSubmessage? {
      ResetSame(f.ltype.ptr, v.msg, c.mem);
    }
  }

  // ---------------------------------------------------------------- decoding into pointers

  lemma AllocateWilling(h: Heap, p: nat, dataSize: nat, arraySize: nat)
    ensures var (q, h1) := Allocate(h, p, dataSize, arraySize);
      Willing(h) ==> Willing(h1) && (SizeAccepted(dataSize, arraySize) ==> q != 0)
  {
  }

  /**
    A string or bytes by pointer: it is accepted exactly when its record is whole, its length has
    room for the terminator or the count in a size_t and the allocation is granted; then it is in a
    new block and the record has been read.
   */
  lemma BlobReads(f: Field, bs: seq<byte>, p: nat, h: Heap)
    requires Blob(f.ltype)
    ensures var s, o := DecString(bs), DecodeBlob(f, bs, p, h);
      && (o.rest.Some? <==>
            && s.Ok? && !(|h.refusals| > 0 && h.refusals[0])
            && (if f.ltype.LString? then |s.val| < TWO_32 - 1 else |s.val| <= PB_SIZE_MAX && |s.val| + SIZE_BYTES <= SIZE_MAX))
      && (o.rest.Some? ==> o.rest.value == s.rest && o.val == o.heap.got == h.got + 1)
  {
    hide DecVarint32, SizeAccepted;
    match DecVarint32(bs)
    case Err =>
    case Ok(size, rest) =>
      if f.ltype.LString? || size <= PB_SIZE_MAX {
        BlobRoom(f, size);
      }
  }

  /** With a 64-bit size_t no array that its descriptor and count can describe is too large. */
  lemma WideIsRoomy(f: Field, n: nat)
    requires CHECK_LIMIT == 0x1_0000_0000 && 0 < f.dataSize <= PB_SIZE_MAX && 1 <= n <= PB_SIZE_MAX
    ensures SizeAccepted(f.dataSize, n)
  {
  }

  lemma BlobAgrees(f: Field, bs: seq<byte>, p: nat, h: Heap, w: bool)
    requires f.layout.pointer && Blob(f.ltype) && (w ==> Willing(h))
    ensures var r, o := Spec.DecVal(f, bs, VNone), DecodeBlob(f, bs, p, h);
      Agree(r, o, w) && (o.rest.Some? ==> o.val != 0)
  {
    hide DecVarint32, Willing, SizeAccepted;
    match DecVarint32(bs)
    case Err =>
    case Ok(size, rest) =>
      var room := if f.ltype.LString? then (size + 1) % TWO_32 else InSizeT(size + SIZE_BYTES);
      AllocateWilling(h, p, room, 1);
      if f.ltype.LString? || size <= PB_SIZE_MAX {
        BlobRoom(f, size);
      }
  }

  /** The size of a string's block passes the checks unless it wraps, as it would past the end of a size_t. */
  lemma BlobRoom(f: Field, size: nat)
    requires Blob(f.ltype) && size < TWO_32 && (f.ltype.LBytes? ==> size <= PB_SIZE_MAX)
    ensures var room := if f.ltype.LString? then (size + 1) % TWO_32 else InSizeT(size + SIZE_BYTES);
      && (size > room <==> (if f.ltype.LString? then size == TWO_32 - 1 || size + 1 > SIZE_MAX else size + SIZE_BYTES > SIZE_MAX))
      && (size <= room ==> SizeAccepted(room, 1))
  {
  }

  lemma AcceptedIsPositive(dataSize: nat)
    ensures SizeAccepted(dataSize, 1) ==> dataSize > 0
  {
  }

  lemma {:induction false} PackedItemsAgree(f: Field, bs: seq<byte>, c: Cell, room: nat, h: Heap, w: bool)
    requires Packable(f.ltype) && c.Vec? && |c.items| <= room <= PB_SIZE_MAX && (room > 0 ==> c.p != 0)
    requires w ==> Willing(h) && forall n :: 1 <= n <= PB_SIZE_MAX ==> SizeAccepted(f.dataSize, n)
    ensures var r, o := Spec.DecPacked(f, bs, PB_SIZE_MAX - |c.items|), DecodePackedItems(f, bs, c, room, h);
      && (o.rest.Some? ==> r.Some? && o.val.Vec? && |Items(o.val)| == |c.items| + |r.value|)
      && (w && r.Some? ==> o.rest.Some?)
      && (w ==> Willing(o.heap))
    decreases |bs|
  {
    hide Spec.DecScalar, Willing, Allocate, SizeAccepted, NextRoom;
    assert w ==> SizeAccepted(f.dataSize, 1);
    AcceptedIsPositive(f.dataSize);
    if |bs| > 0 && |c.items| < PB_SIZE_MAX && f.dataSize > 0 {
      var room1 := NextRoom(f.dataSize, |bs|, |c.items|, room);
      AllocateWilling(h, c.p, f.dataSize, room1);
      var (q, h1) := if |c.items| + 1 <= room then (c.p, h) else Allocate(h, c.p, f.dataSize, room1);
      if q != 0 && Spec.DecScalar(f, bs).Ok? {
        PackedItemsAgree(f, Spec.DecScalar(f, bs).rest, Vec(q, c.items + [Raw]), room1, h1, w);
      }
    }
  }

  lemma WidthRead(f: Field, bs: seq<byte>)
    requires (f.ltype.LFixed32? && f.dataSize == 4) || (f.ltype.LFixed64? && f.dataSize == 8)
    ensures Skim(f, bs) == if |bs| >= f.dataSize then Some(bs[f.dataSize..]) else None
  {
    hide FromLe;
  }

  lemma {:induction false} EnoughRoom(f: Field, bs: seq<byte>, n: nat, c: Cell, room: nat, h: Heap)
    requires (f.ltype.LFixed32? && f.dataSize == 4) || (f.ltype.LFixed64? && f.dataSize == 8)
    requires |bs| == f.dataSize * n && c.Vec? && c.p != 0 && |c.items| + n <= room <= PB_SIZE_MAX
    ensures var o := DecodePackedItems(f, bs, c, room, h);
      o.rest == Some([]) && o.heap == h && o.val.Vec? && o.val.p == c.p && |o.val.items| == |c.items| + n
    decreases n
  {
    hide Skim;
    if n > 0 {
      WidthRead(f, bs);
      EnoughRoom(f, bs[f.dataSize..], n - 1, Vec(c.p, c.items + [Raw]), room, h);
    }
  }

  /** The guess is right for items of the array's own width: a packed record of them takes one allocation. */
  lemma FixedWidthOneBlock(f: Field, bs: seq<byte>, n: nat, c: Cell, h: Heap)
    requires (f.ltype.LFixed32? && f.dataSize == 4) || (f.ltype.LFixed64? && f.dataSize == 8)
    requires |bs| == f.dataSize * n && n > 0 && c.Vec? && |c.items| + n < PB_SIZE_MAX
    requires Willing(h) && SizeAccepted(f.dataSize, |c.items| + n)
    ensures var o := DecodePackedItems(f, bs, c, |c.items|, h);
      && o.rest == Some([]) && o.val.Vec? && |o.val.items| == |c.items| + n
      && o.heap == Allocate(h, c.p, f.dataSize, |c.items| + n).1 && o.heap.got == h.got + 1
  {
    hide Skim, SizeAccepted;
    GuessIsRight(f.dataSize, n, |c.items|);
    var (q, h1) := Allocate(h, c.p, f.dataSize, |c.items| + n);
    AllocateWilling(h, c.p, f.dataSize, |c.items| + n);
    WidthRead(f, bs);
    EnoughRoom(f, bs[f.dataSize..], n - 1, Vec(q, c.items + [Raw]), |c.items| + n, h1);
  }

  lemma GuessIsRight(dataSize: nat, n: nat, count: nat)
    requires (dataSize == 4 || dataSize == 8) && n > 0 && count + n < PB_SIZE_MAX
    ensures NextRoom(dataSize, dataSize * n, count, count) == count + n
  {
  }

  lemma {:induction false} VecAgrees(f: Field, wt: nat, bs: seq<byte>, c: Cell, h: Heap, w: bool)
    requires SoundField(f) && f.layout.pointer && f.htype.Repeated? && c.Vec? && |Items(c)| <= PB_SIZE_MAX
    requires w ==> Willing(h) && RoomyField(f)
    ensures var r, o := Spec.DecItems(f, wt, bs, |Items(c)|), DecodeVec(f, wt, bs, c, h);
      Agree(r, o, w) && (o.rest.Some? ==> SameArray(f, |Items(c)| + |r.val|, o.val))
    decreases |bs|, 1
  {
    hide SoundField, Willing, SameValue, SameBase, Resets, Spec.DecVal, DecodeBody, DecodeBlob, BlankBody, Spec.DecPacked, DecodePackedItems,
      DecString, Allocate, SizeAccepted, Roomy;
    var items := Items(c);
    if Packable(f.ltype) && wt == WT_STRING {
      if DecString(bs).Ok? {
        PackedItemsAgree(f, DecString(bs).val, Vec(c.p, items), |items|, h, w);
      }
    } else if |items| < PB_SIZE_MAX {
      AllocateWilling(h, c.p, f.dataSize, |items| + 1);
      var (q, h1) := Allocate(h, c.p, f.dataSize, |items| + 1);
      if q != 0 {
        if Blob(f.ltype) {
          BlobAgrees(f, bs, 0, h1, w);
        } else {
          BlankBase(f);
          BodyAgrees(f, bs, VNone, BlankBody(f), h1, w);
        }
      }
    }
  }

  lemma {:induction false} PointerAgrees(f: Field, bs: seq<byte>, c: Cell, h: Heap, w: bool)
    requires SoundField(f) && f.layout.pointer && !f.htype.Repeated? && c.Ptr? && (w ==> Willing(h) && RoomyField(f))
    ensures var r, o := Spec.DecVal(f, bs, VNone), DecodePointer(f, bs, c, h);
      Agree(r, o, w) && (o.rest.Some? ==> o.val.Ptr?)
    decreases |bs|, 1
  {
    hide SoundField, Willing, SameValue, SameBase, Resets, Spec.DecVal, DecodeBody, DecodeBlob, BlankBody, Allocate, SizeAccepted, Roomy, DataPointers,
      ReleaseBody;
    if Blob(f.ltype) {
      BlobAgrees(f, bs, c.p, h, w);
    } else {
      var (c1, h1) := if f.ltype.LSubmessage? && c.p != 0 then ReleaseData(f, c, h) else (c, h);
      WillingSame(h, h1);
      AllocateWilling(h1, c1.p, f.dataSize, 1);
      BlankBase(f);
      BodyAgrees(f, bs, VNone, BlankBody(f), Allocate(h1, c1.p, f.dataSize, 1).1, w);
    }
  }

  /** The data of a field other than an array. */
  lemma {:induction false} DataAgrees(f: Field, wt: nat, bs: seq<byte>, v: Value, c: Cell, h: Heap, w: bool)
    requires SoundField(f) && !f.htype.Repeated? && !f.htype.FixedCount? && (w ==> Willing(h) && RoomyField(f))
    requires if f.layout.pointer then c.Ptr? else SameBase(f, v, c)
    ensures var r, o := Spec.DecVal(f, bs, Spec.Base(f, v)), DecodeData(f, wt, bs, c, h);
      Agree(r, o, w) && (o.rest.Some? ==> SameData(f, r.val, o.val))
    decreases |bs|, 2
  {
    hide SoundField, RoomyField, Willing, SameValue, SameBase, Spec.DecVal, DecodeBody, DecodePointer;
    if f.layout.pointer {
      PointerAgrees(f, bs, c, h, w);
    } else {
      BodyAgrees(f, bs, v, c, h, w);
    }
  }

  // ---------------------------------------------------------------- records and messages

  /** The bookkeeping without the struct. */
  function Book(st: Spec.State): Spec.State {
    Spec.State(map[], st.seen, st.fixed)
  }

  predicate FixedWithin(fields: seq<Field>, fixed: Option<Spec.Progress>) {
    fixed.Some? ==> forall i :: 0 <= i < |fields| && fields[i].tag == fixed.value.tag ==> fixed.value.size <= fields[i].arraySize
  }

  predicate SameState(fields: seq<Field>, st: Spec.State, book: Spec.State, mem: Mem) {
    book == Book(st) && Same(fields, st.m, mem) && FixedWithin(fields, st.fixed)
  }

  lemma SameUpdate(fields: seq<Field>, m: Msg, mem: Mem, f: Field, s: Slot, c: Cell)
    requires Sound(fields) && Same(fields, m, mem) && f in fields && SameSlot(f, s, c)
    requires f.htype.Oneof? ==> s.Union? && s.which == f.tag
    ensures Same(fields, m[f.slot := s], mem[f.slot := c])
  {
    hide SameValue, SoundField;
    forall i | 0 <= i < |fields|
      ensures fields[i].slot in m[f.slot := s] && fields[i].slot in mem[f.slot := c]
      ensures SameSlot(fields[i], m[f.slot := s][fields[i].slot], mem[f.slot := c][fields[i].slot])
      ensures OwnMember(fields, fields[i], m[f.slot := s][fields[i].slot])
    {
      var j :| 0 <= j < |fields| && fields[j] == f;
      if fields[i] != f && fields[i].slot == f.slot {
        assert fields[i].htype.Oneof? && fields[i].tag != f.tag;
      }
    }
  }

  lemma RoomyMember(fields: seq<Field>, f: Field)
    requires Roomy(fields) && f in fields
    ensures RoomyField(f)
  {
  }

  lemma SameAt(fields: seq<Field>, m: Msg, mem: Mem, f: Field)
    requires Same(fields, m, mem) && f in fields
    ensures f.slot in m && f.slot in mem && SameSlot(f, m[f.slot], mem[f.slot]) && OwnMember(fields, f, m[f.slot])
  {
  }

  /** What a field that is not an array holds is what the codec decodes on top of. */
  lemma HeldBase(f: Field, v: Value, c: Cell)
    requires SameData(f, v, c) && !f.htype.Repeated? && !f.htype.FixedCount?
    ensures if f.layout.pointer then c.Ptr? else SameBase(f, v, c)
  {
    hide Same;
  }

  lemma {:induction false} FieldAgrees(fields: seq<Field>, f: Field, wt: nat, bs: seq<byte>, st: Spec.State, mem: Mem, h: Heap, w: bool)
    requires Sound(fields) && f in fields && SameState(fields, st, Book(st), mem) && (w ==> Willing(h) && Roomy(fields))
    requires f.htype.FixedCount? ==> st.fixed.Some? && st.fixed.value.tag == f.tag && st.fixed.value.size <= f.arraySize
    ensures var r, o := Spec.DecField(fields, f, wt, bs, st), DecodeField(fields, f, wt, bs, Book(st), mem, h);
      Agree(r, o, w) && (o.rest.Some? ==> SameState(fields, r.val, o.val.1, o.val.0))
    decreases |bs|, 4
  {
    hide Sound, SoundField, Roomy, RoomyField, Willing, Same, Spec.DecVal, Spec.DecItems, DecodeData, DecodeFixed, FixedWithin, SameData, SameBase,
      SameArray, Resets;
    SoundMember(fields, f);
    if w {
      RoomyMember(fields, f);
    }
    SameAt(fields, st.m, mem, f);
    var s, c := st.m[f.slot], mem[f.slot];
    match f.htype
    case Repeated =>
      ItemsAgree(f, wt, bs, |s.items|, c, h, w);
      var o := DecodeData(f, wt, bs, c, h);
      if o.rest.Some? {
        SameUpdate(fields, st.m, mem, f, Rep(s.items + Spec.DecItems(f, wt, bs, |s.items|).val), o.val);
      }
    case FixedCount =>
      var k := st.fixed.value.size;
      var o := DecodeFixed(f, wt, bs, c, k, h);
      FixedAgrees(f, wt, bs, c, k, h, w);
      if o.rest.Some? {
        var r := Spec.DecItems(f, wt, bs, k);
        SameUpdate(fields, st.m, mem, f, Fix(s.items[..k] + r.val + s.items[k + |r.val|..]), o.val.0);
        FixedStays(fields, f, st.fixed.value.(size := k + |r.val|));
      }
    case Oneof =>
      MemberAgrees(fields, f, wt, bs, st, mem, h, w);
    case _ =>
      HeldBase(f, s.v, c);
      DataAgrees(f, wt, bs, s.v, c, h, w);
      var o := DecodeData(f, wt, bs, c, h);
      if o.rest.Some? {
        SameUpdate(fields, st.m, mem, f, Wrapped(f, Spec.DecVal(f, bs, Spec.Base(f, s.v)).val), o.val);
      }
  }

  /** An array with a count, embedded or by pointer. */
  lemma {:induction false} ItemsAgree(f: Field, wt: nat, bs: seq<byte>, n: nat, c: Cell, h: Heap, w: bool)
    requires SoundField(f) && f.htype.Repeated? && SameArray(f, n, c) && n <= Capacity(f) && (w ==> Willing(h) && RoomyField(f))
    ensures var r, o := Spec.DecItems(f, wt, bs, n), DecodeData(f, wt, bs, c, h);
      Agree(r, o, w) && (o.rest.Some? ==> SameArray(f, n + |r.val|, o.val))
    decreases |bs|, 2
  {
    hide SoundField, RoomyField, Willing, Resets, Spec.DecItems, DecodeArray, DecodeVec;
    if f.layout.pointer {
      VecAgrees(f, wt, bs, c, h, w);
    } else {
      ArrayAgrees(f, wt, bs, c, h, w);
    }
  }

  /** The slot of a single value that was read. */
  function Wrapped(f: Field, v: Value): Slot {
    if f.htype.Optional? then Opt(1, v) else One(v)
  }

  lemma FixedStays(fields: seq<Field>, f: Field, p: Spec.Progress)
    requires Sound(fields) && f in fields && p.tag == f.tag && p.size <= f.arraySize
    ensures FixedWithin(fields, Some(p))
  {
    hide SoundField;
    var j :| 0 <= j < |fields| && fields[j] == f;
  }

  /** Releasing the old member touches the union's storage only. */
  lemma DropTouches(fields: seq<Field>, f: Field, s: Slot, mem: Mem, h: Heap, c: Cell)
    requires f in fields && f.slot in mem && s.Union? && mem[f.slot].Choice? && mem[f.slot].which == s.which
    requires OwnMember(fields, f, s)
    ensures var d := DropMember(fields, f, mem, h);
      && (d.None? <==> s.which != 0 && s.which != f.tag && Find(fields, s.which).None?)
      && (d.Some? ==> d.value.1.refusals == h.refusals && d.value.0[f.slot := c] == mem[f.slot := c])
  {
    hide ReleaseCell;
    match Find(fields, s.which)
    case None =>
    case Some(g) =>
      var j :| 0 <= j < |fields| && fields[j] == g;
      assert g.slot == f.slot;
      assert ReleaseField(g, mem, h).0[f.slot := c] == mem[f.slot := c];
  }

  lemma {:induction false} MemberAgrees(fields: seq<Field>, f: Field, wt: nat, bs: seq<byte>, st: Spec.State, mem: Mem, h: Heap, w: bool)
    requires Sound(fields) && f in fields && SoundField(f) && f.htype.Oneof? && SameState(fields, st, Book(st), mem)
    requires w ==> Willing(h) && Roomy(fields) && RoomyField(f)
    ensures var r, o := Spec.DecField(fields, f, wt, bs, st), DecodeField(fields, f, wt, bs, Book(st), mem, h);
      Agree(r, o, w) && (o.rest.Some? ==> SameState(fields, r.val, o.val.1, o.val.0))
    decreases |bs|, 3
  {
    hide Sound, SoundField, Roomy, RoomyField, Willing, Same, Spec.DecVal, DecodeData, FixedWithin, SameData, SameBase, DropMember, Replaced, OwnMember;
    SameAt(fields, st.m, mem, f);
    var s, c := st.m[f.slot], mem[f.slot];
    var next := DecodeField(fields, f, wt, bs, Book(st), mem, h).val.0;
    DropTouches(fields, f, s, mem, h, if f.slot in next then next[f.slot] else c);
    var drop := DropMember(fields, f, mem, h);
    if drop.Some? {
      WillingSame(h, drop.value.1);
      var v := if s.which == f.tag then s.v else VNone;
      var d := if s.which == f.tag then c.data else BlankData(f);
      if s.which == f.tag {
        HeldBase(f, v, d);
      } else {
        BlankMember(f);
      }
      DataAgrees(f, wt, bs, v, d, drop.value.1, w);
      var o := DecodeData(f, wt, bs, d, drop.value.1);
      assert Spec.Base(f, VNone) == VNone;
      if o.rest.Some? {
        SameUpdate(fields, st.m, mem, f, Slot.Union(f.tag, Spec.DecVal(f, bs, Spec.Base(f, v)).val), Choice(f.tag, o.val));
      }
    }
  }

  lemma BlankMember(f: Field)
    requires SoundField(f) && f.htype.Oneof?
    ensures if f.layout.pointer then BlankData(f).Ptr? else SameBase(f, VNone, BlankData(f))
  {
    hide Sound, Same, Defaults, SetDefaults;
    if f.ltype.LSubmessage? && !f.layout.pointer {
      BlankSame(f.ltype.ptr);
    }
  }

  lemma EnterAgrees(fields: seq<Field>, f: Field, st: Spec.State)
    requires Sound(fields) && f in fields && FixedWithin(fields, st.fixed)
    ensures Spec.Enter(f, st).Some? <==> Spec.Enter(f, Book(st)).Some?
    ensures Spec.Enter(f, st).Some? ==>
      var st1 := Spec.Enter(f, st).value;
      && st1.m == st.m && Spec.Enter(f, Book(st)) == Some(Book(st1)) && FixedWithin(fields, st1.fixed)
      && (f.htype.FixedCount? ==> st1.fixed.Some? && st1.fixed.value.tag == f.tag && st1.fixed.value.size <= f.arraySize)
  {
    hide Sound;
    if f.htype.FixedCount? {
      FixedStays(fields, f, Spec.Progress(f.tag, 0, f.arraySize));
      var j :| 0 <= j < |fields| && fields[j] == f;
    }
  }

  lemma {:induction false} LoopAgrees(fields: seq<Field>, bs: seq<byte>, st: Spec.State, mem: Mem, h: Heap, w: bool)
    requires Sound(fields) && SameState(fields, st, Book(st), mem) && (w ==> Willing(h) && Roomy(fields))
    ensures var r, o := Spec.Run(fields, bs, st), Loop(fields, bs, Book(st), mem, h);
      && (o.rest.Some? ==> r.Ok? && Spec.Finished(fields, r.val) && o.rest == Some(r.rest) && Same(fields, r.val.m, o.val))
      && (w && r.Ok? && Spec.Finished(fields, r.val) ==> o.rest.Some?)
      && (w ==> Willing(o.heap))
    decreases |bs|, 5
  {
    hide Sound, Roomy, Willing, Same, FixedWithin, Spec.DecField, DecodeField, Find, Spec.Enter, DecTag, SkipField;
    match DecTag(bs)
    case BadTag =>
    case End(_) => FinishedAgrees(fields, st);
    case Tag(tag, wt, after) =>
      if Find(fields, tag).None? {
        var r := Spec.Step(fields, tag, wt, after, st);
        if r.Ok? {
          LoopAgrees(fields, r.rest, st, mem, h, w);
        }
      } else {
        var f := Find(fields, tag).value;
        EnterAgrees(fields, f, st);
        if Spec.Enter(f, st).Some? {
          var st1 := Spec.Enter(f, st).value;
          FieldAgrees(fields, f, wt, after, st1, mem, h, w);
          var r, o := Spec.DecField(fields, f, wt, after, st1), DecodeField(fields, f, wt, after, Book(st1), mem, h);
          if o.rest.Some? {
            LoopAgrees(fields, r.rest, r.val, o.val.0, o.heap, w);
          }
        }
      }
  }

  lemma FinishedAgrees(fields: seq<Field>, st: Spec.State)
    ensures Spec.Finished(fields, st) <==> Spec.Finished(fields, Book(st))
  {
  }

  lemma {:induction false} MergeAgrees(fields: seq<Field>, bs: seq<byte>, m: Msg, mem: Mem, h: Heap, w: bool)
    requires Sound(fields) && Same(fields, m, mem) && (w ==> Willing(h) && Roomy(fields))
    ensures var r, o := Spec.DecMsg(fields, bs, m), MergeStruct(fields, bs, mem, h);
      Agree(r, o, w) && (o.rest.Some? ==> Same(fields, r.val, o.val))
    decreases |bs|, 6
  {
    hide Sound, Roomy, Willing, Same, Spec.Run, Loop, Spec.Finished;
    LoopAgrees(fields, bs, Spec.State(m, {}, None), mem, h, w);
  }

  // ---------------------------------------------------------------- main results

  /**
    pb_decode into a struct, pointers and all: it accepts nothing that the codec does not accept,
    stops where the codec stops, and accepts everything that the codec does unless an allocation
    is refused or the array's size does not fit in a size_t.
   */
  lemma {:induction false} DecodeAgrees(fields: seq<Field>, bs: seq<byte>, h: Heap)
    requires Sound(fields)
    ensures var r, o := Spec.Decode(fields, bs), DecodeStruct(fields, bs, Blank(fields), h);
      && (o.rest.Some? ==> r.Ok? && o.rest == Some(r.rest))
      && (Willing(h) && Roomy(fields) ==> (o.rest.Some? <==> r.Ok?))
  {
    hide Sound, Same, Roomy, Willing, Spec.Decode, DecodeStruct, Defaults, SetDefaults, Blank;
    BlankSame(fields);
    ResetSame(fields, Defaults(fields), Blank(fields));
    StructAgrees(fields, bs, Blank(fields), h, Willing(h) && Roomy(fields));
  }
}
