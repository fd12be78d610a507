/**
  Decoding accounts for every block: what is live and what the storage holds change together.
 */
module DecodeBlocks {
  import opened Bytes
  import opened Varint
  import opened Wire
  import opened Message
  import opened DecodeSpec
  import opened Ownership
  import opened ReleaseBlocks
  import opened StoredBlocks
  import opened DefaultBlocks

  // ---------------------------------------------------------------- storage given up

  /** How often block `p` was held by storage that was given up, and neither freed nor held by it afterwards. */
  function Gone(d: Drop, p: nat): int {
    d.before[p] as int - d.freed[p] as int - d.after[p] as int
  }

  function Lost(ds: seq<Drop>, p: nat): int {
    if |ds| == 0 then 0 else Gone(ds[0], p) + Lost(ds[1..], p)
  }

  /** Nothing is lost with the storage: every pointer that was in it was released or still is in it. */
  predicate Kept(d: Drop) {
    d.before == d.freed + d.after
  }

  /** Whatever is freed or stays was there before, and a cut pointer is not kept. */
  predicate Fair(ds: seq<Drop>, p: nat) {
    forall i :: 0 <= i < |ds| ==> Gone(ds[i], p) >= 0 && (ds[i].cut ==> !Kept(ds[i]))
  }

  lemma {:induction false} LostConcat(a: seq<Drop>, b: seq<Drop>, p: nat)
    ensures Lost(a + b, p) == Lost(a, p) + Lost(b, p)
    ensures Fair(a, p) && Fair(b, p) ==> Fair(a + b, p)
    decreases |a|
  {
    hide Gone, Kept;
    if |a| == 0 {
      assert a + b == b;
    } else {
      assert (a + b)[1..] == a[1..] + b;
      LostConcat(a[1..], b, p);
    }
  }

  lemma OneLost(d: Drop, p: nat)
    ensures Lost([d], p) == Gone(d, p)
    ensures Fair([d], p) <==> Gone(d, p) >= 0 && (d.cut ==> !Kept(d))
    ensures Lost([], p) == 0 && Fair([], p)
  {
    assert [d][1..] == [];
  }

  // ---------------------------------------------------------------- decoding accounts for every block

  lemma {:induction false} DecodeBodyKeeps(f: Field, bs: seq<byte>, c: Cell, h: Heap, p: nat)
    requires SoundField(f)
    ensures var o := DecodeBody(f, bs, c, h);
      && Live(o.heap, p) - BodyOwns(f, o.val, Stored, p) == Live(h, p) - BodyOwns(f, c, Stored, p) + Lost(o.drops, p)
      && Fair(o.drops, p)
    decreases |bs|, 0
  {
    hide Live, Sound, DecString, Owns, SetDefaults, DecodeStruct, MergeStruct;
    if f.ltype.LSubmessage? && c.Sub? && DecString(bs).Ok? {
      var body := DecString(bs).val;
      if f.htype.FixedCount? || f.htype.Repeated? {
        DecodeKeeps(f.ltype.ptr, body, c.mem, h, p);
      } else {
        MergeKeeps(f.ltype.ptr, body, c.mem, h, p);
      }
    }
  }

  lemma DecodeBlobKeeps(f: Field, bs: seq<byte>, q: nat, h: Heap, p: nat)
    ensures var o := DecodeBlob(f, bs, q, h);
      Live(o.heap, p) - Is(o.val, p) == Live(h, p) - Is(q, p) && o.drops == []
  {
    hide Live, Is, Allocate, DecVarint32;
    match DecVarint32(bs)
    case Err =>
    case Ok(size, rest) =>
      var room := if f.ltype.LString? then (size + 1) % TWO_32 else InSizeT(size + SIZE_BYTES);
      AllocateLive(h, q, room, 1, p);
  }

  lemma ItemsOwnSnoc(f: Field, a: seq<Cell>, c: Cell, r: Reach, p: nat)
    ensures ItemsOwn(f, a + [c], r, p) == ItemsOwn(f, a, r, p) + ItemOwns(f, c, r, p)
  {
    hide ItemOwns;
    ItemsOwnConcat(f, a, [c], r, p);
    assert [c][1..] == [];
  }

  lemma {:induction false} ItemsOwnUpdate(f: Field, a: seq<Cell>, k: nat, c: Cell, r: Reach, p: nat)
    requires k < |a|
    ensures ItemsOwn(f, a[k := c], r, p) == ItemsOwn(f, a, r, p) - ItemOwns(f, a[k], r, p) + ItemOwns(f, c, r, p)
    decreases |a|
  {
    hide ItemOwns;
    if k == 0 {
      assert a[k := c][1..] == a[1..];
    } else {
      assert a[k := c][1..] == a[1..][k - 1 := c];
      ItemsOwnUpdate(f, a[1..], k - 1, c, r, p);
    }
  }

  lemma {:induction false} DecodeArrayKeeps(f: Field, wt: nat, bs: seq<byte>, c: Cell, h: Heap, p: nat)
    requires SoundField(f) && c.Arr? && !f.layout.pointer && f.htype.Repeated?
    ensures var o := DecodeArray(f, wt, bs, c, h);
      && Live(o.heap, p) - DataOwns(f, o.val, Stored, p) == Live(h, p) - DataOwns(f, c, Stored, p) + Lost(o.drops, p)
      && Fair(o.drops, p)
    decreases |bs|, 1
  {
    hide Live, SoundField, DecodePacked, DecodeBody, ItemsOwn, BlankBody, BodyOwns, Put;
    var o := DecodeArray(f, wt, bs, c, h);
    StoredArray(f, c, p);
    StoredArray(f, o.val, p);
    if Packable(f.ltype) && wt == WT_STRING {
      FlatItems(f, c.items, p);
      FlatItems(f, o.val.items, p);
    } else if c.count < f.arraySize {
      var item := if c.count < |c.items| then c.items[c.count] else BlankBody(f);
      var d := DecodeBody(f, bs, item, h);
      DecodeBodyKeeps(f, bs, item, h, p);
      PutOwns(f, c.items, c.count, d.val, Stored, p);
      BlankBodyOwns(f, p);
    }
  }

  lemma StoredArray(f: Field, c: Cell, p: nat)
    requires c.Arr? && !f.layout.pointer && f.htype.Repeated?
    ensures DataOwns(f, c, Stored, p) == ItemsOwn(f, c.items, Stored, p)
  {
    hide ItemsOwn;
    assert c.items[..|c.items|] == c.items;
  }

  /** Items that are not submessages hold nothing in embedded storage. */
  lemma {:induction false} FlatItems(f: Field, items: seq<Cell>, p: nat)
    requires !f.ltype.LSubmessage? && !f.layout.pointer
    ensures ItemsOwn(f, items, Stored, p) == 0
    decreases |items|
  {
    if |items| > 0 {
      FlatItems(f, items[1..], p);
      BlobBody(f, items[0], Stored, p);
    }
  }

  lemma PutOwns(f: Field, items: seq<Cell>, k: nat, c: Cell, r: Reach, p: nat)
    requires !f.layout.pointer
    ensures ItemsOwn(f, Put(items, k, c), r, p) ==
      ItemsOwn(f, items, r, p) - (if k < |items| then BodyOwns(f, items[k], r, p) else 0) + BodyOwns(f, c, r, p)
  {
    hide ItemsOwn, BodyOwns;
    if k < |items| {
      ItemsOwnUpdate(f, items, k, c, r, p);
    } else {
      ItemsOwnSnoc(f, items, c, r, p);
    }
  }

  lemma {:induction false} DecodeFixedKeeps(f: Field, wt: nat, bs: seq<byte>, c: Cell, k: nat, h: Heap, p: nat)
    requires SoundField(f) && c.Fixed? && f.htype.FixedCount?
    ensures var o := DecodeFixed(f, wt, bs, c, k, h);
      && Live(o.heap, p) - DataOwns(f, o.val.0, Stored, p) == Live(h, p) - DataOwns(f, c, Stored, p) + Lost(o.drops, p)
      && Fair(o.drops, p)
    decreases |bs|, 1
  {
    hide Live, SoundField, DecodePacked, DecodeBody, ItemsOwn, BodyOwns, PointerFreeField;
    if (Packable(f.ltype) && wt == WT_STRING) || k >= f.arraySize || k >= |c.items| {
    } else {
      DecodeBodyKeeps(f, bs, c.items[k], h, p);
      ItemsOwnUpdate(f, c.items, k, DecodeBody(f, bs, c.items[k], h).val, Stored, p);
      FixedIsFlat(f);
    }
  }

  lemma FixedIsFlat(f: Field)
    requires SoundField(f) && f.htype.FixedCount?
    ensures !f.layout.pointer
  {
  }

  lemma {:induction false} DecodePointerKeeps(f: Field, bs: seq<byte>, c: Cell, h: Heap, p: nat)
    requires SoundField(f) && c.Ptr? && f.layout.pointer && !f.htype.Repeated?
    ensures var o := DecodePointer(f, bs, c, h);
      && Live(o.heap, p) - DataOwns(f, o.val, Stored, p) == Live(h, p) - DataOwns(f, c, Stored, p) + Lost(o.drops, p)
      && Fair(o.drops, p)
    decreases |bs|, 1
  {
    hide Live, SoundField, DecodeBody, BlankBody, BodyOwns, Allocate, DecodeBlob, ReleaseData, DataPointers, Kept;
    if Blob(f.ltype) {
      DecodeBlobKeeps(f, bs, c.p, h, p);
      BlobBody(f, c.target, Stored, p);
      BlobBody(f, Raw, Stored, p);
      HeldIs(c.p, p);
      HeldIs(DecodeBlob(f, bs, c.p, h).val, p);
    } else {
      var (c1, h1) := if f.ltype.LSubmessage? && c.p != 0 then ReleaseData(f, c, h) else (c, h);
      if f.ltype.LSubmessage? && c.p != 0 {
        ReleaseDataFrees(f, c, h, p);
        ReleasedPointer(f, c, h);
      } else if c.p != 0 {
        BlobBody(f, c.target, Stored, p);
      }
      var drop := Drop(DataPointers(f, c, Stored), DataPointers(f, c, Counted), multiset{}, false);
      DataPointersAre(f, c, Stored, p);
      DataPointersAre(f, c, Counted, p);
      ReleaseDataLeaves(f, c, h, p);
      OneLost(drop, p);
      var (q, h2) := Allocate(h1, c1.p, f.dataSize, 1);
      AllocateLive(h1, c1.p, f.dataSize, 1, p);
      if q != 0 {
        BlankBodyOwns(f, p);
        DecodeBodyKeeps(f, bs, BlankBody(f), h2, p);
        LostConcat([drop], DecodeBody(f, bs, BlankBody(f), h2).drops, p);
        NothingBefore(DecodeBody(f, bs, BlankBody(f), h2).drops);
      }
    }
  }

  lemma NothingBefore(ds: seq<Drop>)
    ensures [] + ds == ds
  {
  }

  lemma HeldIs(q: nat, p: nat)
    ensures q == 0 ==> Is(q, p) == 0
  {
  }

  lemma BlobBody(f: Field, c: Cell, r: Reach, p: nat)
    requires !f.ltype.LSubmessage?
    ensures BodyOwns(f, c, r, p) == 0
  {
  }

  lemma ReleasedPointer(f: Field, c: Cell, h: Heap)
    requires f.layout.pointer && !f.htype.Repeated? && c.Ptr?
    ensures ReleaseData(f, c, h).0 == Ptr(0, Raw)
  {
  }

  lemma {:induction false} DecodePackedItemsKeeps(f: Field, bs: seq<byte>, c: Cell, room: nat, h: Heap, p: nat)
    requires c.Vec? && !f.ltype.LSubmessage? && !Blob(f.ltype) && f.layout.pointer && f.htype.Repeated?
    ensures var o := DecodePackedItems(f, bs, c, room, h);
      && Live(o.heap, p) - DataOwns(f, o.val, Stored, p) == Live(h, p) - DataOwns(f, c, Stored, p)
      && o.drops == []
    decreases |bs|
  {
    hide Live, Skim, Allocate, DataOwns;
    PlainVec(f, c, p);
    if |bs| != 0 && |c.items| != PB_SIZE_MAX && f.dataSize != 0 {
      var room1 := NextRoom(f.dataSize, |bs|, |c.items|, room);
      var (q, h1) := if |c.items| + 1 <= room then (c.p, h) else Allocate(h, c.p, f.dataSize, room1);
      if |c.items| + 1 > room {
        AllocateLive(h, c.p, f.dataSize, room1, p);
      }
      PlainVec(f, Vec(q, c.items), p);
      PlainVec(f, Vec(q, c.items + [Raw]), p);
      if q != 0 && Skim(f, bs).Some? {
        DecodePackedItemsKeeps(f, Skim(f, bs).value, Vec(q, c.items + [Raw]), room1, h1, p);
      }
    }
  }

  /** An array of plain values holds its own block only. */
  lemma PlainVec(f: Field, c: Cell, p: nat)
    requires c.Vec? && !f.ltype.LSubmessage? && !Blob(f.ltype) && f.layout.pointer && f.htype.Repeated?
    ensures DataOwns(f, c, Stored, p) == Is(c.p, p)
  {
    PlainItems(f, c.items, p);
  }

  lemma {:induction false} PlainItems(f: Field, items: seq<Cell>, p: nat)
    requires !f.ltype.LSubmessage? && !Blob(f.ltype)
    ensures ItemsOwn(f, items, Stored, p) == 0
    decreases |items|
  {
    if |items| > 0 {
      PlainItems(f, items[1..], p);
      BlobBody(f, items[0], Stored, p);
    }
  }

  lemma {:induction false} DecodeVecKeeps(f: Field, wt: nat, bs: seq<byte>, c: Cell, h: Heap, p: nat)
    requires SoundField(f) && c.Vec? && f.layout.pointer && f.htype.Repeated?
    ensures var o := DecodeVec(f, wt, bs, c, h);
      && Live(o.heap, p) - DataOwns(f, o.val, Stored, p) == Live(h, p) - DataOwns(f, c, Stored, p) + Lost(o.drops, p)
      && Fair(o.drops, p)
    decreases |bs|, 1
  {
    hide Live, SoundField, DecodePackedItems, DecodeBody, ItemsOwn, BlankBody, BodyOwns, Allocate, DecodeBlob;
    var items := Items(c);
    if Packable(f.ltype) && wt == WT_STRING {
      if DecString(bs).Ok? {
        DecodePackedItemsKeeps(f, DecString(bs).val, Vec(c.p, items), |items|, h, p);
      }
    } else if |items| != PB_SIZE_MAX {
      var (q, h1) := Allocate(h, c.p, f.dataSize, |items| + 1);
      AllocateLive(h, c.p, f.dataSize, |items| + 1, p);
      NoItems(f, p);
      HeldIs(c.p, p);
      if q != 0 {
        if Blob(f.ltype) {
          DecodeBlobKeeps(f, bs, 0, h1, p);
          ItemsOwnSnoc(f, items, Ptr(DecodeBlob(f, bs, 0, h1).val, Raw), Stored, p);
        } else {
          BlankBodyOwns(f, p);
          DecodeBodyKeeps(f, bs, BlankBody(f), h1, p);
          ItemsOwnSnoc(f, items, DecodeBody(f, bs, BlankBody(f), h1).val, Stored, p);
        }
      }
    }
  }

  lemma {:induction false} DecodeDataKeeps(f: Field, wt: nat, bs: seq<byte>, c: Cell, h: Heap, p: nat)
    requires SoundField(f) && !f.htype.FixedCount?
    ensures var o := DecodeData(f, wt, bs, c, h);
      && Live(o.heap, p) - DataOwns(f, o.val, Stored, p) == Live(h, p) - DataOwns(f, c, Stored, p) + Lost(o.drops, p)
      && Fair(o.drops, p)
    decreases |bs|, 2
  {
    hide Live, SoundField, DecodeVec, DecodePointer, DecodeArray, DecodeBody, ItemsOwn, BodyOwns, DataOwns;
    if f.layout.pointer {
      if f.htype.Repeated? {
        if c.Vec? {
          DecodeVecKeeps(f, wt, bs, c, h, p);
        }
      } else if c.Ptr? {
        DecodePointerKeeps(f, bs, c, h, p);
      }
    } else if f.htype.Repeated? {
      if c.Arr? {
        DecodeArrayKeeps(f, wt, bs, c, h, p);
      }
    } else {
      DataIsBody(f, c, Stored, p);
      DataIsBody(f, DecodeBody(f, bs, c, h).val, Stored, p);
      DecodeBodyKeeps(f, bs, c, h, p);
    }
  }

  // ---------------------------------------------------------------- one record

  /** Fields other than `f` that share its storage hold nothing there. */
  predicate Sole(fields: seq<Field>, f: Field, c: Cell, r: Reach, p: nat) {
    forall i :: 0 <= i < |fields| && fields[i].slot == f.slot && fields[i].tag != f.tag ==> CellOwns(fields[i], c, r, p) == 0
  }

  lemma {:induction false} UpdateOwns(fields: seq<Field>, f: Field, mem: Mem, c: Cell, r: Reach, p: nat)
    requires DistinctTags(fields) && f in fields && f.slot in mem
    requires Sole(fields, f, mem[f.slot], r, p) && Sole(fields, f, c, r, p)
    ensures Owns(fields, mem[f.slot := c], r, p) == Owns(fields, mem, r, p) - CellOwns(f, mem[f.slot], r, p) + CellOwns(f, c, r, p)
    decreases |fields|
  {
    hide CellOwns;
    var rest := fields[1..];
    assert forall i :: 0 <= i < |rest| ==> rest[i] == fields[i + 1];
    if fields[0] == f {
      SameOwns(rest, f, mem, c, r, p);
    } else {
      assert fields[0].tag != f.tag;
      UpdateOwns(rest, f, mem, c, r, p);
    }
  }

  lemma {:induction false} SameOwns(fields: seq<Field>, f: Field, mem: Mem, c: Cell, r: Reach, p: nat)
    requires f.slot in mem && forall i :: 0 <= i < |fields| ==> fields[i].tag != f.tag
    requires Sole(fields, f, mem[f.slot], r, p) && Sole(fields, f, c, r, p)
    ensures Owns(fields, mem[f.slot := c], r, p) == Owns(fields, mem, r, p)
    decreases |fields|
  {
    hide CellOwns;
    if |fields| > 0 {
      var rest := fields[1..];
      assert forall i :: 0 <= i < |rest| ==> rest[i] == fields[i + 1];
      SameOwns(rest, f, mem, c, r, p);
    }
  }

  lemma {:induction false} ReleaseFieldOwns(fields: seq<Field>, g: Field, mem: Mem, h: Heap, r: Reach, p: nat)
    requires Sound(fields) && g in fields
    ensures Owns(fields, ReleaseField(g, mem, h).0, r, p) ==
      Owns(fields, mem, r, p) - FieldOwns(g, mem, r, p) + FieldOwns(g, ReleaseField(g, mem, h).0, r, p)
    decreases |fields|
  {
    hide Sound, SoundField, FieldOwns, ReleaseField;
    SoundTail(fields);
    var rest := fields[1..];
    if fields[0] == g {
      OthersKept(rest, g, mem, h, r, p);
    } else {
      ReleaseFieldOwns(rest, g, mem, h, r, p);
      ReleaseOther(fields[0], g, mem, h, r, p);
    }
  }

  /** Only the member that `which` selects can hold anything. */
  lemma UnionIsSole(fields: seq<Field>, f: Field, c: Cell, r: Reach, p: nat)
    requires Sound(fields) && f in fields && f.htype.Oneof? && c.Choice?
    requires c.which == f.tag || c.which == 0 || (forall g :: g in fields && g.tag == c.which && g.slot == f.slot ==> CellOwns(g, c, r, p) == 0)
    ensures Sole(fields, f, c, r, p)
    ensures c.which != f.tag ==> CellOwns(f, c, r, p) == 0
  {
    hide DataOwns, SoundField;
    SoundTags(fields);
  }

  lemma PlainIsSole(fields: seq<Field>, f: Field, c: Cell, r: Reach, p: nat)
    requires Sound(fields) && f in fields && !f.htype.Oneof?
    ensures Sole(fields, f, c, r, p)
  {
    hide CellOwns, SoundField;
  }

  /** Releasing the old member frees what it counts; the storage then passes to the new one. */
  lemma {:induction false} DropMemberKeeps(fields: seq<Field>, f: Field, mem: Mem, h: Heap, p: nat)
    requires Sound(fields) && f in fields && f.htype.Oneof? && f.slot in mem && DropMember(fields, f, mem, h).Some?
    ensures var (m1, h1) := DropMember(fields, f, mem, h).value;
      var m2 := m1[f.slot := if mem[f.slot].which == f.tag then mem[f.slot] else Choice(f.tag, BlankData(f))];
      var ds := Replaced(fields, f, mem, m1);
      && Live(h1, p) - Owns(fields, m2, Stored, p) == Live(h, p) - Owns(fields, mem, Stored, p) + Lost(ds, p)
      && Fair(ds, p)
  {
    hide Live, Sound, SoundField, Owns, FieldOwns, ReleaseField, BlankData, Pointers, FieldPointers;
    var c := mem[f.slot];
    var (m1, h1) := DropMember(fields, f, mem, h).value;
    var m2 := m1[f.slot := if c.which == f.tag then c else Choice(f.tag, BlankData(f))];
    var ds := Replaced(fields, f, mem, m1);
    if c.which == f.tag {
      assert m2 == mem;
    } else {
      PointersAre(fields, mem, Stored, p);
      PointersAre(fields, m2, Stored, p);
      BlankMemberIdle(fields, f, p);
      OwnsUnder(fields, m1, f.slot, Choice(f.tag, BlankData(f)), p);
      OneLost(ds[0], p);
      if c.which != 0 {
        var g := Find(fields, c.which).value;
        SoundMember(fields, g);
        FieldPointersAre(g, mem, Counted, p);
        ReleaseFieldFrees(g, mem, h, p);
        ReleaseFieldLeaves(g, mem, h, p);
        ReleaseFieldOwns(fields, g, mem, h, Stored, p);
      }
    }
  }

  lemma BlankMemberIdle(fields: seq<Field>, f: Field, p: nat)
    requires Sound(fields) && f in fields && f.htype.Oneof?
    ensures Idle(fields, f.slot, Choice(f.tag, BlankData(f)), p)
  {
    hide SoundField, BlankData, DataOwns;
    SoundMember(fields, f);
    BlankDataOwns(f, p);
    forall i | 0 <= i < |fields| && fields[i].slot == f.slot
      ensures CellOwns(fields[i], Choice(f.tag, BlankData(f)), Stored, p) == 0
    {
      if fields[i].tag == f.tag {
        SoundDistinct(fields);
        FindUnique(fields, f);
        FindUnique(fields, fields[i]);
      }
    }
  }

  lemma SoundMember(fields: seq<Field>, g: Field)
    requires Sound(fields) && g in fields
    ensures SoundField(g)
  {
  }

  lemma {:induction false} DecodeFieldKeeps(fields: seq<Field>, f: Field, wt: nat, bs: seq<byte>, book: State, mem: Mem, h: Heap, p: nat)
    requires Sound(fields) && f in fields
    ensures var o := DecodeField(fields, f, wt, bs, book, mem, h);
      && Live(o.heap, p) - Owns(fields, o.val.0, Stored, p) == Live(h, p) - Owns(fields, mem, Stored, p) + Lost(o.drops, p)
      && Fair(o.drops, p)
    decreases |bs|, 3
  {
    hide Live, Sound, SoundField, Owns, DecodeData, DecodeFixed, DropMember, DataOwns, Sole, BlankData;
    SoundMember(fields, f);
    if f.slot in mem {
      var c := mem[f.slot];
      if f.htype.Oneof? {
        if DropMember(fields, f, mem, h).Some? {
          DecodeMemberKeeps(fields, f, wt, bs, mem, h, p);
        }
      } else {
        PlainIsSole(fields, f, c, Stored, p);
        if f.htype.FixedCount? {
          if c.Fixed? && book.fixed.Some? {
            var o := DecodeFixed(f, wt, bs, c, book.fixed.value.size, h);
            DecodeFixedKeeps(f, wt, bs, c, book.fixed.value.size, h, p);
            PlainIsSole(fields, f, o.val.0, Stored, p);
            SoundDistinct(fields);
            UpdateOwns(fields, f, mem, o.val.0, Stored, p);
          }
        } else {
          var o := DecodeData(f, wt, bs, c, h);
          DecodeDataKeeps(f, wt, bs, c, h, p);
          PlainIsSole(fields, f, o.val, Stored, p);
          SoundDistinct(fields);
          UpdateOwns(fields, f, mem, o.val, Stored, p);
        }
      }
    }
  }

  /** The old member is released before the new one takes its storage. */
  lemma {:induction false} DecodeMemberKeeps(fields: seq<Field>, f: Field, wt: nat, bs: seq<byte>, mem: Mem, h: Heap, p: nat)
    requires Sound(fields) && SoundField(f) && f in fields && f.htype.Oneof? && f.slot in mem
    requires DropMember(fields, f, mem, h).Some?
    ensures var (m1, h1) := DropMember(fields, f, mem, h).value;
      var c := mem[f.slot];
      var o := DecodeData(f, wt, bs, if c.which == f.tag then c.data else BlankData(f), h1);
      var ds := Replaced(fields, f, mem, m1) + o.drops;
      && Live(o.heap, p) - Owns(fields, m1[f.slot := Choice(f.tag, o.val)], Stored, p) == Live(h, p) - Owns(fields, mem, Stored, p) + Lost(ds, p)
      && Fair(ds, p)
    decreases |bs|, 3, 0
  {
    hide Live, Sound, SoundField, Owns, DecodeData, DataOwns, Sole, BlankData, ReleaseField, Find, Replaced;
    var (m1, h1) := DropMember(fields, f, mem, h).value;
    var c := mem[f.slot];
    var data := if c.which == f.tag then c.data else BlankData(f);
    var m2 := m1[f.slot := Choice(f.tag, data)];
    DropMemberKeeps(fields, f, mem, h, p);
    assert c.which == f.tag ==> c == Choice(f.tag, data);
    DecodeDataKeeps(f, wt, bs, data, h1, p);
    var o := DecodeData(f, wt, bs, data, h1);
    var d := Choice(f.tag, o.val);
    UnionIsSole(fields, f, d, Stored, p);
    UnionIsSole(fields, f, Choice(f.tag, data), Stored, p);
    SoundDistinct(fields);
    UpdateOwns(fields, f, m2, d, Stored, p);
    assert m2[f.slot := d] == m1[f.slot := d];
    LostConcat(Replaced(fields, f, mem, m1), o.drops, p);
  }

  lemma SoundDistinct(fields: seq<Field>)
    requires Sound(fields)
    ensures DistinctTags(fields)
  {
  }

  lemma {:induction false} LoopKeeps(fields: seq<Field>, bs: seq<byte>, book: State, mem: Mem, h: Heap, p: nat)
    requires Sound(fields)
    ensures var o := Loop(fields, bs, book, mem, h);
      && Live(o.heap, p) - Owns(fields, o.val, Stored, p) == Live(h, p) - Owns(fields, mem, Stored, p) + Lost(o.drops, p)
      && Fair(o.drops, p)
    decreases |bs|, 4
  {
    hide Live, Sound, Owns, DecodeField, Find, Enter, Step, DecTag, Finished;
    match DecTag(bs)
    case BadTag =>
    case End(_) =>
    case Tag(tag, wt, after) =>
      if Find(fields, tag).None? {
        if Step(fields, tag, wt, after, book).Ok? {
          LoopKeeps(fields, Step(fields, tag, wt, after, book).rest, book, mem, h, p);
        }
      } else {
        var f := Find(fields, tag).value;
        if Enter(f, book).Some? {
          var entered := Enter(f, book).value;
          var o := DecodeField(fields, f, wt, after, entered, mem, h);
          DecodeFieldKeeps(fields, f, wt, after, entered, mem, h, p);
          if o.rest.Some? {
            LoopKeeps(fields, o.rest.value, o.val.1, o.val.0, o.heap, p);
            LostConcat(o.drops, Loop(fields, o.rest.value, o.val.1, o.val.0, o.heap).drops, p);
          }
        }
      }
  }

  /** pb_decode_noinit obtains and frees blocks so that the struct accounts for every one, even after an error. */
  lemma {:induction false} MergeKeeps(fields: seq<Field>, bs: seq<byte>, mem: Mem, h: Heap, p: nat)
    requires Sound(fields)
    ensures var o := MergeStruct(fields, bs, mem, h);
      && Live(o.heap, p) - Owns(fields, o.val, Stored, p) == Live(h, p) - Owns(fields, mem, Stored, p) + Lost(o.drops, p)
      && Fair(o.drops, p)
    decreases |bs|, 5
  {
    hide Live, Sound, Owns, Loop;
    LoopKeeps(fields, bs, State(map[], {}, None), mem, h, p);
  }

  lemma CutIsNotKept(fields: seq<Field>, mem: Mem)
    requires Sound(fields)
    ensures Cuts(fields, mem) ==> !Kept(Reset(fields, mem))
  {
    hide Sound, Owns, Pointers, SetDefaults, Cuts;
    if Cuts(fields, mem) {
      var p := CutLoses(fields, mem);
      PointersAre(fields, mem, Stored, p);
      PointersAre(fields, SetDefaults(fields, mem), Stored, p);
      var d := Reset(fields, mem);
      assert d.before[p] > (d.freed + d.after)[p];
    }
  }

  /** pb_decode sets the defaults first; an error return leaves no block for pb_release to find. */
  lemma {:induction false} DecodeKeeps(fields: seq<Field>, bs: seq<byte>, mem: Mem, h: Heap, p: nat)
    requires Sound(fields)
    ensures var o := DecodeStruct(fields, bs, mem, h);
      && Live(o.heap, p) - Owns(fields, o.val, Stored, p) == Live(h, p) - Owns(fields, mem, Stored, p) + Lost(o.drops, p)
      && Fair(o.drops, p)
      && (o.rest.None? ==> Owns(fields, o.val, Counted, p) == 0)
    decreases |bs|, 6
  {
    hide Live, Sound, Owns, Pointers, MergeStruct, SetDefaults, Release, Cuts;
    var start := SetDefaults(fields, mem);
    var o := MergeStruct(fields, bs, start, h);
    MergeKeeps(fields, bs, start, h, p);
    var reset := Reset(fields, mem);
    PointersAre(fields, mem, Stored, p);
    PointersAre(fields, start, Stored, p);
    SetDefaultsOwns(fields, mem, p);
    CutIsNotKept(fields, mem);
    OneLost(reset, p);
    LostConcat([reset], o.drops, p);
    if o.rest.None? {
      var m1 := Release(fields, o.val, o.heap).0;
      var ended := Drop(Pointers(fields, o.val, Stored), Pointers(fields, o.val, Counted), Pointers(fields, m1, Stored), false);
      PointersAre(fields, o.val, Stored, p);
      PointersAre(fields, o.val, Counted, p);
      PointersAre(fields, m1, Stored, p);
      ReleaseFrees(fields, o.val, o.heap, p);
      ReleaseLeaves(fields, o.val, o.heap, p);
      OneLost(ended, p);
      LostConcat([reset] + o.drops, [ended], p);
    }
  }
}
