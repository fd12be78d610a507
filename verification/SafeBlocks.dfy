/**
  Descriptors for which no run loses a block: no fixed-count item with pointers, or a single
  fixed-count array, and no array of pointers as long as its count can say.
 */
module SafeBlocks {
  import opened Bytes
  import opened Varint
  import opened Wire
  import opened Message
  import opened DecodeSpec
  import opened Ownership
  import opened ReleaseBlocks
  import opened StoredBlocks
  import opened DefaultBlocks
  import opened DecodeBlocks
  import opened BlockBalance

  // ---------------------------------------------------------------- storage without a remainder

  predicate SnugBody(f: Field, c: Cell)
    decreases f, 0
  {
    f.ltype.LSubmessage? && c.Sub? ==> Snug(f.ltype.ptr, c.mem)
  }

  /** Where there may be pointers, embedded arrays hold just the items that they count. */
  predicate SnugData(f: Field, c: Cell)
    decreases f, 1
  {
    if PointerFreeField(f) then true
    else if f.layout.pointer then
      if f.htype.Repeated? then c.Vec? && c.p != 0 ==> forall i :: 0 <= i < |c.items| ==> SnugBody(f, c.items[i])
      else c.Ptr? && c.p != 0 ==> SnugBody(f, c.target)
    else if f.htype.Repeated? then
      c.Arr? ==> c.count == |c.items| <= f.arraySize && forall i :: 0 <= i < |c.items| ==> SnugBody(f, c.items[i])
    else if f.htype.FixedCount? then true
    else SnugBody(f, c)
  }

  predicate SnugCell(f: Field, c: Cell)
    decreases f, 2
  {
    if f.htype.Oneof? then c.Choice? && c.which == f.tag ==> SnugData(f, c.data) else SnugData(f, c)
  }

  /** The member that a union names is one of its own. */
  predicate OwnMember(fields: seq<Field>, f: Field, c: Cell) {
    f.htype.Oneof? && c.Choice? && c.which != 0 && Find(fields, c.which).Some? ==> Find(fields, c.which).value.slot == f.slot
  }

  predicate SnugField(fields: seq<Field>, f: Field, mem: Mem)
    decreases f, 3
  {
    f.slot in mem ==> SnugCell(f, mem[f.slot]) && OwnMember(fields, f, mem[f.slot])
  }

  predicate Snug(fields: seq<Field>, mem: Mem)
    decreases fields
  {
    PointerFree(fields) || forall i :: 0 <= i < |fields| ==> SnugField(fields, fields[i], mem)
  }

  // ---------------------------------------------------------------- then the counts reach everything

  lemma {:induction false} PointerFreeEven(f: Field, c: Cell, p: nat)
    requires SoundField(f) && PointerFreeField(f)
    ensures DataOwns(f, c, Stored, p) == DataOwns(f, c, Counted, p) == 0
    ensures BodyOwns(f, c, Stored, p) == BodyOwns(f, c, Counted, p) == 0
  {
    hide SoundField, PointerFreeField, DataOwns, BodyOwns;
    PointerFreeData(f, c, p);
    PointerFreeBody(f, c, p);
    ReleaseDataLeaves(f, c, Heap(0, [], []), p);
    ReleaseBodyLeaves(f, c, Heap(0, [], []), p);
  }

  lemma {:induction false} SnugBodyEven(f: Field, c: Cell, p: nat)
    requires SoundField(f) && SafeType(f) && SnugBody(f, c)
    ensures BodyOwns(f, c, Stored, p) == BodyOwns(f, c, Counted, p)
    decreases f, 0
  {
    if f.ltype.LSubmessage? && c.Sub? {
      SnugEven(f.ltype.ptr, c.mem, p);
    }
  }

  lemma {:induction false} SnugItemsEven(f: Field, items: seq<Cell>, p: nat)
    requires SoundField(f) && SafeType(f) && forall i :: 0 <= i < |items| ==> SnugBody(f, items[i])
    ensures ItemsOwn(f, items, Stored, p) == ItemsOwn(f, items, Counted, p)
    decreases f, 1, |items|
  {
    hide SoundField, SafeType, SnugBody, BodyOwns;
    if |items| > 0 {
      SnugBodyEven(f, items[0], p);
      SnugItemsEven(f, items[1..], p);
    }
  }

  lemma SafeIsTyped(f: Field)
    requires SafeField(f)
    ensures SafeType(f)
  {
  }

  lemma SafeFixed(f: Field)
    requires SoundField(f) && SafeField(f) && f.htype.FixedCount?
    ensures PointerFreeField(f)
  {
  }

  lemma {:induction false} SnugDataEven(f: Field, c: Cell, p: nat)
    requires SoundField(f) && SafeField(f) && SnugData(f, c)
    ensures DataOwns(f, c, Stored, p) == DataOwns(f, c, Counted, p)
    decreases f, 2
  {
    hide SoundField, SafeField, SafeType, SnugBody, BodyOwns, ItemsOwn, PointerFreeField;
    SafeIsTyped(f);
    if PointerFreeField(f) {
      PointerFreeEven(f, c, p);
    } else if f.layout.pointer {
      if f.htype.Repeated? {
        if c.Vec? && c.p != 0 {
          SnugItemsEven(f, c.items, p);
        }
      } else if c.Ptr? && c.p != 0 {
        SnugBodyEven(f, c.target, p);
      }
    } else if f.htype.Repeated? {
      if c.Arr? {
        SnugItemsEven(f, c.items, p);
        assert c.items[..|c.items|] == c.items;
      }
    } else if f.htype.FixedCount? {
      SafeFixed(f);
    } else {
      SnugBodyEven(f, c, p);
    }
  }

  lemma {:induction false} SnugCellEven(f: Field, c: Cell, p: nat)
    requires SoundField(f) && SafeField(f) && SnugCell(f, c)
    ensures CellOwns(f, c, Stored, p) == CellOwns(f, c, Counted, p)
    decreases f, 3
  {
    hide SoundField, SafeField, SnugData, DataOwns;
    if !f.htype.Oneof? {
      SnugDataEven(f, c, p);
    } else if c.Choice? && c.which == f.tag {
      SnugDataEven(f, c.data, p);
    }
  }

  lemma SnugFieldEven(fields: seq<Field>, f: Field, mem: Mem, p: nat)
    requires SoundField(f) && SafeField(f) && f.slot in mem && SnugField(fields, f, mem)
    ensures CellOwns(f, mem[f.slot], Stored, p) == CellOwns(f, mem[f.slot], Counted, p)
    decreases f, 4
  {
    hide SoundField, SafeField, SnugCell, CellOwns, OwnMember;
    SnugCellEven(f, mem[f.slot], p);
  }

  lemma {:induction false} PointerFreeStruct(fields: seq<Field>, mem: Mem, p: nat)
    requires Sound(fields) && PointerFree(fields)
    ensures Owns(fields, mem, Stored, p) == Owns(fields, mem, Counted, p) == 0
  {
    hide Sound, PointerFree, Owns;
    PointerFreeOwns(fields, mem, p);
    ReleaseLeaves(fields, mem, Heap(0, [], []), p);
  }

  lemma {:induction false} CellsEven(fields: seq<Field>, mem: Mem, p: nat)
    requires forall i :: 0 <= i < |fields| && fields[i].slot in mem ==>
      CellOwns(fields[i], mem[fields[i].slot], Stored, p) == CellOwns(fields[i], mem[fields[i].slot], Counted, p)
    ensures Owns(fields, mem, Stored, p) == Owns(fields, mem, Counted, p)
    decreases |fields|
  {
    hide CellOwns;
    if |fields| > 0 {
      var rest := fields[1..];
      assert forall i :: 0 <= i < |rest| ==> rest[i] == fields[i + 1];
      CellsEven(rest, mem, p);
    }
  }

  /** Then pb_release finds every pointer in the storage. */
  lemma {:induction false} SnugEven(fields: seq<Field>, mem: Mem, p: nat)
    requires Sound(fields) && Safe(fields) && Snug(fields, mem)
    ensures Owns(fields, mem, Stored, p) == Owns(fields, mem, Counted, p)
    decreases fields, 5
  {
    hide Sound, Safe, PointerFree, Owns, SnugField, SoundField, SafeField, CellOwns;
    if PointerFree(fields) {
      PointerFreeStruct(fields, mem, p);
    } else {
      forall i | 0 <= i < |fields| && fields[i].slot in mem
        ensures CellOwns(fields[i], mem[fields[i].slot], Stored, p) == CellOwns(fields[i], mem[fields[i].slot], Counted, p)
      {
        SoundMember(fields, fields[i]);
        SafeMember(fields, fields[i]);
        SnugFieldEven(fields, fields[i], mem, p);
      }
      CellsEven(fields, mem, p);
    }
  }

  // ---------------------------------------------------------------- structs of zeros

  lemma {:induction false} OverlayBlankBody(f: Field)
    requires SoundField(f)
    ensures OverlayBody(f, BlankBody(f)) == BlankBody(f)
    decreases f, 0
  {
    if f.ltype.LSubmessage? {
      OverlayBlank(f.ltype.ptr);
    }
  }

  lemma {:induction false} OverlayBlankCell(f: Field)
    requires SoundField(f)
    ensures OverlayCell(f, BlankCell(f)) == BlankCell(f)
    decreases f, 1
  {
    hide SoundField, OverlayBody, BlankBody;
    OverlayBlankBody(f);
    if !f.layout.pointer && f.htype.FixedCount? {
      BlankFirst(f);
    }
  }

  lemma BlankFirst(f: Field)
    requires !f.layout.pointer && f.htype.FixedCount? && OverlayBody(f, BlankBody(f)) == BlankBody(f)
    ensures var c := BlankData(f);
      c.Fixed? && (|c.items| > 0 ==> c.items[0] == BlankBody(f) && c.items[0 := OverlayBody(f, c.items[0])] == c.items)
  {
    hide OverlayBody, BlankBody;
  }

  lemma {:induction false} OverlayBlank(fields: seq<Field>)
    requires Sound(fields)
    ensures Overlay(fields, Blank(fields)) == Blank(fields)
    decreases fields, 2
  {
    hide SoundField, OverlayCell, BlankCell, Blank;
    if |fields| > 0 {
      BlankAt(fields, 0);
      SoundMember(fields, fields[0]);
      OverlayBlankCell(fields[0]);
    }
  }

  lemma {:induction false} DefaultOfBlank(f: Field)
    requires SoundField(f)
    ensures DefaultCell(f, BlankCell(f)) == BlankCell(f)
    decreases f, 3
  {
    if !f.htype.Oneof? && !f.layout.pointer && !f.htype.Repeated? {
      if f.htype.FixedCount? {
        hide SoundField, OverlayBody, BlankBody;
        OverlayBlankBody(f);
        BlankFirst(f);
      } else if f.ltype.LSubmessage? {
        DefaultsOfBlank(f.ltype.ptr);
      }
    }
  }

  predicate BlankIn(fields: seq<Field>, mem: Mem) {
    forall i :: 0 <= i < |fields| ==> fields[i].slot in mem && mem[fields[i].slot] == BlankCell(fields[i])
  }

  lemma {:induction false} DefaultsOfBlankIn(fields: seq<Field>, mem: Mem)
    requires BlankIn(fields, mem) && forall i :: 0 <= i < |fields| ==> DefaultCell(fields[i], BlankCell(fields[i])) == BlankCell(fields[i])
    ensures SetDefaults(fields, mem) == mem
    decreases |fields|
  {
    hide DefaultCell, BlankCell;
    if |fields| > 0 {
      var rest := fields[1..];
      assert forall i :: 0 <= i < |rest| ==> rest[i] == fields[i + 1];
      assert mem[fields[0].slot := mem[fields[0].slot]] == mem;
      DefaultsOfBlankIn(rest, mem);
    }
  }

  /** Setting the defaults of a struct of zeros changes no pointer, count or member tag. */
  lemma {:induction false} DefaultsOfBlank(fields: seq<Field>)
    requires Sound(fields)
    ensures SetDefaults(fields, Blank(fields)) == Blank(fields)
    decreases fields, 4
  {
    hide SoundField, DefaultCell, BlankCell, Blank, SetDefaults;
    forall i | 0 <= i < |fields|
      ensures fields[i].slot in Blank(fields) && Blank(fields)[fields[i].slot] == BlankCell(fields[i])
      ensures DefaultCell(fields[i], BlankCell(fields[i])) == BlankCell(fields[i])
    {
      BlankAt(fields, i);
      SoundMember(fields, fields[i]);
      DefaultOfBlank(fields[i]);
    }
    DefaultsOfBlankIn(fields, Blank(fields));
  }

  lemma {:induction false} SnugBlankBody(f: Field)
    requires SoundField(f)
    ensures SnugBody(f, BlankBody(f))
    decreases f, 0
  {
    if f.ltype.LSubmessage? {
      SnugBlank(f.ltype.ptr);
    }
  }

  lemma {:induction false} SnugBlankData(f: Field)
    requires SoundField(f)
    ensures SnugData(f, BlankData(f))
    decreases f, 1
  {
    hide SoundField, BlankBody, SnugBody;
    SnugBlankBody(f);
  }

  lemma {:induction false} SnugBlank(fields: seq<Field>)
    requires Sound(fields)
    ensures Snug(fields, Blank(fields))
    decreases fields, 2
  {
    hide SoundField, BlankData, Blank, SnugData;
    SoundTags(fields);
    forall i | 0 <= i < |fields|
      ensures SnugField(fields, fields[i], Blank(fields))
    {
      BlankAt(fields, i);
      SoundMember(fields, fields[i]);
      SnugBlankData(fields[i]);
    }
  }

  // ---------------------------------------------------------------- decoding keeps it so

  predicate Init(f: Field) {
    f.htype.Repeated? || f.htype.FixedCount?
  }

  lemma NothingLost(p: nat)
    ensures Lost([], p) == 0
  {
  }

  lemma {:induction false} SafeBody(f: Field, bs: seq<byte>, c: Cell, h: Heap, p: nat)
    requires SoundField(f) && SafeType(f) && SnugBody(f, c) && (Init(f) ==> c == BlankBody(f) || PointerFreeField(f))
    ensures var o := DecodeBody(f, bs, c, h);
      && Lost(o.drops, p) == 0 && BodyOwns(f, o.val, Stored, p) == BodyOwns(f, o.val, Counted, p)
      && (o.rest.Some? ==> SnugBody(f, o.val))
    decreases |bs|, 0
  {
    hide Sound, Safe, PointerFree, Snug, DecString, Owns, DecodeStruct, MergeStruct, Blank;
    NothingLost(p);
    if f.ltype.LSubmessage? && c.Sub? {
      SnugEven(f.ltype.ptr, c.mem, p);
      if DecString(bs).Ok? {
        if Init(f) {
          SafeStruct(f.ltype.ptr, DecString(bs).val, c.mem, h, p);
        } else {
          SafeMerge(f.ltype.ptr, DecString(bs).val, c.mem, h, p);
        }
      }
    }
  }

  lemma {:induction false} SafeArray(f: Field, wt: nat, bs: seq<byte>, c: Cell, h: Heap, p: nat)
    requires SoundField(f) && SafeField(f) && c.Arr? && !f.layout.pointer && f.htype.Repeated? && SnugData(f, c)
    ensures var o := DecodeArray(f, wt, bs, c, h);
      && Lost(o.drops, p) == 0 && DataOwns(f, o.val, Stored, p) == DataOwns(f, o.val, Counted, p)
      && (o.rest.Some? ==> SnugData(f, o.val))
    decreases |bs|, 1
  {
    hide SoundField, SafeField, SafeType, PointerFreeField, DecodePacked, DecodeBody, SnugBody, DataOwns, BlankBody;
    SafeIsTyped(f);
    NothingLost(p);
    var o := DecodeArray(f, wt, bs, c, h);
    SnugBlankBody(f);
    if PointerFreeField(f) {
      PointerFreeEven(f, o.val, p);
      if !(Packable(f.ltype) && wt == WT_STRING) && c.count < f.arraySize {
        var item := if c.count < |c.items| then c.items[c.count] else BlankBody(f);
        PointerFreeSnug(f, item);
        SafeBody(f, bs, item, h, p);
      }
    } else {
      PackableIsFree(f);
      if c.count >= f.arraySize {
        SafeOverflow(f);
        OverflowEven(f, c, p);
      } else {
        SafeBody(f, bs, BlankBody(f), h, p);
        AppendEven(f, c, DecodeBody(f, bs, BlankBody(f), h).val, p);
      }
    }
  }

  lemma PointerFreeSnug(f: Field, c: Cell)
    requires PointerFreeField(f)
    ensures SnugBody(f, c)
  {
    hide PointerFree;
  }

  lemma PackableIsFree(f: Field)
    requires !PointerFreeField(f) && !f.layout.pointer
    ensures f.ltype.LSubmessage? && !Packable(f.ltype)
  {
  }

  lemma SafeOverflow(f: Field)
    requires SoundField(f) && SafeField(f) && !PointerFreeField(f) && !f.layout.pointer && f.htype.Repeated?
    ensures f.arraySize < PB_SIZE_MAX
  {
    hide Sound, Safe, PointerFree;
  }

  lemma OverflowEven(f: Field, c: Cell, p: nat)
    requires SoundField(f) && SafeType(f) && c.Arr? && !f.layout.pointer && f.htype.Repeated? && c.count == |c.items| <= f.arraySize < PB_SIZE_MAX
    requires forall i :: 0 <= i < |c.items| ==> SnugBody(f, c.items[i])
    ensures var d := Arr(PastFull(c.count), c.items);
      DataOwns(f, d, Stored, p) == DataOwns(f, d, Counted, p)
  {
    hide SoundField, SafeType, SnugBody, ItemsOwn;
    SnugItemsEven(f, c.items, p);
    assert c.items[..|c.items|] == c.items;
  }

  lemma AppendEven(f: Field, c: Cell, item: Cell, p: nat)
    requires SoundField(f) && SafeType(f) && c.Arr? && !f.layout.pointer && f.htype.Repeated? && c.count == |c.items|
    requires (forall i :: 0 <= i < |c.items| ==> SnugBody(f, c.items[i])) && BodyOwns(f, item, Stored, p) == BodyOwns(f, item, Counted, p)
    ensures var d := Arr(c.count + 1, c.items + [item]);
      DataOwns(f, d, Stored, p) == DataOwns(f, d, Counted, p)
  {
    hide SoundField, SafeType, SnugBody, ItemsOwn, BodyOwns;
    var items := c.items + [item];
    SnugItemsEven(f, c.items, p);
    ItemsOwnSnoc(f, c.items, item, Stored, p);
    ItemsOwnSnoc(f, c.items, item, Counted, p);
    assert items[..|items|] == items;
  }

  lemma {:induction false} SafeFixedStep(f: Field, wt: nat, bs: seq<byte>, c: Cell, k: nat, h: Heap, p: nat)
    requires SoundField(f) && SafeField(f) && c.Fixed? && f.htype.FixedCount?
    ensures Lost(DecodeFixed(f, wt, bs, c, k, h).drops, p) == 0
    decreases |bs|, 1
  {
    hide SoundField, SafeField, SafeType, PointerFreeField, DecodePacked, DecodeBody, SnugBody;
    SafeIsTyped(f);
    NothingLost(p);
    SafeFixed(f);
    if !(Packable(f.ltype) && wt == WT_STRING) && k < f.arraySize && k < |c.items| {
      PointerFreeSnug(f, c.items[k]);
      SafeBody(f, bs, c.items[k], h, p);
    }
  }

  lemma {:induction false} SafePointer(f: Field, bs: seq<byte>, c: Cell, h: Heap, p: nat)
    requires SoundField(f) && SafeField(f) && c.Ptr? && f.layout.pointer && !f.htype.Repeated? && !f.htype.FixedCount? && SnugData(f, c)
    ensures var o := DecodePointer(f, bs, c, h);
      && Lost(o.drops, p) == 0 && DataOwns(f, o.val, Stored, p) == DataOwns(f, o.val, Counted, p)
      && (o.rest.Some? ==> SnugData(f, o.val))
    decreases |bs|, 1
  {
    hide SoundField, SafeField, SafeType, DecodeBody, BlankBody, BodyOwns, Allocate, DecodeBlob, ReleaseData, SnugBody, DataPointers;
    SafeIsTyped(f);
    NothingLost(p);
    SnugDataEven(f, c, p);
    if Blob(f.ltype) {
      var o := DecodeBlob(f, bs, c.p, h);
      BlobSnug(f, Raw, p);
      BlobSnug(f, c.target, p);
      DecodeBlobKeeps(f, bs, c.p, h, p);
    } else {
      var (c1, h1) := if f.ltype.LSubmessage? && c.p != 0 then ReleaseData(f, c, h) else (c, h);
      if f.ltype.LSubmessage? && c.p != 0 {
        ReleasedPointer(f, c, h);
      }
      var drop := Drop(DataPointers(f, c, Stored), DataPointers(f, c, Counted), multiset{}, false);
      DataPointersAre(f, c, Stored, p);
      DataPointersAre(f, c, Counted, p);
      OneLost(drop, p);
      var (q, h2) := Allocate(h1, c1.p, f.dataSize, 1);
      if q != 0 {
        SnugBlankBody(f);
        SafeBody(f, bs, BlankBody(f), h2, p);
        LostConcat([drop], DecodeBody(f, bs, BlankBody(f), h2).drops, p);
        NothingBefore(DecodeBody(f, bs, BlankBody(f), h2).drops);
      }
    }
  }

  lemma BlobSnug(f: Field, c: Cell, p: nat)
    requires !f.ltype.LSubmessage?
    ensures SnugBody(f, c) && BodyOwns(f, c, Stored, p) == BodyOwns(f, c, Counted, p) == 0
  {
  }

  lemma {:induction false} SafeVec(f: Field, wt: nat, bs: seq<byte>, c: Cell, h: Heap, p: nat)
    requires SoundField(f) && SafeField(f) && c.Vec? && f.layout.pointer && f.htype.Repeated? && SnugData(f, c)
    ensures var o := DecodeVec(f, wt, bs, c, h);
      && Lost(o.drops, p) == 0 && DataOwns(f, o.val, Stored, p) == DataOwns(f, o.val, Counted, p)
      && (o.rest.Some? ==> SnugData(f, o.val))
    decreases |bs|, 1
  {
    hide SoundField, SafeField, SafeType, DecodePackedItems, DecodeBody, ItemsOwn, BlankBody, BodyOwns, Allocate, DecodeBlob, SnugBody, DecString;
    SafeIsTyped(f);
    NothingLost(p);
    SnugDataEven(f, c, p);
    var items := Items(c);
    assert forall i :: 0 <= i < |items| ==> SnugBody(f, items[i]);
    if Packable(f.ltype) && wt == WT_STRING {
      if DecString(bs).Ok? {
        PackedSafe(f, DecString(bs).val, Vec(c.p, items), |items|, h, p);
      }
    } else if |items| != PB_SIZE_MAX {
      var (q, h1) := Allocate(h, c.p, f.dataSize, |items| + 1);
      if q != 0 {
        SnugItemsEven(f, items, p);
        if Blob(f.ltype) {
          var d := Ptr(DecodeBlob(f, bs, 0, h1).val, Raw);
          BlobSnug(f, d, p);
          DecodeBlobKeeps(f, bs, 0, h1, p);
          ItemsOwnSnoc(f, items, d, Stored, p);
          ItemsOwnSnoc(f, items, d, Counted, p);
        } else {
          SnugBlankBody(f);
          SafeBody(f, bs, BlankBody(f), h1, p);
          var d := DecodeBody(f, bs, BlankBody(f), h1).val;
          ItemsOwnSnoc(f, items, d, Stored, p);
          ItemsOwnSnoc(f, items, d, Counted, p);
        }
      }
    }
  }

  lemma {:induction false} PackedSafe(f: Field, bs: seq<byte>, c: Cell, room: nat, h: Heap, p: nat)
    requires c.Vec? && !f.ltype.LSubmessage? && !Blob(f.ltype) && f.layout.pointer && f.htype.Repeated?
    ensures var o := DecodePackedItems(f, bs, c, room, h);
      o.drops == [] && o.val.Vec? && SnugData(f, o.val) && DataOwns(f, o.val, Stored, p) == DataOwns(f, o.val, Counted, p)
    decreases |bs|
  {
    hide Skim, Allocate, SnugData, DataOwns;
    PlainVecSnug(f, c, p);
    if |bs| != 0 && |c.items| != PB_SIZE_MAX && f.dataSize != 0 {
      var room1 := NextRoom(f.dataSize, |bs|, |c.items|, room);
      var (q, h1) := if |c.items| + 1 <= room then (c.p, h) else Allocate(h, c.p, f.dataSize, room1);
      PlainVecSnug(f, Vec(q, c.items), p);
      if q != 0 && Skim(f, bs).Some? {
        PackedSafe(f, Skim(f, bs).value, Vec(q, c.items + [Raw]), room1, h1, p);
      }
    }
  }

  lemma PlainVecSnug(f: Field, c: Cell, p: nat)
    requires c.Vec? && !f.ltype.LSubmessage? && !Blob(f.ltype) && f.layout.pointer && f.htype.Repeated?
    ensures SnugData(f, c) && DataOwns(f, c, Stored, p) == DataOwns(f, c, Counted, p)
  {
    hide ItemsOwn;
    forall i | 0 <= i < |c.items|
      ensures SnugBody(f, c.items[i])
    {
      BlobSnug(f, c.items[i], p);
    }
    PlainItemsEven(f, c.items, p);
  }

  lemma {:induction false} PlainItemsEven(f: Field, items: seq<Cell>, p: nat)
    requires !f.ltype.LSubmessage?
    ensures ItemsOwn(f, items, Stored, p) == ItemsOwn(f, items, Counted, p)
    decreases |items|
  {
    if |items| > 0 {
      PlainItemsEven(f, items[1..], p);
      BlobSnug(f, items[0], p);
    }
  }

  lemma {:induction false} SafeData(f: Field, wt: nat, bs: seq<byte>, c: Cell, h: Heap, p: nat)
    requires SoundField(f) && SafeField(f) && !f.htype.FixedCount? && SnugData(f, c)
    ensures var o := DecodeData(f, wt, bs, c, h);
      && Lost(o.drops, p) == 0 && DataOwns(f, o.val, Stored, p) == DataOwns(f, o.val, Counted, p)
      && (o.rest.Some? ==> SnugData(f, o.val))
    decreases |bs|, 2
  {
    hide SoundField, SafeField, SafeType, DecodeVec, DecodePointer, DecodeArray, DecodeBody, BodyOwns, DataOwns, SnugBody, PointerFreeField;
    SafeIsTyped(f);
    NothingLost(p);
    SnugDataEven(f, c, p);
    if f.layout.pointer {
      if f.htype.Repeated? {
        if c.Vec? {
          SafeVec(f, wt, bs, c, h, p);
        }
      } else if c.Ptr? {
        SafePointer(f, bs, c, h, p);
      }
    } else if f.htype.Repeated? {
      if c.Arr? {
        SafeArray(f, wt, bs, c, h, p);
      }
    } else {
      if PointerFreeField(f) {
        PointerFreeSnug(f, c);
      }
      SafeBody(f, bs, c, h, p);
      DataIsBody(f, DecodeBody(f, bs, c, h).val, Stored, p);
      DataIsBody(f, DecodeBody(f, bs, c, h).val, Counted, p);
    }
  }

  // ---------------------------------------------------------------- records and structs

  lemma SafeMember(fields: seq<Field>, f: Field)
    requires Safe(fields) && f in fields
    ensures SafeField(f)
    ensures PointerFree(fields) ==> PointerFreeField(f)
  {
  }

  lemma FreeIsSnug(fields: seq<Field>, f: Field, c: Cell)
    requires PointerFree(fields) && f in fields
    ensures SnugData(f, c)
  {
  }

  lemma SnugUpdate(fields: seq<Field>, f: Field, mem: Mem, c: Cell)
    requires Sound(fields) && Snug(fields, mem) && f in fields && f.slot in mem
    requires if f.htype.Oneof? then c.Choice? && c.which == f.tag && SnugData(f, c.data) else SnugData(f, c)
    ensures Snug(fields, mem[f.slot := c])
  {
    hide SnugData, SoundField, Find;
    if !PointerFree(fields) {
      SoundDistinct(fields);
      FindUnique(fields, f);
      forall i | 0 <= i < |fields|
        ensures SnugField(fields, fields[i], mem[f.slot := c])
      {
        assert SnugField(fields, fields[i], mem);
        if fields[i].slot == f.slot && fields[i] != f {
          DistinctMember(fields, f, i);
        }
      }
    }
  }

  lemma DistinctMember(fields: seq<Field>, f: Field, i: nat)
    requires Sound(fields) && f in fields && i < |fields| && fields[i] != f && fields[i].slot == f.slot
    ensures fields[i].tag != f.tag && f.htype.Oneof? && fields[i].htype.Oneof?
  {
    hide SoundField;
    var j :| 0 <= j < |fields| && fields[j] == f;
  }

  lemma EvenUpdate(fields: seq<Field>, f: Field, mem: Mem, c: Cell, p: nat)
    requires Sound(fields) && f in fields && f.slot in mem
    requires Owns(fields, mem, Stored, p) == Owns(fields, mem, Counted, p)
    requires CellOwns(f, mem[f.slot], Stored, p) == CellOwns(f, mem[f.slot], Counted, p)
    requires CellOwns(f, c, Stored, p) == CellOwns(f, c, Counted, p)
    requires forall r :: Sole(fields, f, mem[f.slot], r, p) && Sole(fields, f, c, r, p)
    ensures Owns(fields, mem[f.slot := c], Stored, p) == Owns(fields, mem[f.slot := c], Counted, p)
  {
    hide Sound, Owns, CellOwns, Sole;
    SoundDistinct(fields);
    UpdateOwns(fields, f, mem, c, Stored, p);
    UpdateOwns(fields, f, mem, c, Counted, p);
  }

  /** A field outside unions takes other data that its counts cover. */
  lemma PlainEvenUpdate(fields: seq<Field>, f: Field, mem: Mem, c: Cell, p: nat)
    requires Sound(fields) && SafeField(f) && f in fields && f.slot in mem && !f.htype.Oneof? && SnugData(f, mem[f.slot])
    requires Owns(fields, mem, Stored, p) == Owns(fields, mem, Counted, p)
    requires DataOwns(f, c, Stored, p) == DataOwns(f, c, Counted, p)
    ensures Owns(fields, mem[f.slot := c], Stored, p) == Owns(fields, mem[f.slot := c], Counted, p)
  {
    hide Sound, SoundField, SafeField, SnugData, Owns, DataOwns, Sole;
    SoundMember(fields, f);
    SnugDataEven(f, mem[f.slot], p);
    forall r
      ensures Sole(fields, f, mem[f.slot], r, p) && Sole(fields, f, c, r, p)
    {
      PlainIsSole(fields, f, mem[f.slot], r, p);
      PlainIsSole(fields, f, c, r, p);
    }
    EvenUpdate(fields, f, mem, c, p);
  }

  // ---------------------------------------------------------------- union members

  predicate SameElsewhere(a: Mem, b: Mem, slot: nat) {
    a.Keys == b.Keys && forall s :: s in a && s != slot ==> a[s] == b[s]
  }

  lemma SameAfter(a: Mem, b: Mem, slot: nat, c: Cell)
    requires SameElsewhere(a, b, slot)
    ensures a[slot := c] == b[slot := c]
  {
  }

  /** The fields in the storage of `f` are safe, and it is theirs. */
  predicate SnugSlot(fields: seq<Field>, f: Field, mem: Mem) {
    forall i :: 0 <= i < |fields| && fields[i].slot == f.slot ==> SafeField(fields[i]) && SnugField(fields, fields[i], mem)
  }

  lemma SnugSlotAt(fields: seq<Field>, f: Field, g: Field, mem: Mem)
    requires SnugSlot(fields, f, mem) && g in fields && g.slot == f.slot && f.slot in mem
    ensures SafeField(g) && OwnMember(fields, g, mem[f.slot])
    ensures g.htype.Oneof? && mem[f.slot].Choice? && mem[f.slot].which == g.tag ==> SnugData(g, mem[f.slot].data)
  {
    hide SafeField, OwnMember, SnugData;
    var i :| 0 <= i < |fields| && fields[i] == g;
    assert SnugField(fields, fields[i], mem);
    assert SnugCell(g, mem[f.slot]);
  }

  /** In a union of the struct's own, only the storage of the union changes, and the old member was released in full. */
  lemma {:induction false} SafeReplaced(fields: seq<Field>, f: Field, mem: Mem, h: Heap, p: nat)
    requires Sound(fields) && f in fields && f.htype.Oneof? && f.slot in mem && (PointerFree(fields) || SnugSlot(fields, f, mem))
    requires DropMember(fields, f, mem, h).Some?
    ensures var m1 := DropMember(fields, f, mem, h).value.0;
      && Lost(Replaced(fields, f, mem, m1), p) == 0
      && (!PointerFree(fields) ==> SameElsewhere(m1, mem, f.slot))
  {
    hide Sound, SnugSlot, SoundField, Owns, Pointers, FieldPointers, FieldOwns, BlankData, ReleaseCell, PointerFree, DataOwns;
    var c := mem[f.slot];
    var (m1, h1) := DropMember(fields, f, mem, h).value;
    NothingLost(p);
    if !PointerFree(fields) {
      SnugSlotAt(fields, f, f, mem);
    }
    if c.which != 0 && c.which != f.tag {
      SameStorage(fields, f, mem, h);
    }
    if c.which != f.tag {
      var m2 := m1[f.slot := Choice(f.tag, BlankData(f))];
      if !PointerFree(fields) {
        SameAfter(m1, mem, f.slot, Choice(f.tag, BlankData(f)));
      }
      OneLost(Replaced(fields, f, mem, m1)[0], p);
      PointersAre(fields, mem, Stored, p);
      PointersAre(fields, m2, Stored, p);
      if PointerFree(fields) {
        PointerFreeStruct(fields, mem, p);
        PointerFreeStruct(fields, m2, p);
      }
      if c.which == 0 {
        UnionIsSole(fields, f, c, Stored, p);
        BlankSole(fields, f, f, Stored, p);
        SoundDistinct(fields);
        UpdateOwns(fields, f, mem, Choice(f.tag, BlankData(f)), Stored, p);
      } else {
        var g := Find(fields, c.which).value;
        FieldPointersAre(g, mem, Counted, p);
        if PointerFree(fields) {
          MemberOwns(fields, g, mem, Counted, p);
        } else {
          OldMemberEven(fields, f, g, mem, p);
        }
      }
    }
  }

  lemma SameStorage(fields: seq<Field>, f: Field, mem: Mem, h: Heap)
    requires f.slot in mem && mem[f.slot].Choice? && mem[f.slot].which != 0 && mem[f.slot].which != f.tag
    requires f.htype.Oneof? && Find(fields, mem[f.slot].which).Some?
    ensures OwnMember(fields, f, mem[f.slot]) ==> SameElsewhere(ReleaseField(Find(fields, mem[f.slot].which).value, mem, h).0, mem, f.slot)
  {
    hide ReleaseCell, Find;
  }

  lemma BlankSole(fields: seq<Field>, g: Field, f: Field, r: Reach, p: nat)
    requires Sound(fields) && f in fields && f.htype.Oneof? && g in fields && g.slot == f.slot
    ensures Sole(fields, g, Choice(f.tag, BlankData(f)), r, p)
    ensures CellOwns(g, Choice(f.tag, BlankData(f)), r, p) == 0
  {
    hide Sound, SoundField, CellOwns, BlankData;
    BlankMemberIdle(fields, f, p);
    var c := Choice(f.tag, BlankData(f));
    forall i | 0 <= i < |fields| && fields[i].slot == f.slot
      ensures CellOwns(fields[i], c, r, p) == 0
    {
      assert CellOwns(fields[i], c, Stored, p) == 0;
      SoundMember(fields, fields[i]);
      CellCountedLess(fields[i], c, p);
    }
  }

  lemma CellCountedLess(f: Field, c: Cell, p: nat)
    requires SoundField(f)
    ensures CellOwns(f, c, Counted, p) <= CellOwns(f, c, Stored, p)
  {
    hide SoundField, DataOwns, ReleaseData;
    if f.htype.Oneof? && c.Choice? {
      ReleaseDataLeaves(f, c.data, Heap(0, [], []), p);
    } else {
      ReleaseDataLeaves(f, c, Heap(0, [], []), p);
    }
  }

  lemma {:induction false} MemberOwns(fields: seq<Field>, f: Field, mem: Mem, r: Reach, p: nat)
    requires f in fields
    ensures FieldOwns(f, mem, r, p) <= Owns(fields, mem, r, p)
    decreases |fields|
  {
    hide FieldOwns;
    if fields[0] != f {
      MemberOwns(fields[1..], f, mem, r, p);
    }
  }

  lemma OldMemberEven(fields: seq<Field>, f: Field, g: Field, mem: Mem, p: nat)
    requires Sound(fields) && SnugSlot(fields, f, mem) && f in fields && f.htype.Oneof? && f.slot in mem
    requires mem[f.slot].Choice? && mem[f.slot].which != 0 && Find(fields, mem[f.slot].which) == Some(g) && g.slot == f.slot
    ensures Owns(fields, mem, Stored, p) == FieldOwns(g, mem, Counted, p) + Owns(fields, mem[f.slot := Choice(f.tag, BlankData(f))], Stored, p)
  {
    hide SnugSlot, SoundField, SafeField, SnugData, Owns, CellOwns, BlankData, Sole;
    OwnUnion(fields, f, g);
    hide Sound;
    SoundMember(fields, g);
    SnugSlotAt(fields, f, g, mem);
    var c := mem[f.slot];
    CellIsEven(g, c, p);
    UnionIsSole(fields, g, c, Stored, p);
    BlankSole(fields, g, f, Stored, p);
    SoundDistinct(fields);
    UpdateOwns(fields, g, mem, Choice(f.tag, BlankData(f)), Stored, p);
  }

  lemma OwnUnion(fields: seq<Field>, f: Field, g: Field)
    requires Sound(fields) && f in fields && f.htype.Oneof? && g in fields && g.slot == f.slot
    ensures g.htype.Oneof?
  {
    hide SoundField;
    if g != f {
      var i :| 0 <= i < |fields| && fields[i] == g;
      DistinctMember(fields, f, i);
    }
  }

  lemma CellIsEven(g: Field, c: Cell, p: nat)
    requires SoundField(g) && SafeField(g) && g.htype.Oneof? && c.Choice? && c.which == g.tag && SnugData(g, c.data)
    ensures CellOwns(g, c, Stored, p) == CellOwns(g, c, Counted, p)
  {
    hide SoundField, SafeField, SnugData, DataOwns;
    SnugDataEven(g, c.data, p);
  }

  lemma {:induction false} SafeUnion(fields: seq<Field>, f: Field, wt: nat, bs: seq<byte>, book: State, mem: Mem, h: Heap, p: nat)
    requires Sound(fields) && SafeField(f) && f in fields && f.htype.Oneof? && (PointerFree(fields) || SnugSlot(fields, f, mem))
    requires Owns(fields, mem, Stored, p) == Owns(fields, mem, Counted, p)
    ensures var o := DecodeField(fields, f, wt, bs, book, mem, h);
      && Lost(o.drops, p) == 0 && Owns(fields, o.val.0, Stored, p) == Owns(fields, o.val.0, Counted, p)
      && o.val.1 == book && (o.rest.Some? && !PointerFree(fields) ==> Changed(f, mem, o.val.0))
    decreases |bs|, 3, 0
  {
    hide Sound, SnugSlot, SoundField, SafeField, SnugData, Owns, DecodeData, DropMember, DataOwns, Sole, BlankData, Replaced, PointerFree;
    NothingLost(p);
    if f.slot in mem && DropMember(fields, f, mem, h).Some? {
      SoundMember(fields, f);
      SnugBlankData(f);
      var (m1, h1) := DropMember(fields, f, mem, h).value;
      ChoiceOf(fields, f, mem, h);
      var c := mem[f.slot];
      var data := if c.which == f.tag then c.data else BlankData(f);
      if PointerFree(fields) {
        FreeIsSnug(fields, f, data);
      } else {
        SnugSlotAt(fields, f, f, mem);
      }
      SafeData(f, wt, bs, data, h1, p);
      var o := DecodeData(f, wt, bs, data, h1);
      SafeReplaced(fields, f, mem, h, p);
      LostConcat(Replaced(fields, f, mem, m1), o.drops, p);
      var d := Choice(f.tag, o.val);
      if PointerFree(fields) {
        PointerFreeStruct(fields, m1[f.slot := d], p);
      } else {
        SameAfter(m1, mem, f.slot, d);
        UnionEvenUpdate(fields, f, mem, d, p);
      }
    }
  }

  /** Only the data of `f` changed, and its counts cover them. */
  predicate Changed(f: Field, mem: Mem, m1: Mem) {
    f.slot in mem && f.slot in m1 && m1 == mem[f.slot := m1[f.slot]] &&
    var c := m1[f.slot];
    if f.htype.Oneof? then c.Choice? && c.which == f.tag && SnugData(f, c.data) else SnugData(f, c)
  }

  lemma ChoiceOf(fields: seq<Field>, f: Field, mem: Mem, h: Heap)
    requires f.slot in mem && DropMember(fields, f, mem, h).Some?
    ensures mem[f.slot].Choice?
    ensures mem[f.slot].which == 0 || mem[f.slot].which == f.tag || Find(fields, mem[f.slot].which).Some?
  {
  }

  lemma FreeStructIsSnug(fields: seq<Field>, mem: Mem)
    requires PointerFree(fields)
    ensures Snug(fields, mem)
  {
  }

  /** A union takes a new member, or more for the one it has. */
  lemma UnionEvenUpdate(fields: seq<Field>, f: Field, mem: Mem, d: Cell, p: nat)
    requires Sound(fields) && f in fields && f.htype.Oneof? && f.slot in mem && SnugSlot(fields, f, mem)
    requires Owns(fields, mem, Stored, p) == Owns(fields, mem, Counted, p)
    requires mem[f.slot].Choice? && d.Choice? && d.which == f.tag && DataOwns(f, d.data, Stored, p) == DataOwns(f, d.data, Counted, p)
    requires mem[f.slot].which == 0 || mem[f.slot].which == f.tag || Find(fields, mem[f.slot].which).Some?
    ensures Owns(fields, mem[f.slot := d], Stored, p) == Owns(fields, mem[f.slot := d], Counted, p)
  {
    hide Sound, SnugSlot, SoundField, SafeField, SnugData, Owns, DataOwns, Sole, BlankData;
    SnugSlotAt(fields, f, f, mem);
    var c := mem[f.slot];
    var g := if c.which == 0 || c.which == f.tag then f else Find(fields, c.which).value;
    OwnUnion(fields, f, g);
    SoundMember(fields, g);
    SnugSlotAt(fields, f, g, mem);
    SoundDistinct(fields);
    SoundTags(fields);
    if c.which == g.tag {
      CellIsEven(g, c, p);
    }
    forall r
      ensures Sole(fields, g, c, r, p) && Sole(fields, f, d, r, p) && Sole(fields, f, Choice(0, Raw), r, p) && Sole(fields, g, Choice(0, Raw), r, p)
    {
      UnionIsSole(fields, g, c, r, p);
      UnionIsSole(fields, f, d, r, p);
      UnionIsSole(fields, f, Choice(0, Raw), r, p);
      UnionIsSole(fields, g, Choice(0, Raw), r, p);
    }
    EvenUpdate(fields, g, mem, Choice(0, Raw), p);
    EvenUpdate(fields, f, mem[f.slot := Choice(0, Raw)], d, p);
    assert mem[f.slot := Choice(0, Raw)][f.slot := d] == mem[f.slot := d];
  }

  /** A record for a safe field other than a fixed-count array. */
  lemma {:induction false} SafeOther(fields: seq<Field>, f: Field, wt: nat, bs: seq<byte>, book: State, mem: Mem, h: Heap, p: nat)
    requires Sound(fields) && SafeField(f) && f in fields && !f.htype.FixedCount? && (PointerFree(fields) || SnugSlot(fields, f, mem))
    requires Owns(fields, mem, Stored, p) == Owns(fields, mem, Counted, p)
    ensures var o := DecodeField(fields, f, wt, bs, book, mem, h);
      && Lost(o.drops, p) == 0 && Owns(fields, o.val.0, Stored, p) == Owns(fields, o.val.0, Counted, p)
      && o.val.1 == book && (o.rest.Some? && !PointerFree(fields) ==> Changed(f, mem, o.val.0))
    decreases |bs|, 3, 1
  {
    hide Sound, SnugSlot, SoundField, SafeField, SnugData, Owns, DecodeData, DropMember, DataOwns, PointerFree;
    NothingLost(p);
    if f.htype.Oneof? {
      SafeUnion(fields, f, wt, bs, book, mem, h, p);
    } else if f.slot in mem {
      SoundMember(fields, f);
      PlainIsSnug(fields, f, mem);
      SafeData(f, wt, bs, mem[f.slot], h, p);
      PlainEvenUpdate(fields, f, mem, DecodeData(f, wt, bs, mem[f.slot], h).val, p);
    }
  }

  lemma PlainIsSnug(fields: seq<Field>, f: Field, mem: Mem)
    requires f in fields && f.slot in mem && !f.htype.Oneof? && (PointerFree(fields) || SnugSlot(fields, f, mem))
    ensures SnugData(f, mem[f.slot])
  {
    hide SafeField, SnugData;
    if PointerFree(fields) {
      FreeIsSnug(fields, f, mem[f.slot]);
    } else {
      var i :| 0 <= i < |fields| && fields[i] == f;
      assert SnugField(fields, fields[i], mem);
      assert SnugCell(f, mem[f.slot]);
    }
  }

  lemma SnugIsSlot(fields: seq<Field>, f: Field, mem: Mem)
    requires Safe(fields) && Snug(fields, mem)
    ensures PointerFree(fields) || SnugSlot(fields, f, mem)
  {
    hide SafeField, SnugField;
  }

  // ---------------------------------------------------------------- whole structs

  lemma {:induction false} SafeRecord(fields: seq<Field>, f: Field, wt: nat, bs: seq<byte>, book: State, mem: Mem, h: Heap, p: nat)
    requires Sound(fields) && Safe(fields) && f in fields && Snug(fields, mem)
    ensures var o := DecodeField(fields, f, wt, bs, book, mem, h);
      && Lost(o.drops, p) == 0 && Owns(fields, o.val.0, Stored, p) == Owns(fields, o.val.0, Counted, p)
      && (o.rest.Some? ==> Snug(fields, o.val.0))
    decreases |bs|, 3, 2
  {
    hide Sound, Safe, Snug, SoundField, SafeField, SnugData, Owns, DecodeData, DecodeFixed, DropMember, DataOwns, PointerFree, SnugSlot;
    NothingLost(p);
    SnugEven(fields, mem, p);
    SoundMember(fields, f);
    SafeMember(fields, f);
    if !f.htype.FixedCount? {
      SnugIsSlot(fields, f, mem);
      SafeOther(fields, f, wt, bs, book, mem, h, p);
      var o := DecodeField(fields, f, wt, bs, book, mem, h);
      if PointerFree(fields) {
        FreeStructIsSnug(fields, o.val.0);
      } else if o.rest.Some? {
        SnugUpdate(fields, f, mem, o.val.0[f.slot]);
      }
    } else if f.slot in mem && mem[f.slot].Fixed? && book.fixed.Some? {
      var c, k := mem[f.slot], book.fixed.value.size;
      SafeFixedStep(f, wt, bs, c, k, h, p);
      SafeFixed(f);
      var d := DecodeFixed(f, wt, bs, c, k, h).val.0;
      PointerFreeEven(f, d, p);
      FreeDataIsSnug(f, c);
      FreeDataIsSnug(f, d);
      PlainEvenUpdate(fields, f, mem, d, p);
      SnugUpdate(fields, f, mem, d);
    }
  }

  lemma FreeDataIsSnug(f: Field, c: Cell)
    requires PointerFreeField(f)
    ensures SnugData(f, c)
  {
  }

  lemma {:induction false} SafeLoop(fields: seq<Field>, bs: seq<byte>, book: State, mem: Mem, h: Heap, p: nat)
    requires Sound(fields) && Safe(fields) && Snug(fields, mem)
    ensures var o := Loop(fields, bs, book, mem, h);
      && Lost(o.drops, p) == 0 && Owns(fields, o.val, Stored, p) == Owns(fields, o.val, Counted, p)
      && (o.rest.Some? ==> Snug(fields, o.val))
    decreases |bs|, 4
  {
    hide Sound, Safe, Snug, Owns, DecodeField, Find, Enter, Step, DecTag, Finished;
    NothingLost(p);
    SnugEven(fields, mem, p);
    match DecTag(bs)
    case BadTag =>
    case End(_) =>
    case Tag(tag, wt, after) =>
      if Find(fields, tag).None? {
        if Step(fields, tag, wt, after, book).Ok? {
          SafeLoop(fields, Step(fields, tag, wt, after, book).rest, book, mem, h, p);
        }
      } else {
        var f := Find(fields, tag).value;
        if Enter(f, book).Some? {
          var entered := Enter(f, book).value;
          var o := DecodeField(fields, f, wt, after, entered, mem, h);
          SafeRecord(fields, f, wt, after, entered, mem, h, p);
          if o.rest.Some? {
            SafeLoop(fields, o.rest.value, o.val.1, o.val.0, o.heap, p);
            LostConcat(o.drops, Loop(fields, o.rest.value, o.val.1, o.val.0, o.heap).drops, p);
          }
        }
      }
  }

  lemma {:induction false} SafeMerge(fields: seq<Field>, bs: seq<byte>, mem: Mem, h: Heap, p: nat)
    requires Sound(fields) && Safe(fields) && Snug(fields, mem)
    ensures var o := MergeStruct(fields, bs, mem, h);
      && Lost(o.drops, p) == 0 && Owns(fields, o.val, Stored, p) == Owns(fields, o.val, Counted, p)
      && (o.rest.Some? ==> Snug(fields, o.val))
    decreases |bs|, 5
  {
    hide Sound, Safe, Snug, Owns, Loop;
    SafeLoop(fields, bs, State(map[], {}, None), mem, h, p);
  }

  lemma {:induction false} SafeStruct(fields: seq<Field>, bs: seq<byte>, mem: Mem, h: Heap, p: nat)
    requires Sound(fields) && Safe(fields) && (mem == Blank(fields) || PointerFree(fields))
    ensures var o := DecodeStruct(fields, bs, mem, h);
      && Lost(o.drops, p) == 0 && Owns(fields, o.val, Stored, p) == Owns(fields, o.val, Counted, p)
      && (o.rest.Some? ==> Snug(fields, o.val))
    decreases |bs|, 6
  {
    hide Sound, Safe, Snug, Owns, Pointers, MergeStruct, Release, PointerFree, SetDefaults, Blank, Cuts;
    var start := SetDefaults(fields, mem);
    var o := MergeStruct(fields, bs, start, h);
    PointersAre(fields, mem, Stored, p);
    PointersAre(fields, start, Stored, p);
    if PointerFree(fields) {
      FreeStructIsSnug(fields, start);
      PointerFreeStruct(fields, mem, p);
      PointerFreeStruct(fields, start, p);
    } else {
      SnugBlank(fields);
      DefaultsOfBlank(fields);
    }
    SafeMerge(fields, bs, start, h, p);
    OneLost(Reset(fields, mem), p);
    LostConcat([Reset(fields, mem)], o.drops, p);
    if o.rest.None? {
      var m1 := Release(fields, o.val, o.heap).0;
      var ended := Drop(Pointers(fields, o.val, Stored), Pointers(fields, o.val, Counted), Pointers(fields, m1, Stored), false);
      PointersAre(fields, o.val, Stored, p);
      PointersAre(fields, o.val, Counted, p);
      PointersAre(fields, m1, Stored, p);
      ReleaseLeaves(fields, o.val, o.heap, p);
      ReleaseLeaves(fields, m1, o.heap, p);
      OneLost(ended, p);
      LostConcat([Reset(fields, mem)] + o.drops, [ended], p);
    }
  }

  /** No run over such a descriptor loses a block, whatever the bytes and the refusals. */
  lemma {:induction false} SafeNeverLoses(fields: seq<Field>, bs: seq<byte>, h: Heap)
    requires Sound(fields) && Safe(fields)
    ensures var o := DecodeStruct(fields, bs, Blank(fields), h);
      Clean(o.drops) && !Stranded(fields, o.val)
  {
    hide Sound, Safe, Owns, Pointers, DecodeStruct, Release, Blank, Lost, Clean, Fair, Stranded, Live;
    var o := DecodeStruct(fields, bs, Blank(fields), h);
    var h1 := Release(fields, o.val, o.heap).1;
    forall p: nat
      ensures Balanced(h, h1, p)
    {
      DecodeThenRelease(fields, bs, h, p);
      SafeStruct(fields, bs, Blank(fields), h, p);
    }
    BalancesIffClean(fields, bs, h);
  }
}
