/**
  Empty structs hold no blocks, and setting defaults adds none to the storage.
 */
module DefaultBlocks {
  import opened Bytes
  import opened Varint
  import opened Wire
  import opened Message
  import opened DecodeSpec
  import opened Ownership
  import opened ReleaseBlocks
  import opened StoredBlocks

  // ---------------------------------------------------------------- empty structs and defaults

  predicate Idle(fields: seq<Field>, slot: nat, c: Cell, p: nat) {
    forall i :: 0 <= i < |fields| && fields[i].slot == slot ==> CellOwns(fields[i], c, Stored, p) == 0
  }

  /** Overwriting storage with something that holds nothing does not add blocks. */
  lemma {:induction false} OwnsUnder(fields: seq<Field>, mem: Mem, slot: nat, c: Cell, p: nat)
    requires Idle(fields, slot, c, p)
    ensures Owns(fields, mem[slot := c], Stored, p) <= Owns(fields, mem, Stored, p)
    decreases |fields|
  {
    hide CellOwns;
    if |fields| > 0 {
      assert fields[0].slot == slot ==> CellOwns(fields[0], c, Stored, p) == 0;
      var rest := fields[1..];
      assert forall i :: 0 <= i < |rest| ==> rest[i] == fields[i + 1];
      OwnsUnder(rest, mem, slot, c, p);
    }
  }

  /** The storage of a union without a member holds nothing; other storage belongs to no other field. */
  lemma UnsetIsIdle(f: Field, rest: seq<Field>, c: Cell, p: nat)
    requires Apart(f, rest) && (f.htype.Oneof? ==> c.Choice? && c.which == 0)
    requires forall i :: 0 <= i < |rest| ==> rest[i].tag >= 1
    ensures Idle(rest, f.slot, c, p)
  {
    hide DataOwns;
  }

  lemma SoundTags(fields: seq<Field>)
    requires Sound(fields)
    ensures forall i :: 0 <= i < |fields| ==> fields[i].tag >= 1
  {
    forall i | 0 <= i < |fields|
      ensures fields[i].tag >= 1
    {
      assert SoundField(fields[i]);
    }
  }

  lemma {:induction false} BlankBodyOwns(f: Field, p: nat)
    requires SoundField(f)
    ensures BodyOwns(f, BlankBody(f), Stored, p) == 0
    decreases f, 0
  {
    if f.ltype.LSubmessage? {
      BlankOwns(f.ltype.ptr, p);
    }
  }

  lemma {:induction false} SameItemsOwn(f: Field, c: Cell, n: nat, p: nat)
    requires ItemOwns(f, c, Stored, p) == 0
    ensures ItemsOwn(f, seq(n, _ => c), Stored, p) == 0
    decreases n
  {
    hide ItemOwns;
    if n > 0 {
      SameItemsOwn(f, c, n - 1, p);
      assert seq(n, _ => c)[1..] == seq(n - 1, _ => c);
    }
  }

  lemma {:induction false} BlankDataOwns(f: Field, p: nat)
    requires SoundField(f)
    ensures DataOwns(f, BlankData(f), Stored, p) == 0
    decreases f, 1
  {
    hide BodyOwns, BlankBody, SoundField;
    BlankBodyOwns(f, p);
    if !f.layout.pointer && f.htype.FixedCount? {
      SameItemsOwn(f, BlankItem(f), f.arraySize, p);
      var items := BlankData(f).items;
      assert items == seq(f.arraySize, _ => BlankItem(f));
    }
  }

  /** A struct of zeros holds no block. */
  lemma {:induction false} BlankOwns(fields: seq<Field>, p: nat)
    requires Sound(fields)
    ensures Owns(fields, Blank(fields), Stored, p) == 0
    decreases fields
  {
    hide Sound, SoundField, BlankData, DataOwns;
    if |fields| > 0 {
      var f, rest := fields[0], fields[1..];
      SoundTail(fields);
      BlankDataOwns(f, p);
      BlankOwns(rest, p);
      SoundTags(fields);
      SoundTags(rest);
      UnsetIsIdle(f, rest, BlankCell(f), p);
      OwnsUnder(rest, Blank(rest), f.slot, BlankCell(f), p);
      assert CellOwns(f, BlankCell(f), Stored, p) == 0;
      assert FieldOwns(f, Blank(fields), Stored, p) == 0;
    }
  }

  lemma {:induction false} OverlayBodyOwns(f: Field, c: Cell, p: nat)
    requires SoundField(f)
    ensures BodyOwns(f, OverlayBody(f, c), Stored, p) <= BodyOwns(f, c, Stored, p)
    decreases f, 0
  {
    if f.ltype.LSubmessage? && c.Sub? {
      OverlayOwns(f.ltype.ptr, c.mem, p);
    }
  }

  lemma {:induction false} OverlayItemsOwn(f: Field, items: seq<Cell>, p: nat)
    requires SoundField(f) && |items| > 0 && !f.layout.pointer
    ensures ItemsOwn(f, items[0 := OverlayBody(f, items[0])], Stored, p) <= ItemsOwn(f, items, Stored, p)
    decreases f, 1
  {
    hide SoundField, OverlayBody, BodyOwns;
    OverlayBodyOwns(f, items[0], p);
    assert items[0 := OverlayBody(f, items[0])][1..] == items[1..];
  }

  lemma {:induction false} OverlayCellOwns(f: Field, c: Cell, p: nat)
    requires SoundField(f)
    ensures CellOwns(f, OverlayCell(f, c), Stored, p) <= CellOwns(f, c, Stored, p)
    ensures f.htype.Oneof? ==> OverlayCell(f, c) == Choice(0, Raw)
    decreases f, 2
  {
    hide OverlayBody, BodyOwns, ItemsOwn;
    OverlayBodyOwns(f, c, p);
    var d := OverlayCell(f, c);
    if f.htype.Oneof? {
    } else if f.layout.pointer {
      NoItems(f, p);
      assert CellOwns(f, d, Stored, p) == DataOwns(f, d, Stored, p) && CellOwns(f, c, Stored, p) == DataOwns(f, c, Stored, p);
    } else if f.htype.Repeated? {
      assert DataOwns(f, d, Stored, p) == DataOwns(f, c, Stored, p);
    } else if f.htype.FixedCount? {
      if c.Fixed? && |c.items| > 0 {
        OverlayItemsOwn(f, c.items, p);
      }
      assert DataOwns(f, d, Stored, p) <= DataOwns(f, c, Stored, p);
    } else {
      DataIsBody(f, c, Stored, p);
      DataIsBody(f, d, Stored, p);
    }
  }

  lemma NoItems(f: Field, p: nat)
    ensures ItemsOwn(f, [], Stored, p) == 0
  {
  }

  lemma DataIsBody(f: Field, c: Cell, r: Reach, p: nat)
    requires !f.layout.pointer && !f.htype.Repeated? && !f.htype.FixedCount?
    ensures DataOwns(f, c, r, p) == BodyOwns(f, c, r, p)
  {
  }

  /** A count written over the start of a struct adds no block. */
  lemma {:induction false} OverlayOwns(fields: seq<Field>, mem: Mem, p: nat)
    requires Sound(fields)
    ensures Owns(fields, Overlay(fields, mem), Stored, p) <= Owns(fields, mem, Stored, p)
    decreases fields, 3
  {
    hide Sound, SoundField, CellOwns, OverlayCell;
    if |fields| > 0 && fields[0].slot in mem {
      var f, rest := fields[0], fields[1..];
      SoundTail(fields);
      SoundTags(rest);
      var c := OverlayCell(f, mem[f.slot]);
      OverlayCellOwns(f, mem[f.slot], p);
      UnsetIsIdle(f, rest, c, p);
      OwnsUnder(rest, mem, f.slot, c, p);
    }
  }

  lemma {:induction false} DefaultCellOwns(f: Field, c: Cell, p: nat)
    requires SoundField(f)
    ensures CellOwns(f, DefaultCell(f, c), Stored, p) <= CellOwns(f, c, Stored, p)
    decreases f
  {
    var d := DefaultCell(f, c);
    assert f.tag >= 1;
    hide SoundField, ItemsOwn, BodyOwns, OverlayBody;
    if f.htype.Oneof? {
    } else if f.layout.pointer {
      BlankDataOwns(f, p);
      assert d == BlankData(f);
    } else if f.htype.Repeated? {
      NoItems(f, p);
      assert DataOwns(f, d, Stored, p) == DataOwns(f, c, Stored, p);
    } else if f.htype.FixedCount? {
      if c.Fixed? && |c.items| > 0 {
        OverlayItemsOwn(f, c.items, p);
      }
      assert DataOwns(f, d, Stored, p) <= DataOwns(f, c, Stored, p);
    } else {
      DefaultBodyOwns(f, c, p);
      DataIsBody(f, c, Stored, p);
      DataIsBody(f, d, Stored, p);
    }
  }

  lemma {:induction false} DefaultBodyOwns(f: Field, c: Cell, p: nat)
    requires SoundField(f) && !f.htype.Oneof? && !f.layout.pointer && !f.htype.Repeated? && !f.htype.FixedCount?
    ensures BodyOwns(f, DefaultCell(f, c), Stored, p) <= BodyOwns(f, c, Stored, p)
    decreases f, 0
  {
    if f.ltype.LSubmessage? && c.Sub? {
      SetDefaultsOwns(f.ltype.ptr, c.mem, p);
    }
  }

  lemma FirstItemOwns(f: Field, items: seq<Cell>, d: Cell, r: Reach, p: nat)
    requires |items| > 0
    ensures ItemsOwn(f, items[0 := d], r, p) - ItemOwns(f, d, r, p) == ItemsOwn(f, items, r, p) - ItemOwns(f, items[0], r, p)
  {
    hide ItemOwns;
    assert items[0 := d][1..] == items[1..];
  }

  /**
    What the defaults of one field leave of the blocks it held: a pointer and a union hold nothing
    any more; an embedded array keeps all its storage, of which its count says nothing; an array of
    fixed size loses what the zero count overwrites at the start of its first item.
   */
  lemma DefaultLeaves(f: Field, c: Cell, r: Reach, p: nat)
    requires SoundField(f)
    ensures var d := DefaultCell(f, c);
      && (f.htype.Oneof? || f.layout.pointer ==> CellOwns(f, d, r, p) == 0)
      && (f.htype.Repeated? && !f.layout.pointer && c.Arr? ==>
            CellOwns(f, d, Counted, p) == 0 && CellOwns(f, d, Stored, p) == CellOwns(f, c, Stored, p))
      && (f.htype.FixedCount? && c.Fixed? && |c.items| > 0 ==>
            CellOwns(f, d, r, p) - ItemOwns(f, OverlayBody(f, c.items[0]), r, p) == CellOwns(f, c, r, p) - ItemOwns(f, c.items[0], r, p))
  {
    hide SoundField, ItemOwns, BodyOwns, OverlayBody;
    assert f.tag >= 1 && (f.htype.FixedCount? ==> !f.layout.pointer) by {
      FieldIsSound(f);
    }
    var d := DefaultCell(f, c);
    if f.htype.Oneof? {
    } else if f.layout.pointer {
      assert d == BlankData(f) && DataOwns(f, d, r, p) == 0;
    } else if f.htype.Repeated? && c.Arr? {
      NoItems(f, p);
      assert c.items[..0] == [] && ItemsOwn(f, [], Counted, p) == 0;
      assert DataOwns(f, d, Counted, p) == 0 && DataOwns(f, d, Stored, p) == DataOwns(f, c, Stored, p);
    } else if f.htype.FixedCount? && c.Fixed? && |c.items| > 0 {
      FirstItemOwns(f, c.items, OverlayBody(f, c.items[0]), r, p);
      assert DataOwns(f, d, r, p) == ItemsOwn(f, d.items, r, p) && DataOwns(f, c, r, p) == ItemsOwn(f, c.items, r, p);
    }
  }

  lemma FieldIsSound(f: Field)
    requires SoundField(f)
    ensures f.tag >= 1 && (f.htype.FixedCount? ==> !f.layout.pointer)
  {
  }

  /**
    What a zero count written over the start of a struct leaves of the first field's blocks: its
    pointer only if the address has zeros there anyway; of an array by pointer the array itself but
    none of its items; of an embedded array all its storage, uncounted; of a union nothing.
   */
  lemma OverlayLeaves(f: Field, c: Cell, r: Reach, p: nat)
    requires SoundField(f)
    ensures var d := OverlayCell(f, c);
      && (f.htype.Oneof? ==> CellOwns(f, d, r, p) == 0)
      && (f.htype.Optional? && !f.layout.pointer ==> d == c)
      && (f.layout.pointer && !f.htype.Oneof? && !f.htype.Repeated? && c.Ptr? ==>
            CellOwns(f, d, r, p) == if c.p in INTACT then CellOwns(f, c, r, p) else 0)
      && (f.layout.pointer && f.htype.Repeated? && c.Vec? ==> CellOwns(f, d, r, p) == Is(c.p, p))
      && (f.htype.Repeated? && !f.layout.pointer && c.Arr? ==>
            CellOwns(f, d, Counted, p) == 0 && CellOwns(f, d, Stored, p) == CellOwns(f, c, Stored, p))
  {
    hide SoundField, ItemOwns, BodyOwns, OverlayBody;
    FieldIsSound(f);
    var d := OverlayCell(f, c);
    if f.htype.Oneof? {
    } else if f.layout.pointer && !f.htype.Repeated? && c.Ptr? {
      assert c.p !in INTACT ==> d == Ptr(0, Raw) && DataOwns(f, d, r, p) == 0;
    } else if f.layout.pointer && f.htype.Repeated? && c.Vec? {
      assert ItemsOwn(f, [], r, p) == 0 && DataOwns(f, d, r, p) == Is(c.p, p);
    } else if f.htype.Repeated? && c.Arr? {
      assert c.items[..0] == [] && ItemsOwn(f, [], Counted, p) == 0;
      assert DataOwns(f, d, Counted, p) == 0 && DataOwns(f, d, Stored, p) == DataOwns(f, c, Stored, p);
    }
  }

  lemma {:induction false} DefaultsKeep(f: Field, fields: seq<Field>, mem: Mem, p: nat)
    requires Apart(f, fields) && f.tag >= 1
    ensures FieldOwns(f, SetDefaults(fields, mem), Stored, p) <= FieldOwns(f, mem, Stored, p)
    decreases |fields|
  {
    hide DataOwns;
    if |fields| > 0 {
      var g := fields[0];
      var m1 := if g.slot in mem then mem[g.slot := DefaultCell(g, mem[g.slot])] else mem;
      DefaultsKeep(f, fields[1..], m1, p);
    }
  }

  /** Setting the defaults adds no block; it loses those whose pointers it overwrites. */
  lemma {:induction false} SetDefaultsOwns(fields: seq<Field>, mem: Mem, p: nat)
    requires Sound(fields)
    ensures Owns(fields, SetDefaults(fields, mem), Stored, p) <= Owns(fields, mem, Stored, p)
    decreases fields
  {
    hide Sound, SoundField, DataOwns;
    if |fields| > 0 {
      var f, rest := fields[0], fields[1..];
      SoundTail(fields);
      SoundTags(fields);
      SoundTags(rest);
      if f.slot in mem {
        var c := DefaultCell(f, mem[f.slot]);
        DefaultCellOwns(f, mem[f.slot], p);
        var m1 := mem[f.slot := c];
        OwnsAfterDefault(rest, f, mem, p);
        SetDefaultsOwns(rest, m1, p);
        DefaultsKeep(f, rest, m1, p);
      } else {
        SetDefaultsOwns(rest, mem, p);
        DefaultsKeep(f, rest, mem, p);
      }
    }
  }

  lemma OwnsAfterDefault(rest: seq<Field>, f: Field, mem: Mem, p: nat)
    requires f.slot in mem && Apart(f, rest) && forall i :: 0 <= i < |rest| ==> rest[i].tag >= 1
    ensures Owns(rest, mem[f.slot := DefaultCell(f, mem[f.slot])], Stored, p) <= Owns(rest, mem, Stored, p)
  {
    hide Owns, CellOwns, Idle;
    var c := DefaultCell(f, mem[f.slot]);
    UnsetIsIdle(f, rest, c, p);
    OwnsUnder(rest, mem, f.slot, c, p);
  }

  lemma {:induction false} PointerFreeItems(f: Field, items: seq<Cell>, p: nat)
    requires PointerFreeField(f)
    ensures ItemsOwn(f, items, Stored, p) == 0
    decreases f, 1, |items|
  {
    if |items| > 0 {
      PointerFreeBody(f, items[0], p);
      PointerFreeItems(f, items[1..], p);
    }
  }

  lemma {:induction false} PointerFreeBody(f: Field, c: Cell, p: nat)
    requires PointerFreeField(f)
    ensures BodyOwns(f, c, Stored, p) == 0
    decreases f, 0
  {
    if f.ltype.LSubmessage? && c.Sub? {
      PointerFreeOwns(f.ltype.ptr, c.mem, p);
    }
  }

  lemma {:induction false} PointerFreeData(f: Field, c: Cell, p: nat)
    requires PointerFreeField(f)
    ensures DataOwns(f, c, Stored, p) == 0
    decreases f, 2
  {
    hide PointerFree, ItemsOwn, BodyOwns;
    PointerFreeBody(f, c, p);
    if c.Arr? {
      PointerFreeItems(f, c.items[..Reached(c, Stored)], p);
    } else if c.Fixed? {
      PointerFreeItems(f, c.items, p);
    }
  }

  lemma {:induction false} PointerFreeOwns(fields: seq<Field>, mem: Mem, p: nat)
    requires PointerFree(fields)
    ensures Owns(fields, mem, Stored, p) == 0
    decreases fields
  {
    hide PointerFreeField, DataOwns;
    if |fields| > 0 {
      var f := fields[0];
      assert forall i :: 0 <= i < |fields[1..]| ==> fields[1..][i] == fields[i + 1];
      PointerFreeOwns(fields[1..], mem, p);
      if f.slot in mem {
        var c := mem[f.slot];
        PointerFreeData(f, if f.htype.Oneof? && c.Choice? then c.data else c, p);
        assert CellOwns(f, c, Stored, p) == 0;
      }
    }
  }

  lemma {:induction false} BlankAt(fields: seq<Field>, i: nat)
    requires DistinctSlots(fields) && i < |fields|
    ensures fields[i].slot in Blank(fields) && Blank(fields)[fields[i].slot] == BlankCell(fields[i])
  {
    if i > 0 {
      BlankAt(fields[1..], i - 1);
    }
  }

  lemma {:induction false} SetDefaultsOther(fields: seq<Field>, mem: Mem, slot: nat)
    requires slot in mem && forall j :: 0 <= j < |fields| && fields[j].slot == slot ==> fields[j].htype.Oneof?
    ensures slot in SetDefaults(fields, mem)
    ensures mem[slot] == Choice(0, Raw) || (forall j :: 0 <= j < |fields| ==> fields[j].slot != slot) ==>
      SetDefaults(fields, mem)[slot] == mem[slot]
    decreases |fields|
  {
    if |fields| > 0 {
      var f, rest := fields[0], fields[1..];
      assert forall j :: 0 <= j < |rest| ==> rest[j] == fields[j + 1];
      SetDefaultsOther(rest, if f.slot in mem then mem[f.slot := DefaultCell(f, mem[f.slot])] else mem, slot);
    }
  }

  lemma {:induction false} SetDefaultsAt(fields: seq<Field>, mem: Mem, i: nat)
    requires DistinctSlots(fields) && i < |fields| && fields[i].slot in mem
    ensures fields[i].slot in SetDefaults(fields, mem)
    ensures SetDefaults(fields, mem)[fields[i].slot] == DefaultCell(fields[i], mem[fields[i].slot])
    decreases |fields|
  {
    var f, rest := fields[0], fields[1..];
    var mem1 := if f.slot in mem then mem[f.slot := DefaultCell(f, mem[f.slot])] else mem;
    assert forall j :: 0 <= j < |rest| ==> rest[j] == fields[j + 1];
    if i == 0 {
      SetDefaultsOther(rest, mem1, f.slot);
    } else {
      SetDefaultsAt(rest, mem1, i - 1);
    }
  }

  // ---------------------------------------------------------------- cut pointers are lost

  lemma {:induction false} CutBodyLoses(f: Field, c: Cell) returns (p: nat)
    requires SoundField(f) && CutsBody(f, c)
    ensures BodyOwns(f, OverlayBody(f, c), Stored, p) < BodyOwns(f, c, Stored, p)
    decreases f, 0
  {
    hide CellOwns, OverlayCell, SoundField, CutsCell;
    var fields, mem := f.ltype.ptr, c.mem;
    assert Sound(fields) by {
      SoundBody(f);
    }
    hide Sound;
    var g, rest := fields[0], fields[1..];
    SoundTail(fields);
    SoundTags(rest);
    p := CutCellLoses(g, mem[g.slot]);
    var d := OverlayCell(g, mem[g.slot]);
    OverlayCellOwns(g, mem[g.slot], p);
    UnsetIsIdle(g, rest, d, p);
    OwnsUnder(rest, mem, g.slot, d, p);
    assert Overlay(fields, mem) == mem[g.slot := d];
    assert Owns(fields, mem[g.slot := d], Stored, p) < Owns(fields, mem, Stored, p);
  }

  lemma SoundBody(f: Field)
    requires SoundField(f) && f.ltype.LSubmessage?
    ensures Sound(f.ltype.ptr)
  {
  }

  lemma {:induction false} CutCellLoses(f: Field, c: Cell) returns (p: nat)
    requires SoundField(f) && CutsCell(f, c)
    ensures CellOwns(f, OverlayCell(f, c), Stored, p) < CellOwns(f, c, Stored, p)
    decreases f, 1
  {
    hide SoundField, OverlayBody, BodyOwns, ItemsOwn, CutsBody;
    var d := OverlayCell(f, c);
    if f.layout.pointer {
      p := c.p;
      assert DataOwns(f, d, Stored, p) == 0;
      assert DataOwns(f, c, Stored, p) > 0;
      assert CellOwns(f, c, Stored, p) == DataOwns(f, c, Stored, p);
    } else if f.htype.FixedCount? {
      p := CutBodyLoses(f, c.items[0]);
      FirstItemLoses(f, c.items, p);
      assert CellOwns(f, d, Stored, p) == ItemsOwn(f, d.items, Stored, p);
      assert CellOwns(f, c, Stored, p) == ItemsOwn(f, c.items, Stored, p);
    } else {
      p := CutBodyLoses(f, c);
      DataIsBody(f, c, Stored, p);
      DataIsBody(f, d, Stored, p);
    }
  }

  lemma FirstItemLoses(f: Field, items: seq<Cell>, p: nat)
    requires |items| > 0 && !f.layout.pointer && BodyOwns(f, OverlayBody(f, items[0]), Stored, p) < BodyOwns(f, items[0], Stored, p)
    ensures ItemsOwn(f, items[0 := OverlayBody(f, items[0])], Stored, p) < ItemsOwn(f, items, Stored, p)
  {
    hide OverlayBody, BodyOwns;
    assert items[0 := OverlayBody(f, items[0])][1..] == items[1..];
  }

  lemma {:induction false} CutDefaultLoses(f: Field, c: Cell) returns (p: nat)
    requires SoundField(f) && CutsDefault(f, c)
    ensures CellOwns(f, DefaultCell(f, c), Stored, p) < CellOwns(f, c, Stored, p)
    decreases f, 0
  {
    var d := DefaultCell(f, c);
    if f.htype.FixedCount? {
      hide SoundField, OverlayBody, BodyOwns, ItemsOwn, CutsBody;
      p := CutBodyLoses(f, c.items[0]);
      FirstItemLoses(f, c.items, p);
      assert CellOwns(f, d, Stored, p) == ItemsOwn(f, d.items, Stored, p);
      assert CellOwns(f, c, Stored, p) == ItemsOwn(f, c.items, Stored, p);
    } else {
      p := CutLoses(f.ltype.ptr, c.mem);
      DataIsBody(f, c, Stored, p);
      DataIsBody(f, d, Stored, p);
      assert BodyOwns(f, d, Stored, p) == Owns(f.ltype.ptr, d.mem, Stored, p);
    }
  }

  /** Where setting the defaults cuts a pointer, the storage holds a block less. */
  lemma {:induction false} CutLoses(fields: seq<Field>, mem: Mem) returns (p: nat)
    requires Sound(fields) && Cuts(fields, mem)
    ensures Owns(fields, SetDefaults(fields, mem), Stored, p) < Owns(fields, mem, Stored, p)
    decreases fields
  {
    hide Sound, SoundField, DataOwns, CutsDefault, DefaultCell;
    var f, rest := fields[0], fields[1..];
    SoundTail(fields);
    SoundTags(fields);
    SoundTags(rest);
    var m1 := if f.slot in mem then mem[f.slot := DefaultCell(f, mem[f.slot])] else mem;
    if f.slot in mem && CutsDefault(f, mem[f.slot]) {
      p := CutDefaultLoses(f, mem[f.slot]);
      SetDefaultsOwns(rest, m1, p);
    } else {
      CutsElsewhere(f, rest, mem);
      p := CutLoses(rest, m1);
      if f.slot in mem {
        DefaultCellOwns(f, mem[f.slot], p);
      }
    }
    if f.slot in mem {
      OwnsAfterDefault(rest, f, mem, p);
    }
    DefaultsKeep(f, rest, m1, p);
  }

  lemma {:induction false} CutsElsewhere(f: Field, rest: seq<Field>, mem: Mem)
    requires Apart(f, rest) && Cuts(rest, mem)
    ensures f.slot in mem ==> Cuts(rest, mem[f.slot := DefaultCell(f, mem[f.slot])])
    decreases |rest|
  {
    hide DefaultCell;
    if !(rest[0].slot in mem && CutsDefault(rest[0], mem[rest[0].slot])) {
      assert forall i :: 0 <= i < |rest[1..]| ==> rest[1..][i] == rest[i + 1];
      CutsElsewhere(f, rest[1..], mem);
    }
  }
}
