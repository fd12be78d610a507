/**
  The pointers in all storage of a struct, as against those that pb_release finds.
 */
module StoredBlocks {
  import opened Bytes
  import opened Message
  import opened Ownership
  import opened ReleaseBlocks

  // ---------------------------------------------------------------- the pointers are what a struct holds

  lemma {:induction false} BodyPointersAre(f: Field, c: Cell, r: Reach, p: nat)
    ensures BodyPointers(f, c, r)[p] == BodyOwns(f, c, r, p)
    decreases f, 0
  {
    if f.ltype.LSubmessage? && c.Sub? {
      PointersAre(f.ltype.ptr, c.mem, r, p);
    }
  }

  lemma {:induction false} ItemsPointersAre(f: Field, items: seq<Cell>, r: Reach, p: nat)
    ensures ItemsPointers(f, items, r)[p] == ItemsOwn(f, items, r, p)
    decreases f, 1, |items|
  {
    hide BodyOwns, BodyPointers;
    if |items| > 0 {
      BodyPointersAre(f, items[0], r, p);
      ItemsPointersAre(f, items[1..], r, p);
    }
  }

  lemma {:induction false} DataPointersAre(f: Field, c: Cell, r: Reach, p: nat)
    ensures DataPointers(f, c, r)[p] == DataOwns(f, c, r, p)
    decreases f, 2
  {
    hide BodyOwns, BodyPointers, ItemsOwn, ItemsPointers;
    BodyPointersAre(f, c, r, p);
    if c.Ptr? {
      BodyPointersAre(f, c.target, r, p);
    } else if c.Vec? {
      ItemsPointersAre(f, c.items, r, p);
    } else if c.Arr? {
      ItemsPointersAre(f, c.items[..Reached(c, r)], r, p);
    } else if c.Fixed? {
      ItemsPointersAre(f, c.items, r, p);
    }
  }

  lemma {:induction false} FieldPointersAre(f: Field, mem: Mem, r: Reach, p: nat)
    ensures FieldPointers(f, mem, r)[p] == FieldOwns(f, mem, r, p)
    decreases f, 3
  {
    hide DataOwns, DataPointers;
    if f.slot in mem {
      var c := mem[f.slot];
      DataPointersAre(f, if f.htype.Oneof? && c.Choice? then c.data else c, r, p);
      assert CellPointers(f, c, r)[p] == CellOwns(f, c, r, p);
    }
  }

  lemma {:induction false} PointersAre(fields: seq<Field>, mem: Mem, r: Reach, p: nat)
    ensures Pointers(fields, mem, r)[p] == Owns(fields, mem, r, p)
    decreases fields
  {
    hide FieldOwns, FieldPointers;
    if |fields| > 0 {
      FieldPointersAre(fields[0], mem, r, p);
      PointersAre(fields[1..], mem, r, p);
    }
  }

  // ---------------------------------------------------------------- sums over items

  lemma {:induction false} ItemsOwnConcat(f: Field, a: seq<Cell>, b: seq<Cell>, r: Reach, p: nat)
    ensures ItemsOwn(f, a + b, r, p) == ItemsOwn(f, a, r, p) + ItemsOwn(f, b, r, p)
    decreases |a|
  {
    hide ItemOwns;
    if |a| == 0 {
      assert a + b == b;
    } else {
      assert (a + b)[1..] == a[1..] + b;
      ItemsOwnConcat(f, a[1..], b, r, p);
    }
  }

  lemma ItemsOwnSplit(f: Field, items: seq<Cell>, n: nat, r: Reach, p: nat)
    requires n <= |items|
    ensures ItemsOwn(f, items, r, p) == ItemsOwn(f, items[..n], r, p) + ItemsOwn(f, items[n..], r, p)
  {
    hide ItemsOwn;
    assert items[..n] + items[n..] == items;
    ItemsOwnConcat(f, items[..n], items[n..], r, p);
  }

  // ---------------------------------------------------------------- what pb_release leaves

  /** Of the pointers in storage, those that are released are gone, and perhaps others with the storage. */
  lemma {:induction false} ReleaseBodyLeaves(f: Field, c: Cell, h: Heap, p: nat)
    requires SoundField(f)
    ensures BodyOwns(f, ReleaseBody(f, c, h).0, Stored, p) + BodyOwns(f, c, Counted, p) <= BodyOwns(f, c, Stored, p)
    decreases f, 0
  {
    if f.ltype.LSubmessage? && c.Sub? {
      ReleaseLeaves(f.ltype.ptr, c.mem, h, p);
    }
  }

  lemma {:induction false} ReleaseItemsLeave(f: Field, items: seq<Cell>, h: Heap, p: nat)
    requires SoundField(f)
    ensures ItemsOwn(f, ReleaseItems(f, items, h).0, Stored, p) + ItemsOwn(f, items, Counted, p) <= ItemsOwn(f, items, Stored, p)
    decreases f, 1, |items|
  {
    hide SoundField, BodyOwns, ReleaseBody;
    if |items| > 0 {
      var (c1, h1) := ReleaseItem(f, items[0], h);
      ReleaseBodyLeaves(f, items[0], h, p);
      ReleaseItemsLeave(f, items[1..], h1, p);
      assert ([c1] + ReleaseItems(f, items[1..], h1).0)[1..] == ReleaseItems(f, items[1..], h1).0;
    }
  }

  lemma {:induction false} ReleaseDataLeaves(f: Field, c: Cell, h: Heap, p: nat)
    requires SoundField(f)
    ensures DataOwns(f, ReleaseData(f, c, h).0, Stored, p) + DataOwns(f, c, Counted, p) <= DataOwns(f, c, Stored, p)
    decreases f, 2
  {
    hide SoundField, BodyOwns, ReleaseBody, ItemsOwn, ReleaseItems;
    if f.layout.pointer {
      if f.htype.Repeated? {
        if c.Vec? {
          ReleaseItemsLeave(f, c.items, h, p);
        }
      } else if c.Ptr? {
        ReleaseBodyLeaves(f, c.target, h, p);
      }
    } else if f.htype.Repeated? {
      if c.Arr? {
        var n := Reached(c, Counted);
        var items := ReleaseItems(f, c.items[..n], h).0;
        ReleaseItemsLeave(f, c.items[..n], h, p);
        ItemsOwnSplit(f, c.items, n, Stored, p);
        ItemsOwnConcat(f, items, c.items[n..], Stored, p);
        assert c.items[..|c.items|] == c.items;
        assert (items + c.items[n..])[..|items + c.items[n..]|] == items + c.items[n..];
      }
    } else if f.htype.FixedCount? {
      if c.Fixed? {
        ReleaseItemsLeave(f, c.items, h, p);
      }
    } else {
      ReleaseBodyLeaves(f, c, h, p);
    }
  }

  lemma {:induction false} ReleaseFieldLeaves(f: Field, mem: Mem, h: Heap, p: nat)
    requires SoundField(f)
    ensures FieldOwns(f, ReleaseField(f, mem, h).0, Stored, p) + FieldOwns(f, mem, Counted, p) <= FieldOwns(f, mem, Stored, p)
    decreases f, 3
  {
    hide SoundField, ReleaseData, DataOwns;
    if f.slot in mem {
      var c := mem[f.slot];
      ReleaseDataLeaves(f, if f.htype.Oneof? && c.Choice? then c.data else c, h, p);
      var c1 := ReleaseCell(f, c, h).0;
      assert CellOwns(f, c1, Stored, p) + CellOwns(f, c, Counted, p) <= CellOwns(f, c, Stored, p);
    }
  }

  lemma {:induction false} ReleaseLeaves(fields: seq<Field>, mem: Mem, h: Heap, p: nat)
    requires Sound(fields)
    ensures Owns(fields, Release(fields, mem, h).0, Stored, p) + Owns(fields, mem, Counted, p) <= Owns(fields, mem, Stored, p)
    decreases fields
  {
    hide Sound, SoundField, ReleaseField, FieldOwns;
    if |fields| > 0 {
      SoundTail(fields);
      var f := fields[0];
      var (m1, h1) := ReleaseField(f, mem, h);
      ReleaseFieldLeaves(f, mem, h, p);
      OthersKept(fields[1..], f, mem, h, Stored, p);
      OthersKept(fields[1..], f, mem, h, Counted, p);
      ReleaseLeaves(fields[1..], m1, h1, p);
      ReleaseKeeps(f, fields[1..], m1, h1, Stored, p);
    }
  }
}
