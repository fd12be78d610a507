/**
  pb_release frees every block that a struct holds, once for every time it is held.
 */
module ReleaseBlocks {
  import opened Bytes
  import opened Message
  import opened Ownership

  lemma SoundTail(fields: seq<Field>)
    requires Sound(fields) && |fields| > 0
    ensures Sound(fields[1..]) && SoundField(fields[0])
    ensures Apart(fields[0], fields[1..])
  {
    hide SoundField;
    var rest := fields[1..];
    assert forall i :: 0 <= i < |rest| ==> rest[i] == fields[i + 1];
  }

  // ---------------------------------------------------------------- allocator steps

  lemma FreeLive(h: Heap, q: nat, p: nat)
    ensures Live(Free(h, q), p) == Live(h, p) - Is(q, p)
  {
    assert multiset(h.frees + [q]) == multiset(h.frees) + multiset{q};
  }

  lemma AllocateLive(h: Heap, c: nat, d: nat, n: nat, p: nat)
    ensures var (q, h1) := Allocate(h, c, d, n);
      Live(h1, p) == Live(h, p) + (if q == 0 then 0 else Is(q, p) - Is(c, p))
  {
    hide Free, Is, SizeAccepted, Times;
    var h0 := h.(refusals := if |h.refusals| > 0 then h.refusals[1..] else []);
    FreeLive(h0, c, p);
    FreeGot(h0, c);
    NewLive(Free(h0, c), p);
  }

  lemma FreeGot(h: Heap, q: nat)
    ensures Free(h, q).got == h.got
  {
  }

  lemma NewLive(h: Heap, p: nat)
    ensures Live(h.(got := h.got + 1), p) == Live(h, p) + Is(h.got + 1, p)
  {
    hide Times;
  }

  // ---------------------------------------------------------------- pb_release

  /** Releasing frees each block once for every time it is held, and leaves none held. */
  lemma {:induction false} ReleaseBodyFrees(f: Field, c: Cell, h: Heap, p: nat)
    requires SoundField(f)
    ensures var (c1, h1) := ReleaseBody(f, c, h);
      Live(h1, p) == Live(h, p) - BodyOwns(f, c, Counted, p) && BodyOwns(f, c1, Counted, p) == 0
    decreases f, 0
  {
    hide Live;
    if f.ltype.LSubmessage? && c.Sub? {
      ReleaseFrees(f.ltype.ptr, c.mem, h, p);
    }
  }

  lemma {:induction false} ReleaseItemFrees(f: Field, c: Cell, h: Heap, p: nat)
    requires SoundField(f)
    ensures var (c1, h1) := ReleaseItem(f, c, h);
      Live(h1, p) == Live(h, p) - ItemOwns(f, c, Counted, p) && ItemOwns(f, c1, Counted, p) == 0
    decreases f, 1
  {
    hide Live, SoundField, Free, ReleaseBody, BodyOwns;
    if f.layout.pointer && Blob(f.ltype) {
      if c.Ptr? {
        FreeLive(h, c.p, p);
      }
    } else {
      ReleaseBodyFrees(f, c, h, p);
    }
  }

  lemma {:induction false} ReleaseItemsFrees(f: Field, items: seq<Cell>, h: Heap, p: nat)
    requires SoundField(f)
    ensures var (items1, h1) := ReleaseItems(f, items, h);
      Live(h1, p) == Live(h, p) - ItemsOwn(f, items, Counted, p) && ItemsOwn(f, items1, Counted, p) == 0
    decreases f, 2, |items|
  {
    hide Live, SoundField, ReleaseItem, ItemOwns;
    if |items| > 0 {
      var (c1, h1) := ReleaseItem(f, items[0], h);
      ReleaseItemFrees(f, items[0], h, p);
      ReleaseItemsFrees(f, items[1..], h1, p);
      assert ([c1] + ReleaseItems(f, items[1..], h1).0)[1..] == ReleaseItems(f, items[1..], h1).0;
    }
  }

  lemma {:induction false} ReleaseDataFrees(f: Field, c: Cell, h: Heap, p: nat)
    requires SoundField(f)
    ensures var (c1, h1) := ReleaseData(f, c, h);
      Live(h1, p) == Live(h, p) - DataOwns(f, c, Counted, p) && DataOwns(f, c1, Counted, p) == 0
    decreases f, 3
  {
    hide Live, SoundField, ReleaseBody, BodyOwns, ReleaseItems, ItemsOwn, Free;
    if f.layout.pointer {
      if f.htype.Repeated? {
        if c.Vec? {
          var h1 := if c.p != 0 then ReleaseItems(f, c.items, h).1 else h;
          ReleaseItemsFrees(f, c.items, h, p);
          FreeLive(h1, c.p, p);
        }
      } else if c.Ptr? {
        var h1 := if c.p != 0 then ReleaseBody(f, c.target, h).1 else h;
        ReleaseBodyFrees(f, c.target, h, p);
        FreeLive(h1, c.p, p);
      }
    } else if f.htype.Repeated? {
      if c.Arr? {
        var n := Reached(c, Counted);
        var (items, h1) := ReleaseItems(f, c.items[..n], h);
        ReleaseItemsFrees(f, c.items[..n], h, p);
        assert (items + c.items[n..])[..n] == items;
      }
    } else if f.htype.FixedCount? {
      if c.Fixed? {
        ReleaseItemsFrees(f, c.items, h, p);
      }
    } else {
      ReleaseBodyFrees(f, c, h, p);
    }
  }

  lemma {:induction false} ReleaseCellFrees(f: Field, c: Cell, h: Heap, p: nat)
    requires SoundField(f)
    ensures var (c1, h1) := ReleaseCell(f, c, h);
      Live(h1, p) == Live(h, p) - CellOwns(f, c, Counted, p) && CellOwns(f, c1, Counted, p) == 0
    decreases f, 4
  {
    hide Live, SoundField, ReleaseData, DataOwns;
    if !f.htype.Oneof? {
      ReleaseDataFrees(f, c, h, p);
    } else if c.Choice? && c.which == f.tag {
      ReleaseDataFrees(f, c.data, h, p);
    }
  }

  lemma {:induction false} ReleaseFieldFrees(f: Field, mem: Mem, h: Heap, p: nat)
    requires SoundField(f)
    ensures var (m1, h1) := ReleaseField(f, mem, h);
      Live(h1, p) == Live(h, p) - FieldOwns(f, mem, Counted, p) && FieldOwns(f, m1, Counted, p) == 0
    decreases f, 5
  {
    hide Live, SoundField, ReleaseCell, CellOwns;
    if f.slot in mem {
      ReleaseCellFrees(f, mem[f.slot], h, p);
    }
  }

  lemma {:induction false} ReleaseFrees(fields: seq<Field>, mem: Mem, h: Heap, p: nat)
    requires Sound(fields)
    ensures var (m1, h1) := Release(fields, mem, h);
      Live(h1, p) == Live(h, p) - Owns(fields, mem, Counted, p) && Owns(fields, m1, Counted, p) == 0
    decreases fields
  {
    hide Live, Sound, SoundField, ReleaseField, FieldOwns;
    if |fields| > 0 {
      SoundTail(fields);
      var f := fields[0];
      var (m1, h1) := ReleaseField(f, mem, h);
      ReleaseFieldFrees(f, mem, h, p);
      OthersKept(fields[1..], f, mem, h, Counted, p);
      ReleaseFrees(fields[1..], m1, h1, p);
      ReleaseKeeps(f, fields[1..], m1, h1, Counted, p);
    }
  }

  /** Releasing one member of a union touches no other field: the others hold nothing there. */
  lemma ReleaseOther(g: Field, f: Field, mem: Mem, h: Heap, r: Reach, p: nat)
    requires g.tag != f.tag && (g.slot == f.slot ==> f.htype.Oneof? && g.htype.Oneof?)
    ensures FieldOwns(g, ReleaseField(f, mem, h).0, r, p) == FieldOwns(g, mem, r, p)
  {
    hide DataOwns, ReleaseData;
  }

  lemma {:induction false} OthersKept(fields: seq<Field>, f: Field, mem: Mem, h: Heap, r: Reach, p: nat)
    requires Apart(f, fields)
    ensures Owns(fields, ReleaseField(f, mem, h).0, r, p) == Owns(fields, mem, r, p)
    decreases |fields|
  {
    hide FieldOwns, ReleaseField;
    if |fields| > 0 {
      ReleaseOther(fields[0], f, mem, h, r, p);
      OthersKept(fields[1..], f, mem, h, r, p);
    }
  }

  lemma {:induction false} ReleaseKeeps(f: Field, fields: seq<Field>, mem: Mem, h: Heap, r: Reach, p: nat)
    requires Apart(f, fields)
    ensures FieldOwns(f, Release(fields, mem, h).0, r, p) == FieldOwns(f, mem, r, p)
    decreases |fields|
  {
    hide FieldOwns, ReleaseField;
    if |fields| > 0 {
      var (m1, h1) := ReleaseField(fields[0], mem, h);
      ReleaseOther(f, fields[0], mem, h, r, p);
      ReleaseKeeps(f, fields[1..], m1, h1, r, p);
    }
  }

  // ---------------------------------------------------------------- a release with nothing to free

  lemma {:induction false} ReleaseBodyNothing(f: Field, c: Cell, h: Heap)
    requires SoundField(f) && forall p: nat :: BodyOwns(f, c, Counted, p) == 0
    ensures ReleaseBody(f, c, h).1 == h
    decreases f, 0
  {
    if f.ltype.LSubmessage? && c.Sub? {
      forall p: nat
        ensures Owns(f.ltype.ptr, c.mem, Counted, p) == 0
      {
        assert BodyOwns(f, c, Counted, p) == 0;
      }
      ReleaseNothing(f.ltype.ptr, c.mem, h);
    }
  }

  lemma {:induction false} ReleaseItemsNothing(f: Field, items: seq<Cell>, h: Heap)
    requires SoundField(f) && forall p: nat :: ItemsOwn(f, items, Counted, p) == 0
    ensures ReleaseItems(f, items, h).1 == h
    decreases f, 1, |items|
  {
    hide SoundField, BodyOwns, ReleaseBody;
    if |items| > 0 {
      forall p: nat
        ensures ItemOwns(f, items[0], Counted, p) == 0 && ItemsOwn(f, items[1..], Counted, p) == 0
      {
        assert ItemsOwn(f, items, Counted, p) == 0;
      }
      ReleaseItemNothing(f, items[0], h);
      ReleaseItemsNothing(f, items[1..], h);
    }
  }

  lemma {:induction false} ReleaseItemNothing(f: Field, c: Cell, h: Heap)
    requires SoundField(f) && forall p: nat :: ItemOwns(f, c, Counted, p) == 0
    ensures ReleaseItem(f, c, h).1 == h
    decreases f, 1, 0, 0
  {
    hide SoundField, BodyOwns, ReleaseBody;
    if f.layout.pointer && Blob(f.ltype) {
      if c.Ptr? {
        assert ItemOwns(f, c, Counted, c.p) == 0;
      }
    } else {
      forall p: nat
        ensures BodyOwns(f, c, Counted, p) == 0
      {
        assert ItemOwns(f, c, Counted, p) == 0;
      }
      ReleaseBodyNothing(f, c, h);
    }
  }

  lemma {:induction false} ReleaseDataNothing(f: Field, c: Cell, h: Heap)
    requires SoundField(f) && forall p: nat :: DataOwns(f, c, Counted, p) == 0
    ensures ReleaseData(f, c, h).1 == h
    decreases f, 2
  {
    hide SoundField, BodyOwns, ReleaseBody, ItemsOwn, ReleaseItems;
    if f.layout.pointer {
      if (f.htype.Repeated? && c.Vec?) || (!f.htype.Repeated? && c.Ptr?) {
        assert DataOwns(f, c, Counted, c.p) == 0;
      }
    } else if f.htype.Repeated? || f.htype.FixedCount? {
      if c.Arr? && f.htype.Repeated? {
        forall p: nat
          ensures ItemsOwn(f, c.items[..Reached(c, Counted)], Counted, p) == 0
        {
          assert DataOwns(f, c, Counted, p) == 0;
        }
        ReleaseItemsNothing(f, c.items[..Reached(c, Counted)], h);
      } else if c.Fixed? && f.htype.FixedCount? {
        forall p: nat
          ensures ItemsOwn(f, c.items, Counted, p) == 0
        {
          assert DataOwns(f, c, Counted, p) == 0;
        }
        ReleaseItemsNothing(f, c.items, h);
      }
    } else {
      forall p: nat
        ensures BodyOwns(f, c, Counted, p) == 0
      {
        assert DataOwns(f, c, Counted, p) == 0;
      }
      ReleaseBodyNothing(f, c, h);
    }
  }

  lemma {:induction false} ReleaseFieldNothing(f: Field, mem: Mem, h: Heap)
    requires SoundField(f) && forall p: nat :: FieldOwns(f, mem, Counted, p) == 0
    ensures ReleaseField(f, mem, h).1 == h
    decreases f, 3
  {
    hide SoundField, DataOwns, ReleaseData;
    if f.slot in mem {
      var c := mem[f.slot];
      var d := if f.htype.Oneof? && c.Choice? then c.data else c;
      if !f.htype.Oneof? || (c.Choice? && c.which == f.tag) {
        forall p: nat
          ensures DataOwns(f, d, Counted, p) == 0
        {
          assert FieldOwns(f, mem, Counted, p) == 0;
          assert CellOwns(f, c, Counted, p) == 0;
        }
        ReleaseDataNothing(f, d, h);
      }
    }
  }

  /** pb_release on a struct that holds no block frees nothing. */
  lemma {:induction false} ReleaseNothing(fields: seq<Field>, mem: Mem, h: Heap)
    requires Sound(fields) && forall p: nat :: Owns(fields, mem, Counted, p) == 0
    ensures Release(fields, mem, h).1 == h
    decreases fields
  {
    hide Sound, SoundField, FieldOwns, ReleaseField;
    if |fields| > 0 {
      SoundTail(fields);
      var m1 := ReleaseField(fields[0], mem, h).0;
      forall p: nat
        ensures FieldOwns(fields[0], mem, Counted, p) == 0 && Owns(fields[1..], m1, Counted, p) == 0
      {
        assert Owns(fields, mem, Counted, p) == 0;
        OthersKept(fields[1..], fields[0], mem, h, Counted, p);
      }
      ReleaseFieldNothing(fields[0], mem, h);
      ReleaseNothing(fields[1..], m1, h);
    }
  }
}
