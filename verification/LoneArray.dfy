/**
  A struct with a single fixed-count array: each of its items is decoded into once.
 */
module LoneArray {
  import opened Bytes
  import opened Wire
  import opened Message
  import opened DecodeSpec
  import opened Ownership
  import opened ReleaseBlocks
  import opened StoredBlocks
  import opened DefaultBlocks
  import opened DecodeBlocks
  import opened BlockBalance
  import opened SafeBlocks

  /** `f` is the only fixed-count array of the struct, and no other lies within a fixed-count item. */
  predicate Lone(fields: seq<Field>, f: Field) {
    && f in fields && f.htype.FixedCount? && SafeType(f)
    && forall g :: g in fields && g != f ==> !g.htype.FixedCount? && SafeField(g)
  }

  /** The items of `f` up to the current one are without a remainder, the others still zero. */
  predicate Filling(f: Field, book: State, mem: Mem) {
    && (book.fixed.Some? ==> book.fixed.value.tag == f.tag)
    && (f.slot in mem && mem[f.slot].Fixed? ==>
         forall i :: 0 <= i < |mem[f.slot].items| ==>
           && SnugBody(f, mem[f.slot].items[i])
           && ((if book.fixed.Some? then book.fixed.value.size else 0) <= i ==> mem[f.slot].items[i] == BlankBody(f)))
  }

  predicate OthersSnug(fields: seq<Field>, f: Field, mem: Mem) {
    forall i :: 0 <= i < |fields| && fields[i] != f ==> SnugField(fields, fields[i], mem)
  }

  lemma FixedOwns(f: Field, c: Cell, r: Reach, p: nat)
    requires f.htype.FixedCount? && !f.layout.pointer && c.Fixed?
    ensures CellOwns(f, c, r, p) == ItemsOwn(f, c.items, r, p)
  {
    hide ItemOwns, BodyOwns;
    assert CellOwns(f, c, r, p) == DataOwns(f, c, r, p);
  }

  lemma FillingEven(f: Field, book: State, mem: Mem, p: nat)
    requires SoundField(f) && SafeType(f) && f.htype.FixedCount? && Filling(f, book, mem) && f.slot in mem
    ensures CellOwns(f, mem[f.slot], Stored, p) == CellOwns(f, mem[f.slot], Counted, p)
  {
    hide SoundField, SafeType, SnugBody, BlankBody, ItemsOwn, BodyOwns;
    FixedIsFlat(f);
    var c := mem[f.slot];
    if c.Fixed? {
      SnugItemsEven(f, c.items, p);
      FixedOwns(f, c, Stored, p);
      FixedOwns(f, c, Counted, p);
    } else {
      assert CellOwns(f, c, Stored, p) == DataOwns(f, c, Stored, p);
      assert CellOwns(f, c, Counted, p) == DataOwns(f, c, Counted, p);
    }
  }

  lemma LoneEven(fields: seq<Field>, f: Field, book: State, mem: Mem, p: nat)
    requires Sound(fields) && Lone(fields, f) && Filling(f, book, mem) && OthersSnug(fields, f, mem)
    ensures Owns(fields, mem, Stored, p) == Owns(fields, mem, Counted, p)
  {
    hide Sound, SoundField, SafeType, SafeField, Filling, CellOwns, SnugField, Owns;
    forall i | 0 <= i < |fields| && fields[i].slot in mem
      ensures CellOwns(fields[i], mem[fields[i].slot], Stored, p) == CellOwns(fields[i], mem[fields[i].slot], Counted, p)
    {
      SoundMember(fields, fields[i]);
      if fields[i] == f {
        FillingEven(f, book, mem, p);
      } else {
        SnugFieldEven(fields, fields[i], mem, p);
      }
    }
    CellsEven(fields, mem, p);
  }

  lemma {:induction false} LoneItem(fields: seq<Field>, f: Field, wt: nat, bs: seq<byte>, book: State, mem: Mem, h: Heap, p: nat)
    requires Sound(fields) && f in fields && SafeType(f) && f.htype.FixedCount? && Filling(f, book, mem) && book.fixed.Some?
    requires Owns(fields, mem, Stored, p) == Owns(fields, mem, Counted, p)
    ensures var o := DecodeField(fields, f, wt, bs, book, mem, h);
      && Lost(o.drops, p) == 0 && Owns(fields, o.val.0, Stored, p) == Owns(fields, o.val.0, Counted, p)
      && (o.rest.Some? ==> Filling(f, o.val.1, o.val.0) && f.slot in mem && f.slot in o.val.0 && o.val.0 == mem[f.slot := o.val.0[f.slot]])
  {
    hide Sound, SoundField, DecodeBody, DecodePacked, BlankBody, SnugBody, SafeType, Owns, CellOwns, BodyOwns, ItemsOwn, Sole;
    NothingLost(p);
    SoundMember(fields, f);
    FixedIsFlat(f);
    if f.slot in mem && mem[f.slot].Fixed? {
      var c, k := mem[f.slot], book.fixed.value.size;
      assert mem[f.slot := c] == mem;
      if !(Packable(f.ltype) && wt == WT_STRING) && k < f.arraySize && k < |c.items| {
        SafeBody(f, bs, c.items[k], h, p);
        var o := DecodeBody(f, bs, c.items[k], h);
        var d := Fixed(c.items[k := o.val]);
        FillingEven(f, book, mem, p);
        ItemsOwnUpdate(f, c.items, k, o.val, Stored, p);
        ItemsOwnUpdate(f, c.items, k, o.val, Counted, p);
        SnugBodyEven(f, c.items[k], p);
        FixedOwns(f, c, Stored, p);
        FixedOwns(f, c, Counted, p);
        FixedOwns(f, d, Stored, p);
        FixedOwns(f, d, Counted, p);
        forall r
          ensures Sole(fields, f, c, r, p) && Sole(fields, f, d, r, p)
        {
          PlainIsSole(fields, f, c, r, p);
          PlainIsSole(fields, f, d, r, p);
        }
        EvenUpdate(fields, f, mem, d, p);
      }
    }
  }

  lemma LoneSlot(fields: seq<Field>, f: Field, g: Field, mem: Mem)
    requires Sound(fields) && Lone(fields, f) && g in fields && g != f && OthersSnug(fields, f, mem)
    ensures g.slot != f.slot && SafeField(g) && !g.htype.FixedCount? && SnugSlot(fields, g, mem)
  {
    hide SoundField, SafeField, SafeType, SnugField;
  }

  lemma LoneOther(fields: seq<Field>, f: Field, g: Field, wt: nat, bs: seq<byte>, book: State, mem: Mem, h: Heap, p: nat)
    requires Sound(fields) && Lone(fields, f) && !PointerFree(fields) && g in fields && g != f && Filling(f, book, mem) && OthersSnug(fields, f, mem)
    ensures var o := DecodeField(fields, g, wt, bs, book, mem, h);
      && Lost(o.drops, p) == 0 && Owns(fields, o.val.0, Stored, p) == Owns(fields, o.val.0, Counted, p)
      && (o.rest.Some? ==> Filling(f, o.val.1, o.val.0) && OthersSnug(fields, f, o.val.0))
  {
    hide Sound, SoundField, SafeField, SafeType, SnugField, SnugSlot, SnugData, SnugBody, BlankBody, Owns, DecodeField, Lone, OthersSnug, PointerFree;
    LoneEven(fields, f, book, mem, p);
    LoneSlot(fields, f, g, mem);
    SafeOther(fields, g, wt, bs, book, mem, h, p);
    var o := DecodeField(fields, g, wt, bs, book, mem, h);
    if o.rest.Some? {
      OthersUpdate(fields, f, g, mem, o.val.0);
    }
  }

  lemma OthersUpdate(fields: seq<Field>, f: Field, g: Field, mem: Mem, m1: Mem)
    requires Sound(fields) && OthersSnug(fields, f, mem) && g in fields && Changed(g, mem, m1)
    ensures OthersSnug(fields, f, m1)
  {
    hide SoundField, SnugData, Find;
    SoundDistinct(fields);
    FindUnique(fields, g);
    forall i | 0 <= i < |fields| && fields[i] != f
      ensures SnugField(fields, fields[i], m1)
    {
      assert SnugField(fields, fields[i], mem);
      if fields[i].slot == g.slot && fields[i] != g {
        DistinctMember(fields, g, i);
      }
    }
  }

  lemma FillingOthers(fields: seq<Field>, f: Field, mem: Mem, c: Cell)
    requires Sound(fields) && Lone(fields, f) && OthersSnug(fields, f, mem)
    ensures OthersSnug(fields, f, mem[f.slot := c])
  {
    hide SoundField, SafeField, SafeType, SnugCell, OwnMember;
    forall i | 0 <= i < |fields| && fields[i] != f
      ensures SnugField(fields, fields[i], mem[f.slot := c])
    {
      assert SnugField(fields, fields[i], mem);
      LoneSlot(fields, f, fields[i], mem);
    }
  }

  lemma LoneStep(fields: seq<Field>, f: Field, g: Field, wt: nat, bs: seq<byte>, book: State, mem: Mem, h: Heap, p: nat)
    requires Sound(fields) && Lone(fields, f) && !PointerFree(fields) && g in fields && Filling(f, book, mem) && OthersSnug(fields, f, mem)
    requires Enter(g, book).Some?
    ensures var o := DecodeField(fields, g, wt, bs, Enter(g, book).value, mem, h);
      && Lost(o.drops, p) == 0 && Owns(fields, o.val.0, Stored, p) == Owns(fields, o.val.0, Counted, p)
      && (o.rest.Some? ==> Filling(f, o.val.1, o.val.0) && OthersSnug(fields, f, o.val.0))
  {
    hide Sound, SoundField, SafeField, SafeType, DecodeField, SnugBody, BlankBody, OthersSnug, Owns, PointerFree;
    if g == f {
      LoneEven(fields, f, book, mem, p);
      LoneItem(fields, f, wt, bs, Enter(f, book).value, mem, h, p);
      var o := DecodeField(fields, g, wt, bs, Enter(g, book).value, mem, h);
      if o.rest.Some? {
        FillingOthers(fields, f, mem, o.val.0[f.slot]);
      }
    } else {
      LoneOther(fields, f, g, wt, bs, Enter(g, book).value, mem, h, p);
    }
  }

  lemma {:induction false} LoneLoop(fields: seq<Field>, f: Field, bs: seq<byte>, book: State, mem: Mem, h: Heap, p: nat)
    requires Sound(fields) && Lone(fields, f) && !PointerFree(fields) && Filling(f, book, mem) && OthersSnug(fields, f, mem)
    ensures var o := Loop(fields, bs, book, mem, h);
      Lost(o.drops, p) == 0 && Owns(fields, o.val, Stored, p) == Owns(fields, o.val, Counted, p)
    decreases |bs|
  {
    hide Sound, Lone, Filling, OthersSnug, Owns, DecodeField, Find, Step, DecTag, Finished, Enter, PointerFree;
    NothingLost(p);
    LoneEven(fields, f, book, mem, p);
    match DecTag(bs)
    case BadTag =>
    case End(_) =>
    case Tag(tag, wt, after) =>
      if Find(fields, tag).None? {
        if Step(fields, tag, wt, after, book).Ok? {
          LoneLoop(fields, f, Step(fields, tag, wt, after, book).rest, book, mem, h, p);
        }
      } else {
        var g := Find(fields, tag).value;
        if Enter(g, book).Some? {
          var o := DecodeField(fields, g, wt, after, Enter(g, book).value, mem, h);
          LoneStep(fields, f, g, wt, after, book, mem, h, p);
          if o.rest.Some? {
            LoneLoop(fields, f, o.rest.value, o.val.1, o.val.0, o.heap, p);
            LostConcat(o.drops, Loop(fields, o.rest.value, o.val.1, o.val.0, o.heap).drops, p);
          }
        }
      }
  }

  lemma LoneStart(fields: seq<Field>, f: Field)
    requires Sound(fields) && Lone(fields, f) && !PointerFree(fields)
    ensures Filling(f, State(map[], {}, None), Blank(fields)) && OthersSnug(fields, f, Blank(fields))
  {
    hide SoundField, SafeField, SafeType, SnugField, Blank, BlankBody, SnugBody, PointerFree;
    SnugBlank(fields);
    SoundMember(fields, f);
    FixedIsFlat(f);
    SnugBlankBody(f);
    var i :| 0 <= i < |fields| && fields[i] == f;
    BlankAt(fields, i);
    var c := BlankCell(f);
    assert c.Fixed? && forall k :: 0 <= k < |c.items| ==> c.items[k] == BlankItem(f) == BlankBody(f);
  }

  /** A struct with a single fixed-count array loses no block, whatever pointers its items hold. */
  lemma {:induction false} LoneArrayNeverLoses(fields: seq<Field>, f: Field, bs: seq<byte>, h: Heap)
    requires Sound(fields) && Lone(fields, f)
    ensures var o := DecodeStruct(fields, bs, Blank(fields), h);
      Clean(o.drops) && !Stranded(fields, o.val)
  {
    hide Sound, Lone, Owns, Pointers, DecodeStruct, Release, Blank, Lost, Clean, Fair, Stranded, Live, PointerFree, Safe;
    if PointerFree(fields) {
      FreeIsSafe(fields);
      SafeNeverLoses(fields, bs, h);
    } else {
      var o := DecodeStruct(fields, bs, Blank(fields), h);
      var h1 := Release(fields, o.val, o.heap).1;
      forall p: nat
        ensures Balanced(h, h1, p)
      {
        DecodeThenRelease(fields, bs, h, p);
        LoneStruct(fields, f, bs, h, p);
      }
      BalancesIffClean(fields, bs, h);
    }
  }

  lemma {:induction false} FreeFieldIsSafe(f: Field)
    requires PointerFreeField(f)
    ensures SafeField(f)
    decreases f
  {
    if f.ltype.LSubmessage? {
      FreeIsSafe(f.ltype.ptr);
    }
  }

  lemma {:induction false} FreeIsSafe(fields: seq<Field>)
    requires PointerFree(fields)
    ensures Safe(fields)
    decreases fields
  {
    hide SafeField, PointerFreeField;
    forall i | 0 <= i < |fields|
      ensures SafeField(fields[i])
    {
      FreeFieldIsSafe(fields[i]);
    }
  }

  lemma LoneStruct(fields: seq<Field>, f: Field, bs: seq<byte>, h: Heap, p: nat)
    requires Sound(fields) && Lone(fields, f) && !PointerFree(fields)
    ensures var o := DecodeStruct(fields, bs, Blank(fields), h);
      Lost(o.drops, p) == 0 && Owns(fields, o.val, Stored, p) == Owns(fields, o.val, Counted, p)
  {
    hide Sound, Lone, Owns, Pointers, Loop, Release, PointerFree, SetDefaults, Blank, Cuts, Filling, OthersSnug;
    var mem := Blank(fields);
    var o := MergeStruct(fields, bs, mem, h);
    DefaultsOfBlank(fields);
    LoneStart(fields, f);
    LoneLoop(fields, f, bs, State(map[], {}, None), mem, h, p);
    PointersAre(fields, mem, Stored, p);
    OneLost(Reset(fields, mem), p);
    LostConcat([Reset(fields, mem)], o.drops, p);
    if o.rest.None? {
      var m1 := Release(fields, o.val, o.heap).0;
      var ended := Drop(Pointers(fields, o.val, Stored), Pointers(fields, o.val, Counted), Pointers(fields, m1, Stored), false);
      PointersAre(fields, o.val, Stored, p);
      PointersAre(fields, o.val, Counted, p);
      PointersAre(fields, m1, Stored, p);
      ReleaseLeaves(fields, o.val, o.heap, p);
      ReleaseLeaves(fields, m1, o.heap, p);
      OneLost(ended, p);
      LostConcat([Reset(fields, mem)] + o.drops, [ended], p);
    }
  }
}
