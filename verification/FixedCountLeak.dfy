/**
  Runs and steps that lose blocks: a fixed-count item decoded twice, an array longer than its
  count can say, a count written over a pointer; and a block found again beyond a count.
 */
module FixedCountLeak {
  import opened Bytes
  import opened Varint
  import opened Wire
  import opened Message
  import opened DecodeSpec
  import opened Ownership
  import opened ReleaseBlocks

  function Flat(tag: nat, ltype: LType, htype: HType, slot: nat, pointer: bool, arraySize: nat): Field {
    Field(tag, ltype, htype, slot, 8, arraySize, None, Layout(0, 0, pointer))
  }

  /** An optional string by pointer. */
  function LeakyItem(): seq<Field> {
    [Flat(1, LString, Optional, 0, true, 1)]
  }

  function Item(p: nat): Mem {
    map[0 := Ptr(p, Raw)]
  }

  const BOOK := State(map[], {}, None)

  /** Where a step ends, apart from the storage that it gave up. */
  predicate Ends<T(==)>(o: Out<T>, rest: Option<seq<byte>>, val: T, heap: Heap) {
    o.rest == rest && o.val == val && o.heap == heap
  }

  lemma LoopEnds(fields: seq<Field>, book: State, mem: Mem, h: Heap)
    ensures Ends(Loop(fields, [], book, mem, h), if Finished(fields, book) then Some([]) else None, mem, h)
  {
    hide Finished;
  }

  lemma LoopTakes(fields: seq<Field>, f: Field, wt: nat, after: seq<byte>, book: State, entered: State, mem: Mem, h: Heap)
    requires wt < 8 && 1 <= f.tag < 16 && Find(fields, f.tag) == Some(f) && Enter(f, book) == Some(entered)
    ensures var o := DecodeField(fields, f, wt, after, entered, mem, h);
      var l := Loop(fields, [f.tag * 8 + wt] + after, book, mem, h);
      if o.rest.None? then Ends(l, None, o.val.0, o.heap)
      else
        var next := Loop(fields, o.rest.value, o.val.1, o.val.0, o.heap);
        Ends(l, next.rest, next.val, next.heap)
  {
    hide Finished, Enter, Find, DecTag, DecodeField;
    KeyRead(f.tag, wt, after);
  }

  // ---------------------------------------------------------------- one item with a string

  /** The item's string takes the next block. */
  lemma LeakyItemDecodes(k: nat)
    ensures Ends(MergeStruct(LeakyItem(), [10, 0], Item(0), Heap(k, [], [])), Some([]), Item(k + 1), Heap(k + 1, [], []))
  {
    hide Loop, DecTag, DecVarint32;
    var f := LeakyItem()[0];
    ByteRead(0, []);
    assert [0] + [] == [0];
    var h, h1 := Heap(k, [], []), Heap(k + 1, [], []);
    assert Allocate(h, 0, 1, 1) == (k + 1, h1);
    assert DecodeBlob(f, [0], 0, h) == Out(Some([]), k + 1, h1, []);
    var mem, mem1 := Item(0), Item(k + 1);
    assert mem[0 := Ptr(k + 1, Raw)] == mem1;
    assert DecodeField(LeakyItem(), f, 2, [0], BOOK, mem, h) == Out(Some([]), (mem1, BOOK), h1, []);
    LoopTakes(LeakyItem(), f, 2, [0], BOOK, BOOK, mem, h);
    assert [10] + [0] == [10, 0];
    LoopEnds(LeakyItem(), BOOK, mem1, h1);
  }

  lemma LeakyItemDefaults(p: nat)
    ensures SetDefaults(LeakyItem(), Item(p)) == Item(0)
  {
    assert Item(p)[0 := Ptr(0, Raw)] == Item(0);
  }

  lemma LeakyFirst(f: Field, rest: seq<byte>, k: nat)
    requires f.ltype == LSubmessage(LeakyItem()) && (f.htype.Repeated? || f.htype.FixedCount?)
    ensures Ends(DecodeBody(f, [2, 10, 0] + rest, Sub(Item(0)), Heap(k, [], [])), Some(rest), Sub(Item(k + 1)), Heap(k + 1, [], []))
  {
    hide MergeStruct, DecVarint32, SetDefaults;
    assert EncString([10, 0]) + rest == [2, 10, 0] + rest by {
      assert EncVarint(2) == [2];
    }
    StringRoundTrip([10, 0], rest);
    LeakyItemDefaults(0);
    LeakyItemDecodes(k);
  }

  // ---------------------------------------------------------------- a fixed-count item decoded twice

  /** Two fixed-count arrays of one item, the first of which holds a pointer. */
  function Leaky(): seq<Field> {
    [Flat(1, LSubmessage(LeakyItem()), FixedCount, 0, false, 1), Flat(2, LBool, FixedCount, 1, false, 1)]
  }

  /** Both arrays filled, then the first one again. */
  function LeakyBytes(): seq<byte> {
    [10, 2, 10, 0] + [16, 0] + [10, 0]
  }

  function Memory(p: nat): Mem {
    map[0 := Fixed([Sub(Item(p))]), 1 := Fixed([Raw])]
  }

  lemma LeakyBlank()
    ensures SetDefaults(Leaky(), Blank(Leaky())) == Memory(0)
  {
    var f := Leaky()[0];
    assert BlankItem(f) == Sub(Item(0));
    assert seq(1, _ => BlankItem(f)) == [Sub(Item(0))];
    assert seq(1, _ => BlankItem(Leaky()[1])) == [Raw];
    assert Leaky()[1..] == [Leaky()[1]];
    assert Blank(Leaky()[1..]) == map[1 := Fixed([Raw])];
    assert Blank(Leaky()) == Memory(0);
    assert Item(0)[0 := Ptr(0, Raw)] == Item(0);
    assert OverlayBody(f, Sub(Item(0))) == Sub(Item(0));
    assert [Sub(Item(0))][0 := Sub(Item(0))] == [Sub(Item(0))];
    assert [Raw][0 := Raw] == [Raw];
    assert Memory(0)[0 := Memory(0)[0]] == Memory(0);
    assert Memory(0)[1 := Memory(0)[1]] == Memory(0);
  }

  lemma LeakyAgain(h: Heap)
    ensures Ends(DecodeBody(Leaky()[0], [0], Sub(Item(1)), h), Some([]), Sub(Item(0)), h)
  {
    hide DecVarint32, SetDefaults;
    assert EncString([]) + [] == [0] by {
      assert EncVarint(0) == [0];
    }
    StringRoundTrip([], []);
    LeakyItemDefaults(1);
    LoopEnds(LeakyItem(), BOOK, Item(0), h);
  }

  function Filling(tag: nat, size: nat): State {
    State(map[], {}, Some(Progress(tag, size, 1)))
  }

  lemma LeakyStep(k: nat, wt: nat, after: seq<byte>, rest: seq<byte>, mem: Mem, h: Heap, c1: Cell, h1: Heap)
    requires k < 2 && (k == 0 ==> wt == 2) && (k == 1 ==> wt == 0) && k in mem && mem[k].Fixed? && |mem[k].items| == 1
    requires Ends(DecodeBody(Leaky()[k], after, mem[k].items[0], h), Some(rest), c1, h1)
    ensures Ends(DecodeField(Leaky(), Leaky()[k], wt, after, Filling(k + 1, 0), mem, h), Some(rest), (mem[k := Fixed([c1])], Filling(k + 1, 1)), h1)
  {
    hide DecodeBody;
    assert mem[k].items[0 := c1] == [c1];
  }

  /**
    A record refills an item here: decoding succeeds and its struct holds nothing, but block 1 was
    obtained and is never freed.
   */
  lemma FixedCountLeaks()
    ensures var h := Heap(0, [], []);
      var o := DecodeStruct(Leaky(), LeakyBytes(), Blank(Leaky()), h);
      && Sound(Leaky()) && o.rest == Some([]) && o.val == Memory(0)
      && o.heap == Heap(1, [], []) && Release(Leaky(), o.val, o.heap).1 == o.heap
  {
    hide DecodeBody, DecodeField, Loop, SetDefaults, Blank, Release, Find, DecTag, DecVarint32, Pointers, Cuts;
    var a, b := Leaky()[0], Leaky()[1];
    var h, h1 := Heap(0, [], []), Heap(1, [], []);
    var rest2: seq<byte> := [10, 0];
    var rest1: seq<byte> := [16] + ([0] + rest2);
    LeakyBlank();
    LeakyFinds();
    LeakyFirst(a, rest1, 0);
    LeakyStep(0, 2, [2, 10, 0] + rest1, rest1, Memory(0), h, Sub(Item(1)), h1);
    LoopTakes(Leaky(), a, 2, [2, 10, 0] + rest1, BOOK, Filling(1, 0), Memory(0), h);
    assert LeakyBytes() == [10] + ([2, 10, 0] + rest1);
    assert Memory(0)[0 := Fixed([Sub(Item(1))])] == Memory(1);
    LeakySkims(rest2, h1);
    LeakyStep(1, 0, [0] + rest2, rest2, Memory(1), h1, Raw, h1);
    LoopTakes(Leaky(), b, 0, [0] + rest2, Filling(1, 1), Filling(2, 0), Memory(1), h1);
    assert Memory(1)[1 := Fixed([Raw])] == Memory(1);
    LeakyAgain(h1);
    LeakyStep(0, 2, [0], [], Memory(1), h1, Sub(Item(0)), h1);
    LoopTakes(Leaky(), a, 2, [0], Filling(2, 1), Filling(1, 0), Memory(1), h1);
    assert rest2 == [10] + [0];
    assert Memory(1)[0 := Fixed([Sub(Item(0))])] == Memory(0);
    LoopEnds(Leaky(), Filling(1, 1), Memory(0), h1);
    LeakyIsEmpty(h1);
  }

  lemma LeakyFinds()
    ensures Find(Leaky(), 1) == Some(Leaky()[0]) && Find(Leaky(), 2) == Some(Leaky()[1])
    ensures Sound(Leaky())
  {
    assert Leaky()[1..][0] == Leaky()[1];
    assert SoundField(LeakyItem()[0]);
  }

  lemma LeakySkims(rest: seq<byte>, h: Heap)
    ensures Ends(DecodeBody(Leaky()[1], [0] + rest, Raw, h), Some(rest), Raw, h)
  {
    ByteRead(0, rest);
  }

  lemma LeakyIsEmpty(h: Heap)
    ensures Release(Leaky(), Memory(0), h).1 == h
  {
    hide Sound;
    LeakyFinds();
    forall p: nat
      ensures Owns(Leaky(), Memory(0), Counted, p) == 0
    {
      var a, b := Leaky()[0], Leaky()[1];
      assert Leaky()[1..] == [b];
      assert Owns(LeakyItem(), Item(0), Counted, p) == 0;
      assert ItemsOwn(a, [Sub(Item(0))], Counted, p) == ItemOwns(a, Sub(Item(0)), Counted, p) + ItemsOwn(a, [], Counted, p);
      assert ItemsOwn(b, [Raw], Counted, p) == ItemOwns(b, Raw, Counted, p) + ItemsOwn(b, [], Counted, p);
    }
    ReleaseNothing(Leaky(), Memory(0), h);
  }

  // ---------------------------------------------------------------- an array as long as its count can say

  /** An embedded array of PB_SIZE_MAX items with a string each. */
  function Long(): seq<Field> {
    [Flat(1, LSubmessage(LeakyItem()), Repeated, 0, false, PB_SIZE_MAX)]
  }

  function LongBytes(n: nat): seq<byte> {
    if n == 0 then [] else [10] + ([2, 10, 0] + LongBytes(n - 1))
  }

  function LongItems(k: nat): seq<Cell> {
    seq(k, i requires 0 <= i < k => Sub(Item(i + 1)))
  }

  function LongMemory(count: nat, k: nat): Mem {
    map[0 := Arr(count, LongItems(k))]
  }

  lemma LongArray(k: nat, rest: seq<byte>)
    requires k <= PB_SIZE_MAX
    ensures var o := DecodeArray(Long()[0], 2, [2, 10, 0] + rest, Arr(k, LongItems(k)), Heap(k, [], []));
      if k < PB_SIZE_MAX then Ends(o, Some(rest), Arr(k + 1, LongItems(k + 1)), Heap(k + 1, [], []))
      else Ends(o, None, Arr(0, LongItems(k)), Heap(k, [], []))
  {
    hide DecodeBody;
    var f := Long()[0];
    assert BlankBody(f) == Sub(Item(0));
    if k < PB_SIZE_MAX {
      LeakyFirst(f, rest, k);
      assert LongItems(k) + [Sub(Item(k + 1))] == LongItems(k + 1);
    }
  }

  lemma LongStep(k: nat, rest: seq<byte>)
    requires k <= PB_SIZE_MAX
    ensures var o := DecodeField(Long(), Long()[0], 2, [2, 10, 0] + rest, BOOK, LongMemory(k, k), Heap(k, [], []));
      if k < PB_SIZE_MAX then Ends(o, Some(rest), (LongMemory(k + 1, k + 1), BOOK), Heap(k + 1, [], []))
      else Ends(o, None, (LongMemory(0, k), BOOK), Heap(k, [], []))
  {
    hide DecodeArray, LongItems;
    LongArray(k, rest);
    var f, mem, h, bs := Long()[0], LongMemory(k, k), Heap(k, [], []), [2, 10, 0] + rest;
    var o := DecodeArray(f, 2, bs, Arr(k, LongItems(k)), h);
    assert DecodeData(f, 2, bs, mem[0], h) == o;
    assert mem[0 := Arr(k + 1, LongItems(k + 1))] == LongMemory(k + 1, k + 1);
    assert mem[0 := Arr(0, LongItems(k))] == LongMemory(0, k);
  }

  lemma {:induction false} LongLoop(k: nat)
    requires k <= PB_SIZE_MAX
    ensures Ends(Loop(Long(), LongBytes(PB_SIZE_MAX + 1 - k), BOOK, LongMemory(k, k), Heap(k, [], [])),
      None, LongMemory(0, PB_SIZE_MAX), Heap(PB_SIZE_MAX, [], []))
    decreases PB_SIZE_MAX - k
  {
    hide DecodeField, Loop;
    var f := Long()[0];
    var rest := LongBytes(PB_SIZE_MAX - k);
    LongStep(k, rest);
    assert LongBytes(PB_SIZE_MAX + 1 - k) == [10] + ([2, 10, 0] + rest);
    LoopTakes(Long(), f, 2, [2, 10, 0] + rest, BOOK, BOOK, LongMemory(k, k), Heap(k, [], []));
    if k < PB_SIZE_MAX {
      LongLoop(k + 1);
    }
  }

  /**
    One record too many for a full array of PB_SIZE_MAX items is refused, but its count has become
    zero: pb_release frees none of the PB_SIZE_MAX blocks, within pb_decode and afterwards.
   */
  lemma LongArrayLeaks()
    ensures var o := DecodeStruct(Long(), LongBytes(PB_SIZE_MAX + 1), Blank(Long()), Heap(0, [], []));
      && Sound(Long()) && o.rest == None && o.heap == Heap(PB_SIZE_MAX, [], [])
      && Release(Long(), o.val, o.heap).1 == o.heap
  {
    hide Loop, Pointers, Cuts, LongItems;
    assert Sound(Long()) by {
      assert SoundField(LeakyItem()[0]);
    }
    hide Sound;
    EmptyItems();
    assert Long()[1..] == [];
    assert Blank(Long()) == LongMemory(0, 0);
    assert LongMemory(0, 0)[0 := Arr(0, LongItems(0))] == LongMemory(0, 0);
    assert SetDefaults(Long(), LongMemory(0, 0)) == LongMemory(0, 0);
    LongLoop(0);
    LongReleased(Heap(PB_SIZE_MAX, [], []));
  }

  lemma EmptyItems()
    ensures LongItems(0) == []
  {
  }

  lemma LongReleased(h: Heap)
    ensures Release(Long(), LongMemory(0, PB_SIZE_MAX), h) == (LongMemory(0, PB_SIZE_MAX), h)
  {
    hide LongItems;
    var f, mem := Long()[0], LongMemory(0, PB_SIZE_MAX);
    var items := LongItems(PB_SIZE_MAX);
    assert items[..0] == [] && items[0..] == items && [] + items == items;
    assert ReleaseItems(f, [], h) == ([], h);
    assert ReleaseData(f, mem[0], h) == (mem[0], h);
    assert ReleaseCell(f, mem[0], h) == (mem[0], h);
    assert mem[0 := mem[0]] == mem;
    assert Long()[1..] == [];
  }

  // ---------------------------------------------------------------- fixed-count arrays within an item

  /** An item that starts with a fixed-count array of strings by pointer. */
  function Nested(n: nat): seq<Field> {
    [Flat(1, LSubmessage(LeakyItem()), FixedCount, 0, false, n)]
  }

  function NestedMemory(items: seq<Cell>): Mem {
    map[0 := Fixed(items)]
  }

  /**
    Setting the defaults of such an item writes a zero count over its first pointer. Unless the
    address has zeros there anyway the block is lost, and the pointer is cut if the address has
    anything else.
   */
  lemma CountOverlaysPointer(p: nat)
    requires p != 0
    ensures var mem := NestedMemory([Sub(Item(p))]);
      && SetDefaults(Nested(1), mem) == (if p in INTACT then mem else NestedMemory([Sub(Item(0))]))
      && (Cuts(Nested(1), mem) <==> p !in INTACT && p !in CLEARED)
  {
    var f, mem := Nested(1)[0], NestedMemory([Sub(Item(p))]);
    var g := LeakyItem()[0];
    var q := if p in INTACT then p else 0;
    assert Item(p)[0 := Ptr(q, Raw)] == Item(q);
    assert Overlay(LeakyItem(), Item(p)) == Item(q);
    assert OverlayBody(f, Sub(Item(p))) == Sub(Item(q));
    assert [Sub(Item(p))][0 := Sub(Item(q))] == [Sub(Item(q))];
    assert mem[0 := Fixed([Sub(Item(q))])] == NestedMemory([Sub(Item(q))]);
    assert Nested(1)[1..] == [];
    assert CutsCell(g, Item(p)[0]) <==> p !in INTACT && p !in CLEARED;
    assert CutsBody(f, Sub(Item(p))) <==> CutsCell(g, Item(p)[0]);
  }

  /**
    The other way round, a record finds a block again: the second string of an item beyond the
    count of an array is not initialised when the count comes to cover that item.
   */
  lemma StoredBlockIsFound(p: nat, h: Heap)
    requires p != 0
    ensures var f := Flat(1, LSubmessage(Nested(2)), Repeated, 0, false, 1);
      var item := Sub(NestedMemory([Sub(Item(0)), Sub(Item(p))]));
      && DataOwns(f, Arr(0, [item]), Counted, p) == 0
      && Ends(DecodeArray(f, 2, [0], Arr(0, [item]), h), Some([]), Arr(1, [item]), h)
      && DataOwns(f, Arr(1, [item]), Counted, p) == 1
  {
    hide DecVarint32, Pointers, Cuts;
    var f := Flat(1, LSubmessage(Nested(2)), Repeated, 0, false, 1);
    var items := [Sub(Item(0)), Sub(Item(p))];
    var mem := NestedMemory(items);
    assert EncString([]) + [] == [0] by {
      assert EncVarint(0) == [0];
    }
    StringRoundTrip([], []);
    NestedDefaults(items);
    LoopEnds(Nested(2), BOOK, mem, h);
    assert [Sub(mem)][0 := Sub(mem)] == [Sub(mem)];
    assert Ends(DecodeBody(f, [0], Sub(mem), h), Some([]), Sub(mem), h);
    NestedOwns(f, p);
  }

  lemma NestedDefaults(items: seq<Cell>)
    requires |items| == 2 && items[0] == Sub(Item(0))
    ensures SetDefaults(Nested(2), NestedMemory(items)) == NestedMemory(items)
  {
    var f, mem := Nested(2)[0], NestedMemory(items);
    assert Item(0)[0 := Ptr(0, Raw)] == Item(0);
    assert OverlayBody(f, items[0]) == items[0];
    assert items[0 := items[0]] == items;
    assert mem[0 := mem[0]] == mem;
    assert Nested(2)[1..] == [];
  }

  lemma NestedOwns(f: Field, p: nat)
    requires f == Flat(1, LSubmessage(Nested(2)), Repeated, 0, false, 1) && p != 0
    ensures var item := Sub(NestedMemory([Sub(Item(0)), Sub(Item(p))]));
      DataOwns(f, Arr(0, [item]), Counted, p) == 0 && DataOwns(f, Arr(1, [item]), Counted, p) == 1
  {
    var g := Nested(2)[0];
    var items := [Sub(Item(0)), Sub(Item(p))];
    var item := Sub(NestedMemory(items));
    assert Owns(LeakyItem(), Item(0), Counted, p) == 0 && Owns(LeakyItem(), Item(p), Counted, p) == 1;
    assert ItemsOwn(g, items, Counted, p) == ItemOwns(g, items[0], Counted, p) + ItemsOwn(g, [items[1]], Counted, p) by {
      assert items[1..] == [items[1]];
    }
    assert ItemsOwn(g, [items[1]], Counted, p) == ItemOwns(g, items[1], Counted, p) + ItemsOwn(g, [], Counted, p);
    assert Owns(Nested(2), NestedMemory(items), Counted, p) == 1 by {
      assert Nested(2)[1..] == [];
      assert CellOwns(g, Fixed(items), Counted, p) == DataOwns(g, Fixed(items), Counted, p) == 1;
    }
    assert ItemsOwn(f, [item], Counted, p) == ItemOwns(f, item, Counted, p) + ItemsOwn(f, [], Counted, p);
    assert [item][..0] == [] && [item][..1] == [item];
  }
}
