/**
  Heap blocks in the decoder (PB_ENABLE_MALLOC).

  What is modelled here is where a struct keeps pointers, which blocks the decoder obtains
  and which it frees. Control flow depends on the bytes exactly as in `DecodeSpec`; the
  decoded values themselves are dropped. Blocks are named in the order they are obtained,
  so a name is used once; 0 is NULL. Any allocation may be refused.
 */
module Ownership {
  import opened Bytes
  import opened Varint
  import opened Wire
  import opened Message
  import opened DecodeSpec

  // ---------------------------------------------------------------- the allocator

  /** The blocks obtained so far are 1 to `got`; `frees` lists every block passed to free. */
  datatype Heap = Heap(got: nat, frees: seq<nat>, refusals: seq<bool>)

  function Times(s: seq<nat>, p: nat): nat {
    multiset(s)[p]
  }

  /** One for a block that is obtained and not freed, zero before and after; below zero if freed twice. */
  function Live(h: Heap, p: nat): int {
    (if 1 <= p <= h.got then 1 else 0) - Times(h.frees, p)
  }

  /** pb_free. */
  function Free(h: Heap, p: nat): Heap {
    if p == 0 then h else h.(frees := h.frees + [p])
  }

  /** pb_realloc: the new name of the block, or 0 if refused, when the old block stays. */
  function Realloc(h: Heap, p: nat): (r: (nat, Heap)) {
    var refused := |h.refusals| > 0 && h.refusals[0];
    var h1 := h.(refusals := if |h.refusals| > 0 then h.refusals[1..] else []);
    if refused then (0, h1) else (h.got + 1, Free(h1, p).(got := h.got + 1))
  }

  /** A sum of a 32-bit number and a few bytes in size_t. */
  function InSizeT(n: nat): nat {
    if n > SIZE_MAX then n - SIZE_MAX - 1 else n
  }

  /** The overflow check of allocate_field, which divides only when a factor is large. */
  predicate SizeAccepted(dataSize: nat, arraySize: nat) {
    && dataSize != 0 && arraySize != 0
    && (dataSize >= CHECK_LIMIT || arraySize >= CHECK_LIMIT ==> SIZE_MAX / arraySize >= dataSize)
  }

  lemma {:induction false} MulBound(a: nat, b: nat, n: nat)
    requires a < n
    ensures a * b <= (n - 1) * b
    decreases b
  {
    if b > 0 {
      MulBound(a, b - 1, n);
      assert a * b == a * (b - 1) + a && (n - 1) * b == (n - 1) * (b - 1) + (n - 1);
    }
  }

  lemma MulLess(a: nat, b: nat, n: nat)
    requires a < n && b < n
    ensures a * b < n * n
  {
    MulBound(a, b, n);
    MulBound(b, n - 1, n);
    var k := n - 1;
    assert n * n == k * k + 2 * k + 1;
  }

  lemma DivideBound(m: nat, a: nat, d: nat)
    requires a > 0
    ensures m / a >= d <==> d * a <= m
  {
    var q := m / a;
    assert m == q * a + m % a;
    if q >= d {
      assert q * a >= d * a;
    } else {
      assert (q + 1) * a <= d * a;
      assert (q + 1) * a == q * a + a;
    }
  }

  /** The cheap check accepts exactly the non-empty sizes whose product fits in size_t. */
  lemma {:induction false} SizeAcceptedIffFits(dataSize: nat, arraySize: nat)
    requires dataSize <= SIZE_MAX && arraySize <= SIZE_MAX
    ensures SizeAccepted(dataSize, arraySize) <==> dataSize > 0 && arraySize > 0 && dataSize * arraySize <= SIZE_MAX
  {
    if dataSize < CHECK_LIMIT && arraySize < CHECK_LIMIT {
      MulLess(dataSize, arraySize, CHECK_LIMIT);
    } else if arraySize > 0 {
      DivideBound(SIZE_MAX, arraySize, dataSize);
    }
  }

  /** allocate_field: on success the block's new name, otherwise 0. */
  function Allocate(h: Heap, p: nat, dataSize: nat, arraySize: nat): (nat, Heap) {
    if SizeAccepted(dataSize, arraySize) then Realloc(h, p) else (0, h)
  }

  // ---------------------------------------------------------------- structs

  /**
    The storage of a field. `Raw` holds no pointer. An embedded array has the items that were
    started and a count, which an overflow leaves one too high; a fixed-count array has all its
    items. What a NULL pointer leads to is not storage, and is ignored.
   */
  datatype Cell =
    | Raw
    | Sub(mem: Mem)
    | Arr(count: nat, items: seq<Cell>)
    | Fixed(items: seq<Cell>)
    | Ptr(p: nat, target: Cell)
    | Vec(p: nat, items: seq<Cell>)
    | Choice(which: nat, data: Cell)

  type Mem = map<nat, Cell>

  predicate Blob(l: LType) {
    l.LString? || l.LBytes?
  }

  /** What a struct of zeros holds, and what memset and pb_message_set_to_defaults leave. */
  function BlankBody(f: Field): Cell
    decreases f, 0
  {
    if f.ltype.LSubmessage? then Sub(Blank(f.ltype.ptr)) else Raw
  }

  /** An array item: initialize_pointer_field for a new item of a pointer array. */
  function BlankItem(f: Field): Cell
    decreases f, 1
  {
    if f.layout.pointer && Blob(f.ltype) then Ptr(0, Raw) else BlankBody(f)
  }

  function BlankData(f: Field): Cell
    decreases f, 2
  {
    if f.layout.pointer then (if f.htype.Repeated? then Vec(0, []) else Ptr(0, Raw))
    else if f.htype.Repeated? then Arr(0, [])
    else if f.htype.FixedCount? then Fixed(seq(f.arraySize, _ => BlankItem(f)))
    else BlankBody(f)
  }

  function BlankCell(f: Field): Cell
    decreases f, 3
  {
    if f.htype.Oneof? then Choice(0, Raw) else BlankData(f)
  }

  function Blank(fields: seq<Field>): Mem
    decreases fields
  {
    if |fields| == 0 then map[] else Blank(fields[1..])[fields[0].slot := BlankCell(fields[0])]
  }

  /**
    Blocks whose address is zero in the bytes that a pb_size_t at the start of a pointer covers,
    so that writing zero there leaves the pointer as it is.
   */
  const INTACT: set<nat>

  /** Blocks whose address is zero in all other bytes: such a pointer becomes NULL. */
  const CLEARED: set<nat>

  /**
    A zero pb_size_t written over the start of a value. It covers the first field's pointer, count
    or member tag; other fields are aligned, so that none of them is touched.
   */
  function OverlayBody(f: Field, c: Cell): Cell
    decreases f, 0
  {
    if f.ltype.LSubmessage? && c.Sub? then Sub(Overlay(f.ltype.ptr, c.mem)) else c
  }

  function OverlayCell(f: Field, c: Cell): Cell
    decreases f, 1
  {
    if f.htype.Oneof? then Choice(0, Raw)
    else if f.layout.pointer && !f.htype.Repeated? then (if c.Ptr? && c.p !in INTACT then Ptr(0, Raw) else c)
    else if f.layout.pointer then (if c.Vec? then Vec(c.p, []) else c)
    else if f.htype.Repeated? then (if c.Arr? then Arr(0, c.items) else c)
    else if f.htype.FixedCount? then (if c.Fixed? && |c.items| > 0 then Fixed(c.items[0 := OverlayBody(f, c.items[0])]) else c)
    else if f.htype.Optional? then c
    else OverlayBody(f, c)
  }

  function Overlay(fields: seq<Field>, mem: Mem): Mem
    decreases fields
  {
    if |fields| > 0 && fields[0].slot in mem then mem[fields[0].slot := OverlayCell(fields[0], mem[fields[0].slot])] else mem
  }

  /**
    pb_field_set_to_default: pointers become NULL and counts zero. The items of an array stay in
    its storage; a fixed-count array has no count of its own, and the zero goes over its first item.
   */
  function DefaultCell(f: Field, c: Cell): Cell
    decreases f
  {
    if f.htype.Oneof? then Choice(0, Raw)
    else if f.layout.pointer then BlankData(f)
    else if f.htype.Repeated? then Arr(0, if c.Arr? then c.items else [])
    else if f.htype.FixedCount? then (if c.Fixed? && |c.items| > 0 then Fixed(c.items[0 := OverlayBody(f, c.items[0])]) else c)
    else if f.ltype.LSubmessage? && c.Sub? then Sub(SetDefaults(f.ltype.ptr, c.mem))
    else c
  }

  /** pb_message_set_to_defaults. */
  function SetDefaults(fields: seq<Field>, mem: Mem): Mem
    decreases fields
  {
    if |fields| == 0 then mem
    else
      var f := fields[0];
      SetDefaults(fields[1..], if f.slot in mem then mem[f.slot := DefaultCell(f, mem[f.slot])] else mem)
  }

  // ---------------------------------------------------------------- which blocks a struct owns

  /** What of a struct is looked at: the items of embedded arrays within their counts, as by pb_release, or all storage. */
  datatype Reach = Counted | Stored

  function Is(q: nat, p: nat): nat {
    if q == p && q != 0 then 1 else 0
  }

  /** How often a value holds block `p`. */
  function BodyOwns(f: Field, c: Cell, r: Reach, p: nat): nat
    decreases f, 0
  {
    if f.ltype.LSubmessage? && c.Sub? then Owns(f.ltype.ptr, c.mem, r, p) else 0
  }

  function ItemOwns(f: Field, c: Cell, r: Reach, p: nat): nat
    decreases f, 1
  {
    if f.layout.pointer && Blob(f.ltype) then (if c.Ptr? then Is(c.p, p) else 0) else BodyOwns(f, c, r, p)
  }

  function ItemsOwn(f: Field, items: seq<Cell>, r: Reach, p: nat): nat
    decreases f, 2, |items|
  {
    if |items| == 0 then 0 else ItemOwns(f, items[0], r, p) + ItemsOwn(f, items[1..], r, p)
  }

  /** How many items of an embedded array are looked at; the count may exceed them. */
  function Reached(c: Cell, r: Reach): (n: nat)
    requires c.Arr?
    ensures n <= |c.items|
  {
    if r.Counted? && c.count <= |c.items| then c.count else |c.items|
  }

  function DataOwns(f: Field, c: Cell, r: Reach, p: nat): nat
    decreases f, 3
  {
    if f.layout.pointer then
      if f.htype.Repeated? then (if c.Vec? && c.p != 0 then ItemsOwn(f, c.items, r, p) + Is(c.p, p) else 0)
      else if c.Ptr? && c.p != 0 then BodyOwns(f, c.target, r, p) + Is(c.p, p) else 0
    else if f.htype.Repeated? then (if c.Arr? then ItemsOwn(f, c.items[..Reached(c, r)], r, p) else 0)
    else if f.htype.FixedCount? then (if c.Fixed? then ItemsOwn(f, c.items, r, p) else 0)
    else BodyOwns(f, c, r, p)
  }

  function CellOwns(f: Field, c: Cell, r: Reach, p: nat): nat
    decreases f, 4
  {
    if f.htype.Oneof? then (if c.Choice? && c.which == f.tag then DataOwns(f, c.data, r, p) else 0)
    else DataOwns(f, c, r, p)
  }

  function FieldOwns(f: Field, mem: Mem, r: Reach, p: nat): nat
    decreases f, 5
  {
    if f.slot in mem then CellOwns(f, mem[f.slot], r, p) else 0
  }

  /** How often a struct holds block `p`. */
  function Owns(fields: seq<Field>, mem: Mem, r: Reach, p: nat): nat
    decreases fields
  {
    if |fields| == 0 then 0 else FieldOwns(fields[0], mem, r, p) + Owns(fields[1..], mem, r, p)
  }

  // ---------------------------------------------------------------- the pointers in a struct

  function OneBlock(q: nat): multiset<nat> {
    if q == 0 then multiset{} else multiset{q}
  }

  /** All blocks that a value holds, each as often as it does. */
  function BodyPointers(f: Field, c: Cell, r: Reach): multiset<nat>
    decreases f, 0
  {
    if f.ltype.LSubmessage? && c.Sub? then Pointers(f.ltype.ptr, c.mem, r) else multiset{}
  }

  function ItemPointers(f: Field, c: Cell, r: Reach): multiset<nat>
    decreases f, 1
  {
    if f.layout.pointer && Blob(f.ltype) then (if c.Ptr? then OneBlock(c.p) else multiset{}) else BodyPointers(f, c, r)
  }

  function ItemsPointers(f: Field, items: seq<Cell>, r: Reach): multiset<nat>
    decreases f, 2, |items|
  {
    if |items| == 0 then multiset{} else ItemPointers(f, items[0], r) + ItemsPointers(f, items[1..], r)
  }

  function DataPointers(f: Field, c: Cell, r: Reach): multiset<nat>
    decreases f, 3
  {
    if f.layout.pointer then
      if f.htype.Repeated? then (if c.Vec? && c.p != 0 then ItemsPointers(f, c.items, r) + OneBlock(c.p) else multiset{})
      else if c.Ptr? && c.p != 0 then BodyPointers(f, c.target, r) + OneBlock(c.p) else multiset{}
    else if f.htype.Repeated? then (if c.Arr? then ItemsPointers(f, c.items[..Reached(c, r)], r) else multiset{})
    else if f.htype.FixedCount? then (if c.Fixed? then ItemsPointers(f, c.items, r) else multiset{})
    else BodyPointers(f, c, r)
  }

  function CellPointers(f: Field, c: Cell, r: Reach): multiset<nat>
    decreases f, 4
  {
    if f.htype.Oneof? then (if c.Choice? && c.which == f.tag then DataPointers(f, c.data, r) else multiset{})
    else DataPointers(f, c, r)
  }

  function FieldPointers(f: Field, mem: Mem, r: Reach): multiset<nat>
    decreases f, 5
  {
    if f.slot in mem then CellPointers(f, mem[f.slot], r) else multiset{}
  }

  function Pointers(fields: seq<Field>, mem: Mem, r: Reach): multiset<nat>
    decreases fields
  {
    if |fields| == 0 then multiset{} else FieldPointers(fields[0], mem, r) + Pointers(fields[1..], mem, r)
  }

  // ---------------------------------------------------------------- pointers cut by a count

  /** Whether a count over the start of a value leaves part of a pointer there. */
  predicate CutsBody(f: Field, c: Cell)
    decreases f, 0
  {
    f.ltype.LSubmessage? && c.Sub? && |f.ltype.ptr| > 0 && f.ltype.ptr[0].slot in c.mem &&
    CutsCell(f.ltype.ptr[0], c.mem[f.ltype.ptr[0].slot])
  }

  predicate CutsCell(f: Field, c: Cell)
    decreases f, 1
  {
    if f.htype.Oneof? || f.htype.Repeated? then false
    else if f.layout.pointer then c.Ptr? && c.p != 0 && c.p !in INTACT && c.p !in CLEARED
    else if f.htype.FixedCount? then c.Fixed? && |c.items| > 0 && CutsBody(f, c.items[0])
    else !f.htype.Optional? && CutsBody(f, c)
  }

  /** Whether setting the defaults of a struct cuts a pointer. */
  predicate CutsDefault(f: Field, c: Cell)
    decreases f
  {
    if f.htype.Oneof? || f.layout.pointer || f.htype.Repeated? then false
    else if f.htype.FixedCount? then c.Fixed? && |c.items| > 0 && CutsBody(f, c.items[0])
    else f.ltype.LSubmessage? && c.Sub? && Cuts(f.ltype.ptr, c.mem)
  }

  predicate Cuts(fields: seq<Field>, mem: Mem)
    decreases fields
  {
    |fields| > 0 && ((fields[0].slot in mem && CutsDefault(fields[0], mem[fields[0].slot])) || Cuts(fields[1..], mem))
  }

  // ---------------------------------------------------------------- pb_release

  function ReleaseBody(f: Field, c: Cell, h: Heap): (r: (Cell, Heap))
    ensures r.1.got == h.got && r.1.refusals == h.refusals
    decreases f, 0
  {
    if f.ltype.LSubmessage? && c.Sub? then
      var (mem, h1) := Release(f.ltype.ptr, c.mem, h);
      (Sub(mem), h1)
    else (c, h)
  }

  function ReleaseItem(f: Field, c: Cell, h: Heap): (r: (Cell, Heap))
    ensures r.1.got == h.got && r.1.refusals == h.refusals
    decreases f, 1
  {
    if f.layout.pointer && Blob(f.ltype) then (if c.Ptr? then (Ptr(0, Raw), Free(h, c.p)) else (c, h))
    else ReleaseBody(f, c, h)
  }

  function ReleaseItems(f: Field, items: seq<Cell>, h: Heap): (r: (seq<Cell>, Heap))
    ensures |r.0| == |items| && r.1.got == h.got && r.1.refusals == h.refusals
    decreases f, 2, |items|
  {
    if |items| == 0 then ([], h)
    else
      var (c, h1) := ReleaseItem(f, items[0], h);
      var (others, h2) := ReleaseItems(f, items[1..], h1);
      ([c] + others, h2)
  }

  /** pb_release_single_field, for the data of the field. */
  function ReleaseData(f: Field, c: Cell, h: Heap): (r: (Cell, Heap))
    ensures r.1.got == h.got && r.1.refusals == h.refusals
    decreases f, 3
  {
    if f.layout.pointer then
      if f.htype.Repeated? then
        if c.Vec? then
          var h1 := if c.p != 0 then ReleaseItems(f, c.items, h).1 else h;
          (Vec(0, []), Free(h1, c.p))
        else (c, h)
      else if c.Ptr? then
        var h1 := if c.p != 0 then ReleaseBody(f, c.target, h).1 else h;
        (Ptr(0, Raw), Free(h1, c.p))
      else (c, h)
    else if f.htype.Repeated? then
      if c.Arr? then
        var (items, h1) := ReleaseItems(f, c.items[..Reached(c, Counted)], h);
        (Arr(c.count, items + c.items[Reached(c, Counted)..]), h1)
      else (c, h)
    else if f.htype.FixedCount? then
      if c.Fixed? then
        var (items, h1) := ReleaseItems(f, c.items, h);
        (Fixed(items), h1)
      else (c, h)
    else ReleaseBody(f, c, h)
  }

  function ReleaseCell(f: Field, c: Cell, h: Heap): (r: (Cell, Heap))
    ensures r.1.got == h.got && r.1.refusals == h.refusals
    decreases f, 4
  {
    if f.htype.Oneof? then
      if c.Choice? && c.which == f.tag then
        var (d, h1) := ReleaseData(f, c.data, h);
        (Choice(c.which, d), h1)
      else (c, h)
    else ReleaseData(f, c, h)
  }

  function ReleaseField(f: Field, mem: Mem, h: Heap): (r: (Mem, Heap))
    ensures r.1.got == h.got && r.1.refusals == h.refusals
    decreases f, 5
  {
    if f.slot in mem then
      var (c, h1) := ReleaseCell(f, mem[f.slot], h);
      (mem[f.slot := c], h1)
    else (mem, h)
  }

  /** pb_release. */
  function Release(fields: seq<Field>, mem: Mem, h: Heap): (r: (Mem, Heap))
    ensures r.1.got == h.got && r.1.refusals == h.refusals
    decreases fields
  {
    if |fields| == 0 then (mem, h)
    else
      var (m1, h1) := ReleaseField(fields[0], mem, h);
      Release(fields[1..], m1, h1)
  }

  // ---------------------------------------------------------------- decoding

  /**
    Storage that is given up: the pointers in it before, those released meanwhile, and those in it
    afterwards; and whether a pointer was cut.
   */
  datatype Drop = Drop(before: multiset<nat>, freed: multiset<nat>, after: multiset<nat>, cut: bool)

  /**
    What a decoding step leaves: the unread bytes or `None` for an error return, the storage, the
    heap. `drops` lists the storage given up: by setting defaults, by replacing a pointer's target
    or a union's member, and by pb_release after an error, at any depth.
   */
  datatype Out<T> = Out(rest: Option<seq<byte>>, val: T, heap: Heap, drops: seq<Drop>)

  /** pb_dec_string and pb_dec_bytes into a pointer. */
  function DecodeBlob(f: Field, bs: seq<byte>, p: nat, h: Heap): (r: Out<nat>)
    ensures r.rest.Some? ==> |r.rest.value| < |bs|
  {
    match DecVarint32(bs)
    case Err => Out(None, p, h, [])
    case Ok(size, rest) =>
      var room := if f.ltype.LString? then (size + 1) % TWO_32 else InSizeT(size + SIZE_BYTES);
      if (f.ltype.LBytes? && size > PB_SIZE_MAX) || size > room || |rest| < size then Out(None, p, h, [])
      else
        var (q, h1) := Allocate(h, p, room, 1);
        if q == 0 then Out(None, p, h1, []) else Out(Some(rest[size..]), q, h1, [])
  }

  /** Any other value without a submessage: only its length matters. */
  function Skim(f: Field, bs: seq<byte>): (r: Option<seq<byte>>)
    requires !f.ltype.LSubmessage?
    ensures r.Some? ==> |r.value| < |bs|
  {
    match DecScalar(f, bs)
    case Err => None
    case Ok(_, rest) => Some(rest)
  }

  /** pb_dec_submessage, with pb_decode for array items and pb_decode_noinit otherwise. */
  function DecodeBody(f: Field, bs: seq<byte>, c: Cell, h: Heap): (r: Out<Cell>)
    ensures r.rest.Some? ==> |r.rest.value| < |bs|
    decreases |bs|, 0
  {
    if !f.ltype.LSubmessage? then Out(Skim(f, bs), c, h, [])
    else match DecString(bs)
      case Err => Out(None, c, h, [])
      case Ok(body, rest) =>
        if !c.Sub? then Out(None, c, h, [])
        else
          var init := f.htype.Repeated? || f.htype.FixedCount?;
          var o := if init then DecodeStruct(f.ltype.ptr, body, c.mem, h) else MergeStruct(f.ltype.ptr, body, c.mem, h);
          Out(if o.rest.Some? then Some(rest) else None, Sub(o.val), o.heap, o.drops)
  }

  /** A packed record into an embedded array: how many items it adds; `None` is an error. */
  function DecodePacked(f: Field, wt: nat, bs: seq<byte>, count: nat): (r: Option<(nat, seq<byte>)>)
    requires Packable(f.ltype)
    ensures r.Some? ==> |r.value.1| < |bs|
  {
    match DecItems(f, wt, bs, count)
    case Err => None
    case Ok(items, rest) => Some((|items|, rest))
  }

  /** `(*size)++` past a full array. */
  function PastFull(count: nat): nat {
    if count >= PB_SIZE_MAX then 0 else count + 1
  }

  /** An array's storage with item `k` replaced or added. */
  function Put(items: seq<Cell>, k: nat, c: Cell): seq<Cell> {
    if k < |items| then items[k := c] else items + [c]
  }

  /** decode_static_field for an array with a count. */
  function DecodeArray(f: Field, wt: nat, bs: seq<byte>, c: Cell, h: Heap): (r: Out<Cell>)
    requires c.Arr?
    ensures r.rest.Some? ==> |r.rest.value| < |bs|
    decreases |bs|, 1
  {
    if Packable(f.ltype) && wt == WT_STRING then
      match DecodePacked(f, wt, bs, c.count)
      case None => Out(None, c, h, [])
      case Some((n, rest)) => Out(Some(rest), Arr(c.count + n, c.items[..Reached(c, Counted)] + seq(n, _ => Raw)), h, [])
    else if c.count >= f.arraySize then Out(None, Arr(PastFull(c.count), c.items), h, [])
    else
      var o := DecodeBody(f, bs, if c.count < |c.items| then c.items[c.count] else BlankBody(f), h);
      Out(o.rest, Arr(c.count + 1, Put(c.items, c.count, o.val)), o.heap, o.drops)
  }

  /** decode_static_field for a fixed-count array of which `k` items are drops. */
  function DecodeFixed(f: Field, wt: nat, bs: seq<byte>, c: Cell, k: nat, h: Heap): (r: Out<(Cell, nat)>)
    requires c.Fixed?
    ensures r.rest.Some? ==> |r.rest.value| < |bs|
    decreases |bs|, 1
  {
    if Packable(f.ltype) && wt == WT_STRING then
      match DecodePacked(f, wt, bs, k)
      case None => Out(None, (c, k), h, [])
      case Some((n, rest)) => Out(Some(rest), (c, k + n), h, [])
    else if k >= f.arraySize || k >= |c.items| then Out(None, (c, k + 1), h, [])
    else
      var o := DecodeBody(f, bs, c.items[k], h);
      Out(o.rest, (Fixed(c.items[k := o.val]), k + 1), o.heap, o.drops)
  }

  /** decode_pointer_field for a single value. */
  function DecodePointer(f: Field, bs: seq<byte>, c: Cell, h: Heap): (r: Out<Cell>)
    requires c.Ptr?
    ensures r.rest.Some? ==> |r.rest.value| < |bs|
    decreases |bs|, 1
  {
    if Blob(f.ltype) then
      var o := DecodeBlob(f, bs, c.p, h);
      Out(o.rest, Ptr(o.val, Raw), o.heap, o.drops)
    else
      var (c1, h1) := if f.ltype.LSubmessage? && c.p != 0 then ReleaseData(f, c, h) else (c, h);
      if !c1.Ptr? then Out(None, c1, h1, []) else
      var drops := if f.ltype.LSubmessage? && c.p != 0 then [Drop(DataPointers(f, c, Stored), DataPointers(f, c, Counted), multiset{}, false)] else [];
      var (q, h2) := Allocate(h1, c1.p, f.dataSize, 1);
      if q == 0 then Out(None, c1, h2, drops)
      else
        var o := DecodeBody(f, bs, BlankBody(f), h2);
        Out(o.rest, Ptr(q, o.val), o.heap, drops + o.drops)
  }

  /** The entries to allocate for one more item: enough for the rest of the record, if all of it is items of the array's width. */
  function NextRoom(dataSize: nat, left: nat, count: nat, room: nat): (r: nat)
    requires dataSize > 0 && left > 0
    ensures room <= r && (count <= room ==> count < r) && (count < PB_SIZE_MAX && room <= PB_SIZE_MAX ==> r <= PB_SIZE_MAX)
  {
    var remain := (left - 1) / dataSize + 1;
    if count + 1 <= room then room
    else if remain < PB_SIZE_MAX - room then room + remain else room + 1
  }

  /** The loop over a packed record in decode_pointer_field; `room` entries are allocated. */
  function DecodePackedItems(f: Field, bs: seq<byte>, c: Cell, room: nat, h: Heap): (r: Out<Cell>)
    requires c.Vec? && !f.ltype.LSubmessage?
    decreases |bs|
  {
    if |bs| == 0 then Out(Some(bs), c, h, [])
    else if |c.items| == PB_SIZE_MAX || f.dataSize == 0 then Out(None, c, h, [])
    else
      var room1 := NextRoom(f.dataSize, |bs|, |c.items|, room);
      var (q, h1) := if |c.items| + 1 <= room then (c.p, h) else Allocate(h, c.p, f.dataSize, room1);
      if q == 0 then Out(None, c, h1, [])
      else match Skim(f, bs)
        case None => Out(None, Vec(q, c.items), h1, [])
        case Some(rest) => DecodePackedItems(f, rest, Vec(q, c.items + [Raw]), room1, h1)
  }

  /** The items of a pointer array: none while the pointer is NULL. */
  function Items(c: Cell): seq<Cell>
    requires c.Vec?
  {
    if c.p == 0 then [] else c.items
  }

  /** decode_pointer_field for an array. */
  function DecodeVec(f: Field, wt: nat, bs: seq<byte>, c: Cell, h: Heap): (r: Out<Cell>)
    requires c.Vec?
    ensures r.rest.Some? ==> |r.rest.value| < |bs|
    decreases |bs|, 1
  {
    var items := Items(c);
    if Packable(f.ltype) && wt == WT_STRING then
      match DecString(bs)
      case Err => Out(None, c, h, [])
      case Ok(body, rest) =>
        var o := DecodePackedItems(f, body, Vec(c.p, items), |items|, h);
        Out(if o.rest.Some? then Some(rest) else None, o.val, o.heap, o.drops)
    else if |items| == PB_SIZE_MAX then Out(None, c, h, [])
    else
      var (q, h1) := Allocate(h, c.p, f.dataSize, |items| + 1);
      if q == 0 then Out(None, c, h1, [])
      else if Blob(f.ltype) then
        var o := DecodeBlob(f, bs, 0, h1);
        Out(o.rest, Vec(q, items + [Ptr(o.val, Raw)]), o.heap, o.drops)
      else
        var o := DecodeBody(f, bs, BlankBody(f), h1);
        Out(o.rest, Vec(q, items + [o.val]), o.heap, o.drops)
  }

  /** The data of a field other than a fixed-count array. */
  function DecodeData(f: Field, wt: nat, bs: seq<byte>, c: Cell, h: Heap): (r: Out<Cell>)
    ensures r.rest.Some? ==> |r.rest.value| < |bs|
    decreases |bs|, 2
  {
    if f.layout.pointer then
      if f.htype.Repeated? then (if c.Vec? then DecodeVec(f, wt, bs, c, h) else Out(None, c, h, []))
      else if c.Ptr? then DecodePointer(f, bs, c, h) else Out(None, c, h, [])
    else if f.htype.Repeated? then (if c.Arr? then DecodeArray(f, wt, bs, c, h) else Out(None, c, h, []))
    else DecodeBody(f, bs, c, h)
  }

  /** pb_release_union_field: the struct and heap without the old member of the union, or `None`. */
  function DropMember(fields: seq<Field>, f: Field, mem: Mem, h: Heap): Option<(Mem, Heap)>
    requires f.slot in mem
  {
    var c := mem[f.slot];
    if !c.Choice? then None
    else if c.which == 0 || c.which == f.tag then Some((mem, h))
    else match Find(fields, c.which)
      case None => None
      case Some(g) => Some(ReleaseField(g, mem, h))
  }

  /** The storage that a union's old member leaves to the new one. */
  function Replaced(fields: seq<Field>, f: Field, mem: Mem, m1: Mem): seq<Drop>
    requires f.slot in mem && mem[f.slot].Choice?
  {
    var which := mem[f.slot].which;
    if which == f.tag then []
    else
      var freed := if which == 0 || Find(fields, which).None? then multiset{} else FieldPointers(Find(fields, which).value, mem, Counted);
      [Drop(Pointers(fields, mem, Stored), freed, Pointers(fields, m1[f.slot := Choice(f.tag, BlankData(f))], Stored), false)]
  }

  /** decode_field. `book` counts the items of the current fixed-count array. */
  function DecodeField(fields: seq<Field>, f: Field, wt: nat, bs: seq<byte>, book: State, mem: Mem, h: Heap): (r: Out<(Mem, State)>)
    ensures r.rest.Some? ==> |r.rest.value| < |bs|
    decreases |bs|, 3
  {
    if f.slot !in mem then Out(None, (mem, book), h, [])
    else if f.htype.Oneof? then
      match DropMember(fields, f, mem, h)
      case None => Out(None, (mem, book), h, [])
      case Some((m1, h1)) =>
        var c := mem[f.slot];
        var data := if c.which == f.tag then c.data else BlankData(f);
        var o := DecodeData(f, wt, bs, data, h1);
        Out(o.rest, (m1[f.slot := Choice(f.tag, o.val)], book), o.heap, Replaced(fields, f, mem, m1) + o.drops)
    else if f.htype.FixedCount? then
      if !mem[f.slot].Fixed? || book.fixed.None? then Out(None, (mem, book), h, [])
      else
        var o := DecodeFixed(f, wt, bs, mem[f.slot], book.fixed.value.size, h);
        var book1 := book.(fixed := Some(book.fixed.value.(size := o.val.1)));
        Out(o.rest, (mem[f.slot := o.val.0], book1), o.heap, o.drops)
    else
      var o := DecodeData(f, wt, bs, mem[f.slot], h);
      Out(o.rest, (mem[f.slot := o.val], book), o.heap, o.drops)
  }

  /** The field loop and final checks of pb_decode_noinit. */
  function Loop(fields: seq<Field>, bs: seq<byte>, book: State, mem: Mem, h: Heap): (r: Out<Mem>)
    ensures r.rest.Some? ==> |r.rest.value| <= |bs|
    decreases |bs|, 4
  {
    match DecTag(bs)
    case BadTag => Out(None, mem, h, [])
    case End(rest) => Out(if Finished(fields, book) then Some(rest) else None, mem, h, [])
    case Tag(tag, wt, after) =>
      match Find(fields, tag)
      case None =>
        (match Step(fields, tag, wt, after, book)
         case Err => Out(None, mem, h, [])
         case Ok(_, rest) => Loop(fields, rest, book, mem, h))
      case Some(f) =>
        match Enter(f, book)
        case None => Out(None, mem, h, [])
        case Some(entered) =>
          var o := DecodeField(fields, f, wt, after, entered, mem, h);
          if o.rest.None? then Out(None, o.val.0, o.heap, o.drops)
          else
            var next := Loop(fields, o.rest.value, o.val.1, o.val.0, o.heap);
            next.(drops := o.drops + next.drops)
  }

  /** pb_decode_noinit. */
  function MergeStruct(fields: seq<Field>, bs: seq<byte>, mem: Mem, h: Heap): (r: Out<Mem>)
    ensures r.rest.Some? ==> |r.rest.value| <= |bs|
    decreases |bs|, 5
  {
    Loop(fields, bs, State(map[], {}, None), mem, h)
  }

  /** The storage that the defaults overwrite. */
  function Reset(fields: seq<Field>, mem: Mem): Drop {
    Drop(Pointers(fields, mem, Stored), multiset{}, Pointers(fields, SetDefaults(fields, mem), Stored), Cuts(fields, mem))
  }

  /** pb_decode: defaults first, and pb_release after a failure. */
  function DecodeStruct(fields: seq<Field>, bs: seq<byte>, mem: Mem, h: Heap): (r: Out<Mem>)
    ensures r.rest.Some? ==> |r.rest.value| <= |bs|
    decreases |bs|, 6
  {
    var o := MergeStruct(fields, bs, SetDefaults(fields, mem), h);
    var drops := [Reset(fields, mem)] + o.drops;
    if o.rest.Some? then Out(o.rest, o.val, o.heap, drops)
    else
      var (m1, h1) := Release(fields, o.val, o.heap);
      Out(None, m1, h1, drops + [Drop(Pointers(fields, o.val, Stored), Pointers(fields, o.val, Counted), Pointers(fields, m1, Stored), false)])
  }

  // ---------------------------------------------------------------- descriptors

  predicate SoundField(f: Field)
    decreases f
  {
    f.tag >= 1 && f.arraySize <= PB_SIZE_MAX && (f.htype.FixedCount? ==> !f.layout.pointer) && (f.ltype.LSubmessage? ==> Sound(f.ltype.ptr))
  }

  /** Distinct tags above zero, array sizes in a pb_size_t, distinct storage outside unions, and no pointer to a fixed-count array. */
  predicate Sound(fields: seq<Field>)
    decreases fields
  {
    DistinctTags(fields) && DistinctSlots(fields) && forall i :: 0 <= i < |fields| ==> SoundField(fields[i])
  }

  /** No field of the list has `f`'s tag, and only members of its union have its storage. */
  predicate Apart(f: Field, fields: seq<Field>) {
    forall i :: 0 <= i < |fields| ==>
      fields[i].tag != f.tag && (fields[i].slot == f.slot ==> f.htype.Oneof? && fields[i].htype.Oneof?)
  }

  // ---------------------------------------------------------------- descriptors without the leak

  predicate PointerFreeField(f: Field)
    decreases f
  {
    !f.layout.pointer && (f.ltype.LSubmessage? ==> PointerFree(f.ltype.ptr))
  }

  /** No pointers anywhere in the struct. */
  predicate PointerFree(fields: seq<Field>)
    decreases fields
  {
    forall i :: 0 <= i < |fields| ==> PointerFreeField(fields[i])
  }

  predicate SafeType(f: Field)
    decreases f, 0
  {
    f.ltype.LSubmessage? ==> Safe(f.ltype.ptr)
  }

  predicate SafeField(f: Field)
    decreases f, 1
  {
    && SafeType(f)
    && (f.ltype.LSubmessage? ==>
      && (f.htype.FixedCount? ==> PointerFree(f.ltype.ptr))
      && (f.htype.Repeated? && !f.layout.pointer && f.arraySize == PB_SIZE_MAX ==> PointerFree(f.ltype.ptr)))
  }

  /** At any depth, the items of fixed-count arrays and of arrays as long as a count can say contain no pointers. */
  predicate Safe(fields: seq<Field>)
    decreases fields
  {
    forall i :: 0 <= i < |fields| ==> SafeField(fields[i])
  }
}
