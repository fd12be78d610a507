/**
  Message descriptors and message structs.

  A descriptor is the run-time field table that the encoder and decoder walk. `slot`
  names the storage a field's data pointer refers to: the members of a oneof share
  one slot, all other fields have their own. A struct is the contents of its slots.

  The struct records what the code can read back: an array holds its counted items,
  a char array the bytes written to it up to and including its terminator, a union
  the member that its `which` field selects. `VNone` is storage without a defined value.
 */
module Message {
  import opened Bytes

  type SizeWidth = w: nat | w == 1 || w == 2 || w == 4 witness 4

  /** sizeof(pb_size_t), which the build options select; every result holds for each width. */
  const SIZE_BYTES: SizeWidth

  const PB_SIZE_MAX: nat := if SIZE_BYTES == 1 then 0xFF else if SIZE_BYTES == 2 then 0xFFFF else 0xFFFF_FFFF

  type HalfRange = n: nat | n == 0x1_0000 || n == 0x1_0000_0000 witness 0x1_0000

  /** Half the bits of size_t: `(size_t)1 << (sizeof(size_t) * 4)`. */
  const CHECK_LIMIT: HalfRange

  /** The largest size_t, of twice as many bits. */
  const SIZE_MAX: nat := if CHECK_LIMIT == 0x1_0000 then 0xFFFF_FFFF else 0xFFFF_FFFF_FFFF_FFFF

  /** Presence of the first this many required fields is tracked (PB_MAX_REQUIRED_FIELDS). */
  const MAX_REQUIRED: nat := 64

  datatype LType =
    | LBool | LVarint | LUvarint | LSvarint | LFixed32 | LFixed64
    | LBytes | LString | LSubmessage(ptr: seq<Field>) | LFixedLengthBytes

  /** `Singular` is OPTIONAL without a has-field (proto3); `FixedCount` is REPEATED without a count. */
  datatype HType = Required | Optional | Singular | Repeated | FixedCount | Oneof

  /** Where a field lies in its struct: its offset from the end of the previous one, and of its size or has-flag. */
  datatype Layout = Layout(dataOffset: nat, sizeOffset: int, pointer: bool)

  datatype Field = Field(tag: nat, ltype: LType, htype: HType, slot: nat,
                         dataSize: nat, arraySize: nat, init: Option<Value>, layout: Layout)

  datatype Value =
    | VNone
    | VBool(raw: byte)
    | VInt(n: int)
    | VBytes(bytes: seq<byte>)
    | VString(mem: seq<byte>)
    | VMsg(msg: Msg)

  datatype Slot =
    | One(v: Value)
    | Opt(has: byte, v: Value)
    | Rep(items: seq<Value>)
    | Fix(items: seq<Value>)
    | Union(which: nat, v: Value)

  type Msg = map<nat, Slot>

  predicate Packable(l: LType) {
    l.LBool? || l.LVarint? || l.LUvarint? || l.LSvarint? || l.LFixed32? || l.LFixed64?
  }

  // ---------------------------------------------------------------- descriptors

  predicate DistinctTags(fields: seq<Field>) {
    forall i, j :: 0 <= i < j < |fields| ==> fields[i].tag != fields[j].tag
  }

  /** Only members of a oneof share storage. */
  predicate DistinctSlots(fields: seq<Field>) {
    forall i, j :: 0 <= i < j < |fields| && fields[i].slot == fields[j].slot ==>
      fields[i].htype.Oneof? && fields[j].htype.Oneof?
  }

  predicate IntSize(n: nat) {
    n == 1 || n == 2 || n == 4 || n == 8
  }

  /** The descriptors that the generator macros can produce from a valid message type. */
  predicate WfField(f: Field)
    decreases f
  {
    && 1 <= f.tag < 0x2000_0000
    && (f.ltype.LVarint? || f.ltype.LUvarint? || f.ltype.LSvarint? ==> IntSize(f.dataSize))
    && (f.ltype.LBytes? ==> f.dataSize >= SIZE_BYTES)
    && f.dataSize <= PB_SIZE_MAX && f.arraySize <= PB_SIZE_MAX && !f.layout.pointer
    && (f.ltype.LSubmessage? ==> WfFields(f.ltype.ptr))
  }

  predicate WfFields(fields: seq<Field>)
    decreases fields
  {
    DistinctTags(fields) && DistinctSlots(fields) && forall i :: 0 <= i < |fields| ==> WfField(fields[i])
  }

  lemma Embedded(f: Field)
    requires WfField(f)
    ensures Room(f) == f.dataSize && Capacity(f) == f.arraySize && !f.layout.pointer
  {
  }

  /** The field with the given tag. */
  function Find(fields: seq<Field>, tag: nat): (r: Option<Field>)
    ensures r.Some? ==> r.value in fields && r.value.tag == tag
    ensures r.None? ==> forall f :: f in fields ==> f.tag != tag
  {
    if |fields| == 0 then None
    else if fields[0].tag == tag then Some(fields[0])
    else Find(fields[1..], tag)
  }

  lemma FindUnique(fields: seq<Field>, f: Field)
    requires DistinctTags(fields) && f in fields
    ensures Find(fields, f.tag) == Some(f)
  {
    var g := Find(fields, f.tag).value;
    var i :| 0 <= i < |fields| && fields[i] == f;
    var j :| 0 <= j < |fields| && fields[j] == g;
    assert i == j;
  }

  /** The number of required fields before position `i`: the iterator's required_field_index. */
  function RequiredIndex(fields: seq<Field>, i: nat): (n: nat)
    requires i <= |fields|
    ensures n <= i
  {
    if i == 0 then 0 else RequiredIndex(fields, i - 1) + (if fields[i - 1].htype.Required? then 1 else 0)
  }

  // ---------------------------------------------------------------- values

  /** The C string in a char array: the bytes before the first NUL. */
  function CStr(mem: seq<byte>): (s: seq<byte>)
    ensures s <= mem && 0 !in s
    ensures |s| < |mem| ==> mem[|s|] == 0
  {
    if |mem| == 0 || mem[0] == 0 then [] else [mem[0]] + CStr(mem[1..])
  }

  /** The storage there is for a string or bytes: a pointer's block can be of any size. */
  function Room(f: Field): nat {
    if f.layout.pointer then SIZE_MAX else f.dataSize
  }

  /** How many items an array can have: those of its storage, or as many as a count can say. */
  function Capacity(f: Field): nat {
    if f.htype.Repeated? && f.layout.pointer then PB_SIZE_MAX else f.arraySize
  }

  function ZeroValue(f: Field): Value {
    match f.ltype
    case LBool => VBool(0)
    case LBytes => VBytes([])
    case LString => VString([0])
    case LFixedLengthBytes => VBytes(Zeros(f.dataSize))
    case _ => VInt(0)
  }

  /** pb_field_set_to_default for the data of one field: a pointer becomes NULL. */
  function InitValue(f: Field): Value
    decreases f, 0
  {
    if f.layout.pointer then VNone
    else if f.ltype.LSubmessage? then VMsg(Defaults(f.ltype.ptr))
    else if f.init.Some? then f.init.value
    else ZeroValue(f)
  }

  function InitSlot(f: Field): Slot
    decreases f, 1
  {
    match f.htype
    case Required => One(InitValue(f))
    case Singular => One(InitValue(f))
    case Optional => Opt(0, InitValue(f))
    case Repeated => Rep([])
    case FixedCount => Fix(seq(f.arraySize, _ => VNone))
    case Oneof => Union(0, VNone)
  }

  /** pb_message_set_to_defaults. */
  function Defaults(fields: seq<Field>): Msg
    decreases fields
  {
    if |fields| == 0 then map[] else Defaults(fields[1..])[fields[0].slot := InitSlot(fields[0])]
  }

  lemma {:induction false} DefaultsAt(fields: seq<Field>, i: nat)
    requires DistinctSlots(fields) && i < |fields|
    ensures fields[i].slot in Defaults(fields)
    ensures Defaults(fields)[fields[i].slot] == InitSlot(fields[i])
  {
    if i > 0 {
      DefaultsAt(fields[1..], i - 1);
    }
  }

  lemma {:induction false} DefaultsKeys(fields: seq<Field>, s: nat)
    requires s in Defaults(fields)
    ensures exists i :: 0 <= i < |fields| && fields[i].slot == s
  {
    if |fields| > 0 && fields[0].slot != s {
      DefaultsKeys(fields[1..], s);
      var i :| 0 <= i < |fields[1..]| && fields[1..][i].slot == s;
      assert fields[i + 1].slot == s;
    }
  }
}
