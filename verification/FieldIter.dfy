/**
  The field iterator (pb_common.c). It walks a descriptor cyclically; its data and size
  pointers are stepped from field to field and never recomputed from the start.
 */
module FieldIterator {
  import opened Bytes
  import opened Message

  /** sizeof(void*): a pointer field takes this much of its struct. */
  const ADDRESS_SIZE: nat

  /** The bytes a field takes in its struct, as pb_field_iter_next counts them. */
  function Span(f: Field): nat {
    if !f.layout.pointer && (f.htype.Repeated? || f.htype.FixedCount?) then f.dataSize * f.arraySize
    else if f.layout.pointer then ADDRESS_SIZE
    else f.dataSize
  }

  /** The second and later members of a union have no offset of their own. */
  predicate JoinsUnion(prev: Field, f: Field) {
    prev.htype.Oneof? && f.htype.Oneof? && f.layout.dataOffset == PB_SIZE_MAX
  }

  /** The offset of field `i` in the struct. */
  function DataPos(fields: seq<Field>, i: nat): nat
    requires i < |fields|
  {
    if i == 0 then fields[0].layout.dataOffset
    else if JoinsUnion(fields[i - 1], fields[i]) then DataPos(fields, i - 1)
    else DataPos(fields, i - 1) + Span(fields[i - 1]) + fields[i].layout.dataOffset
  }

  /** The offset of the count, has-flag or which-field of field `i`. */
  function SizePos(fields: seq<Field>, i: nat): int
    requires i < |fields|
  {
    if i > 0 && JoinsUnion(fields[i - 1], fields[i]) then SizePos(fields, i - 1)
    else DataPos(fields, i) + fields[i].layout.sizeOffset
  }

  /**
    The members of a union that follow one another lie in one place and share their which-field.
    Otherwise a field lies its offset behind the previous one, which takes an address by pointer,
    all its items as an array, and itself as a single value.
   */
  lemma {:induction false} Neighbours(fields: seq<Field>, i: nat)
    requires 0 < i < |fields|
    ensures var f, g := fields[i - 1], fields[i];
      if f.htype.Oneof? && g.htype.Oneof? && g.layout.dataOffset == PB_SIZE_MAX
      then DataPos(fields, i) == DataPos(fields, i - 1) && SizePos(fields, i) == SizePos(fields, i - 1)
      else
        && DataPos(fields, i) - DataPos(fields, i - 1) - g.layout.dataOffset ==
             (if f.layout.pointer then ADDRESS_SIZE else if f.htype.Repeated? || f.htype.FixedCount? then f.dataSize * f.arraySize else f.dataSize)
        && SizePos(fields, i) - DataPos(fields, i) == g.layout.sizeOffset
  {
  }

  /** No field reaches into one behind it, but for the members of its union. */
  lemma {:induction false} FieldsApart(fields: seq<Field>, i: nat, j: nat)
    requires i < j < |fields| && !JoinsUnion(fields[i], fields[i + 1])
    ensures DataPos(fields, i) + Span(fields[i]) <= DataPos(fields, j)
    decreases j
  {
    hide Span;
    if j > i + 1 {
      FieldsApart(fields, i, j - 1);
    }
  }

  class FieldIter {
    const fields: seq<Field>
    var pos: nat
    var pData: nat
    var pSize: int
    var requiredFieldIndex: nat

    /** The pointers and the index are those of the current position, however it was reached. */
    ghost predicate Valid()
      reads this
    {
      if |fields| == 0 then pos == 0 && requiredFieldIndex == 0
      else
        && pos < |fields|
        && pData == DataPos(fields, pos)
        && pSize == SizePos(fields, pos)
        && requiredFieldIndex == RequiredIndex(fields, pos)
    }

    /** pb_field_iter_begin, on a struct at offset 0. */
    constructor (fields: seq<Field>)
      ensures Valid() && this.fields == fields && pos == 0
    {
      this.fields := fields;
      pos, requiredFieldIndex := 0, 0;
      if |fields| == 0 {
        pData, pSize := 0, 0;
      } else {
        pData := fields[0].layout.dataOffset;
        pSize := fields[0].layout.dataOffset + fields[0].layout.sizeOffset;
      }
    }

    method Begin() returns (nonEmpty: bool)
      modifies this
      ensures Valid() && pos == 0 && nonEmpty == (|fields| > 0)
    {
      pos, requiredFieldIndex := 0, 0;
      if |fields| == 0 {
        return false;
      }
      pData := fields[0].layout.dataOffset;
      pSize := pData + fields[0].layout.sizeOffset;
      return true;
    }

    /** pb_field_iter_next: one step, wrapping to the first field after the last. */
    method Next() returns (more: bool)
      requires Valid()
      modifies this
      ensures Valid()
      ensures more == (old(pos) + 1 < |fields|)
      ensures pos == if more then old(pos) + 1 else 0
    {
      if |fields| == 0 {
        return false;
      }
      var prev := fields[pos];
      pos := pos + 1;
      if pos == |fields| {
        var _ := Begin();
        return false;
      }
      var cur := fields[pos];
      var prevSize := prev.dataSize;
      if prev.htype.Oneof? && cur.htype.Oneof? && cur.layout.dataOffset == PB_SIZE_MAX {
        return true;
      } else if !prev.layout.pointer && (prev.htype.Repeated? || prev.htype.FixedCount?) {
        prevSize := prevSize * prev.arraySize;
      } else if prev.layout.pointer {
        prevSize := ADDRESS_SIZE;
      }
      if prev.htype.Required? {
        requiredFieldIndex := requiredFieldIndex + 1;
      }
      pData := pData + prevSize + cur.layout.dataOffset;
      pSize := pData + cur.layout.sizeOffset;
      return true;
    }

    /**
      pb_field_iter_find, from any position: it ends, it succeeds exactly when the tag is in the
      table, and otherwise it is back where it began. An empty table holds only the terminator, tag 0.
     */
    method Find(tag: nat) returns (found: bool)
      requires Valid()
      modifies this
      ensures Valid()
      ensures |fields| > 0 ==> (found <==> exists i :: 0 <= i < |fields| && fields[i].tag == tag)
      ensures |fields| == 0 ==> (found <==> tag == 0)
      ensures found && |fields| > 0 ==> fields[pos].tag == tag
      ensures !found ==> pos == old(pos)
    {
      var start := pos;
      var first := true;
      ghost var wrapped := false;
      while first || pos != start
        invariant Valid()
        invariant first <==> !wrapped && pos == start
        invariant !wrapped ==> start <= pos && forall k :: start <= k < pos ==> fields[k].tag != tag
        invariant wrapped ==> pos <= start && forall k :: start <= k < |fields| || 0 <= k < pos ==> fields[k].tag != tag
        invariant |fields| == 0 && wrapped ==> tag != 0
        decreases if wrapped then start - pos else |fields| + 1 + start - pos
      {
        if (if |fields| == 0 then 0 else fields[pos].tag) == tag {
          return true;
        }
        var more := Next();
        if !more {
          wrapped := true;
        }
        first := false;
      }
      return false;
    }
  }
}
