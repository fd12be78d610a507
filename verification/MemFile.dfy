/**
  Storage of a regular file in the in-memory file system: a byte array with slack space
  that is grown geometrically (`O.sh`, `O.Ji`, `O.df` and their callers in `N`). It
  behaves like a plain byte sequence with zero-filled gaps.
 */
module MemFile {
  import opened Bytes

  // ---------------------------------------------------------------- the byte sequence

  /** `s` extended with zeros to at least `n` bytes. */
  function Extend(s: seq<byte>, n: nat): (r: seq<byte>)
    ensures |r| == if n > |s| then n else |s|
  {
    if n > |s| then s + Zeros(n - |s|) else s
  }

  /** Writing nothing leaves the file alone, also beyond its end. */
  function WriteAt(s: seq<byte>, position: nat, data: seq<byte>): seq<byte> {
    if |data| == 0 then s
    else
      var x := Extend(s, position + |data|);
      x[..position] + data + x[position + |data|..]
  }

  function ReadAt(s: seq<byte>, position: nat, count: nat): (r: seq<byte>)
    ensures |r| <= count
  {
    if position >= |s| then []
    else if position + count <= |s| then s[position..position + count]
    else s[position..]
  }

  function Resize(s: seq<byte>, n: nat): seq<byte> {
    if n <= |s| then s[..n] else Extend(s, n)
  }

  /** A file gives back what was written, keeps the rest, and is zero in gaps. */
  lemma WriteThenRead(s: seq<byte>, position: nat, data: seq<byte>, k: nat)
    requires |data| > 0
    ensures var w := WriteAt(s, position, data);
      && ReadAt(w, position, |data|) == data
      && |w| == (if position + |data| > |s| then position + |data| else |s|)
      && (k < |w| && !(position <= k < position + |data|) ==> w[k] == if k < |s| then s[k] else 0)
  {
    var x := Extend(s, position + |data|);
    assert forall i :: 0 <= i < |x| ==> x[i] == if i < |s| then s[i] else 0;
  }

  lemma ByteAt(s: seq<byte>, position: nat, data: seq<byte>, k: nat)
    requires |data| > 0 && k < |WriteAt(s, position, data)|
    ensures WriteAt(s, position, data)[k]
         == if position <= k < position + |data| then data[k - position] else if k < |s| then s[k] else 0
  {
    WriteThenRead(s, position, data, k);
    if position <= k < position + |data| {
      assert ReadAt(WriteAt(s, position, data), position, |data|)[k - position] == WriteAt(s, position, data)[k];
    }
  }

  /** Consecutive writes are one write. */
  lemma {:induction false} WritesJoin(s: seq<byte>, position: nat, a: seq<byte>, b: seq<byte>)
    requires |a| > 0 && |b| > 0
    ensures WriteAt(WriteAt(s, position, a), position + |a|, b) == WriteAt(s, position, a + b)
  {
    hide WriteAt, ReadAt, Extend;
    var w := WriteAt(s, position, a);
    var l, r := WriteAt(w, position + |a|, b), WriteAt(s, position, a + b);
    WriteThenRead(s, position, a, 0);
    WriteThenRead(w, position + |a|, b, 0);
    WriteThenRead(s, position, a + b, 0);
    forall k | 0 <= k < |l|
      ensures l[k] == r[k]
    {
      if k < |w| {
        ByteAt(s, position, a, k);
      }
      ByteAt(w, position + |a|, b, k);
      ByteAt(s, position, a + b, k);
    }
  }

  /** A read delivers as many bytes as were asked for and are there, and these are the bytes from its position on. */
  lemma ReadIs(s: seq<byte>, position: nat, count: nat)
    ensures var r := ReadAt(s, position, count);
      && |r| == (if position >= |s| then 0 else if count < |s| - position then count else |s| - position)
      && forall i :: 0 <= i < |r| ==> r[i] == s[position + i]
  {
  }

  /** Changing the size keeps the bytes that stay and adds zeros; growing to a size never cuts. */
  lemma SizedIs(s: seq<byte>, n: nat)
    ensures |Resize(s, n)| == n && forall i :: 0 <= i < n ==> Resize(s, n)[i] == if i < |s| then s[i] else 0
    ensures |Extend(s, n)| == (if n < |s| then |s| else n) && Extend(s, n) == Resize(s, |Extend(s, n)|)
  {
  }

  /** What a reader gets that takes pieces of `size` bytes until a read delivers nothing. */
  function Drained(s: seq<byte>, position: nat, size: nat): seq<byte>
    decreases |s| - position
  {
    var piece := ReadAt(s, position, size);
    if piece == [] then [] else piece + Drained(s, position + |piece|, size)
  }

  /** Reading in pieces until nothing comes reads the file from there to its end. */
  lemma {:induction false} DrainedIsRest(s: seq<byte>, position: nat, size: nat)
    requires size > 0 && position <= |s|
    ensures Drained(s, position, size) == s[position..]
    decreases |s| - position
  {
    hide ReadAt;
    ReadIs(s, position, size);
    var piece := ReadAt(s, position, size);
    if piece != [] {
      DrainedIsRest(s, position + |piece|, size);
      assert piece == s[position..position + |piece|];
    }
  }

  // ---------------------------------------------------------------- the storage

  const DOUBLING_LIMIT: nat := 1048576
  const MIN_CAPACITY: nat := 256

  /** The capacity that `sh` tries first: twice the old one, or 1.125 times from 1 MB on, in 32 bits. */
  function NextCapacity(c: nat): nat {
    if c < DOUBLING_LIMIT then c * 2 else (c * 9 / 8) % TWO_32
  }

  class File {
    var data: array?<byte>   // `bf`
    var size: nat            // `gf`
    ghost var copied: nat    // bytes moved by growing so far

    ghost predicate Valid()
      reads this, data
    {
      && (data == null <==> size == 0)
      && (data != null ==>
            && size <= data.Length
            && forall i :: size <= i < data.Length ==> data[i] == 0)
    }

    ghost function Contents(): (s: seq<byte>)
      reads this, data
      requires Valid()
      ensures |s| == size
    {
      if data == null then [] else data[..size]
    }

    ghost function Capacity(): nat
      reads this
    {
      if data == null then 0 else data.Length
    }

    /** Growing has copied at most nine times the capacity reached. */
    ghost predicate Frugal()
      reads this
    {
      copied <= 9 * Capacity()
    }

    constructor ()
      ensures Valid() && Contents() == [] && Frugal()
    {
      data := null;
      size, copied := 0, 0;
    }

    /** `sh`: room for `needed` bytes. The contents stay, and whatever is added is zero. */
    method Expand(needed: nat)
      requires Valid()
      modifies this
      ensures size == old(size) && Capacity() >= needed && Capacity() >= old(Capacity())
      ensures data != null ==> size <= data.Length && forall i :: size <= i < data.Length ==> data[i] == 0
      ensures data != null ==> data[..size] == old(Contents())
      ensures data == null ==> size == 0 && needed == 0
      ensures data == old(data) || fresh(data)
      ensures Capacity() >= old(Capacity()) && (old(Frugal()) && 9 * old(Capacity()) / 8 < TWO_32 ==> Frugal())
    {
      var c := if data == null then 0 else data.Length;
      if c >= needed {
        return;
      }
      var b := if NextCapacity(c) > needed then NextCapacity(c) else needed;
      if c != 0 && b < MIN_CAPACITY {
        b := MIN_CAPACITY;
      }
      GrowthPays(c, b);
      var grown := new byte[b](_ => 0);
      if size > 0 {
        CopyInto(data, 0, grown, 0, size);
        assert grown[..size] == old(Contents());
        copied := copied + size;
      }
      data := grown;
    }

    /** `O.df.write` on a typed array, without taking over the caller's buffer. */
    method Write(buffer: array<byte>, offset: nat, length: nat, position: nat) returns (written: nat)
      requires Valid() && offset + length <= buffer.Length && buffer != data
      modifies this, data
      ensures Valid() && written == length
      ensures Contents() == WriteAt(old(Contents()), position, buffer[offset..offset + length])
      ensures data == null || data == old(data) || fresh(data)
      ensures Capacity() >= old(Capacity()) && (old(Frugal()) && 9 * old(Capacity()) / 8 < TWO_32 ==> Frugal())
    {
      hide WriteAt, NextCapacity;
      ghost var s := Contents();
      ghost var bytes := buffer[offset..offset + length];
      if length == 0 {
        WriteNothing(s, position);
        assert bytes == [];
        return 0;
      }
      if size == 0 && position == 0 {
        var slice := new byte[length](_ => 0);
        CopyInto(buffer, offset, slice, 0, length);
        data, size := slice, length;
        assert data[..size] == bytes;
        WriteFirst(bytes);
        return length;
      }
      if position + length <= size {
        CopyInto(buffer, offset, data, position, length);
        WrittenIs(s, position, bytes, data[..size]);
        return length;
      }
      written := WriteBeyond(buffer, offset, length, position);
    }

    /** A write that starts or ends beyond the contents: room is made first. */
    method WriteBeyond(buffer: array<byte>, offset: nat, length: nat, position: nat) returns (written: nat)
      requires Valid() && offset + length <= buffer.Length && buffer != data && length > 0
      modifies this, data
      ensures Valid() && written == length
      ensures Contents() == WriteAt(old(Contents()), position, buffer[offset..offset + length])
      ensures data == old(data) || fresh(data)
      ensures Capacity() >= old(Capacity()) && (old(Frugal()) && 9 * old(Capacity()) / 8 < TWO_32 ==> Frugal())
    {
      hide WriteAt, NextCapacity;
      ghost var s := Contents();
      ghost var bytes := buffer[offset..offset + length];
      Expand(position + length);
      ghost var before := data[..];
      CopyInto(buffer, offset, data, position, length);
      size := if size > position + length then size else position + length;
      assert forall i :: 0 <= i < |before| && i >= |s| ==> before[i] == 0;
      assert before[..|s|] == s;
      assert forall i :: 0 <= i < |s| ==> before[i] == s[i];
      ghost var after := data[..size];
      assert after[position..position + length] == data[position..position + length];
      assert forall i :: 0 <= i < |after| && !(position <= i < position + length) ==> after[i] == before[i];
      WrittenIs(s, position, bytes, after);
      return length;
    }

    /** `O.df.read`. */
    method Read(buffer: array<byte>, offset: nat, length: nat, position: nat) returns (count: nat)
      requires Valid() && offset + length <= buffer.Length && buffer != data
      modifies buffer
      ensures count == |ReadAt(Contents(), position, length)| <= length
      ensures buffer[offset..offset + count] == ReadAt(Contents(), position, length)
      ensures forall i :: 0 <= i < buffer.Length && !(offset <= i < offset + count) ==> buffer[i] == old(buffer[i])
    {
      if position >= size {
        return 0;
      }
      count := if size - position < length then size - position else length;
      CopyInto(data, position, buffer, offset, count);
      assert data[position..position + count] == ReadAt(Contents(), position, length);
    }

    /** `Ji`: truncation reallocates, growing fills with zeros. */
    method SetSize(n: nat)
      requires Valid()
      modifies this
      ensures Valid() && Contents() == Resize(old(Contents()), n)
      ensures data == null || data == old(data) || fresh(data)
    {
      if size == n {
        return;
      }
      if n == 0 {
        data, size := null, 0;
        return;
      }
      ghost var s := Contents();
      var resized := new byte[n](_ => 0);
      if data != null {
        var kept := if n < size then n else size;
        CopyInto(data, 0, resized, 0, kept);
        assert forall i :: 0 <= i < kept ==> resized[i] == s[i];
      }
      data, size := resized, n;
      assert data[..size] == Resize(s, n);
    }

    /** `fg` (fallocate): the slack becomes part of the file. */
    method Allocate(offset: nat, length: nat)
      requires Valid() && length > 0
      modifies this
      ensures Valid() && Contents() == Extend(old(Contents()), offset + length)
      ensures data == null || data == old(data) || fresh(data)
      ensures Capacity() >= old(Capacity()) && (old(Frugal()) && 9 * old(Capacity()) / 8 < TWO_32 ==> Frugal())
    {
      ghost var s := Contents();
      Expand(offset + length);
      ghost var all := data[..];
      if size < offset + length {
        size := offset + length;
      }
      assert all[..|s|] == s;
      assert data[..size] == Extend(s, offset + length);
    }
  }

  /** typedArray.set of a subarray. */
  method CopyInto(source: array<byte>, from: nat, target: array<byte>, to: nat, count: nat)
    requires source != target && from + count <= source.Length && to + count <= target.Length
    modifies target
    ensures target[to..to + count] == source[from..from + count]
    ensures forall i :: 0 <= i < target.Length && !(to <= i < to + count) ==> target[i] == old(target[i])
  {
    for i := 0 to count
      invariant target[to..to + i] == source[from..from + i]
      invariant forall k :: 0 <= k < target.Length && !(to <= k < to + i) ==> target[k] == old(target[k])
    {
      target[to + i] := source[from + i];
      assert target[to..to + (i + 1)] == target[to..to + i] + [source[from + i]];
    }
  }

  /** The new capacity pays for the copy. */
  lemma GrowthPays(c: nat, b: nat)
    requires b >= NextCapacity(c) && (c != 0 ==> b >= MIN_CAPACITY)
    ensures 9 * c / 8 < TWO_32 ==> 9 * c + c <= 9 * b
  {
    if c >= DOUBLING_LIMIT && 9 * c / 8 < TWO_32 {
      ModSmall(c * 9 / 8, TWO_32);
    }
  }

  lemma WriteNothing(s: seq<byte>, position: nat)
    ensures WriteAt(s, position, []) == s
  {
  }

  lemma WriteFirst(bytes: seq<byte>)
    requires |bytes| > 0
    ensures WriteAt([], 0, bytes) == bytes
  {
  }

  lemma WrittenIs(s: seq<byte>, position: nat, bytes: seq<byte>, r: seq<byte>)
    requires |bytes| > 0 && |r| == if position + |bytes| > |s| then position + |bytes| else |s|
    requires r[position..position + |bytes|] == bytes
    requires forall i :: 0 <= i < |r| && !(position <= i < position + |bytes|) ==> r[i] == if i < |s| then s[i] else 0
    ensures r == WriteAt(s, position, bytes)
  {
    var w := WriteAt(s, position, bytes);
    WriteThenRead(s, position, bytes, 0);
    forall k | 0 <= k < |r|
      ensures r[k] == w[k]
    {
      ByteAt(s, position, bytes, k);
      if position <= k < position + |bytes| {
        assert r[position..position + |bytes|][k - position] == r[k];
      }
    }
  }

  // ---------------------------------------------------------------- streams

  /** An error number, or the result of a call. */
  datatype Outcome<+T> = Fine(value: T) | Errno(code: nat)

  const EBADF: nat := 8
  const EINVAL: nat := 28
  const ESPIPE: nat := 70

  /** How a stream was opened: O_RDONLY is 0, O_WRONLY is 1. */
  datatype Access = ReadOnly | WriteOnly | ReadWrite

  /** What a program sees of an open file. */
  datatype View = View(contents: seq<byte>, position: nat)

  /**
    An open regular file (`N.read`, `N.write`, `N.tf`, `N.fg`, `N.truncate`, `N.close`). A program
    may pass a position of its own to read and write.
   */
  class Stream {
    const file: File
    const access: Access
    const append: bool
    const seekable: bool
    var position: nat
    var closed: bool

    ghost predicate Valid()
      reads this, file, file.data
    {
      file.Valid()
    }

    ghost function Seen(): View
      reads this, file, file.data
      requires Valid()
    {
      View(file.Contents(), position)
    }

    constructor (file: File, access: Access, append: bool, seekable: bool)
      requires file.Valid()
      ensures Valid() && this.file == file && this.access == access && this.append == append && this.seekable == seekable
      ensures position == 0 && !closed
    {
      this.file, this.access, this.append, this.seekable := file, access, append, seekable;
      position, closed := 0, false;
    }

    /** `close`, which fails on a closed stream. */
    method Close() returns (r: Outcome<()>)
      requires Valid()
      modifies this`closed
      ensures Valid() && closed && r == if old(closed) then Errno(EBADF) else Fine(())
    {
      if closed {
        return Errno(EBADF);
      }
      closed := true;
      return Fine(());
    }

    /** `tf` (lseek): from the start, the position or the end. */
    method Seek(offset: int, whence: int) returns (r: Outcome<nat>)
      requires Valid()
      modifies this`position
      ensures Valid() && Seen().contents == old(Seen().contents)
      ensures var target := offset + (if whence == 1 then old(position) else if whence == 2 then |Seen().contents| else 0);
        if closed then r == Errno(EBADF) && position == old(position)
        else if !seekable then r == Errno(ESPIPE) && position == old(position)
        else if whence !in {0, 1, 2} || target < 0 then r == Errno(EINVAL) && position == old(position)
        else r == Fine(target) && position == target
    {
      if closed {
        return Errno(EBADF);
      }
      if !seekable {
        return Errno(ESPIPE);
      }
      if whence != 0 && whence != 1 && whence != 2 {
        return Errno(EINVAL);
      }
      var target := offset;
      if whence == 1 {
        target := target + position;
      } else if whence == 2 {
        target := target + file.size;
      }
      if target < 0 {
        return Errno(EINVAL);
      }
      position := target;
      return Fine(position);
    }

    /** The error of a read or write, in the order of the checks. */
    ghost function Refusal(length: int, at: Option<int>, refused: Access): (code: nat)
      reads this`closed
    {
      if length < 0 || (at.Some? && at.value < 0) then EINVAL
      else if closed || access == refused then EBADF
      else if at.Some? && !seekable then ESPIPE
      else 0
    }

    /** `N.read` at the stream's position, which moves on, or at `at`, when it stays. */
    method Read(buffer: array<byte>, offset: nat, length: int, at: Option<int>) returns (r: Outcome<nat>)
      requires Valid() && buffer != file.data && (length >= 0 ==> offset + length <= buffer.Length)
      modifies this`position, buffer
      ensures Valid() && Seen().contents == old(Seen().contents)
      ensures var code := Refusal(length, at, WriteOnly);
        if code != 0 then r == Errno(code) && position == old(position) && buffer[..] == old(buffer[..])
        else
          var data := ReadAt(Seen().contents, if at.Some? then at.value else old(position), length);
          && r == Fine(|data|) && buffer[offset..offset + |data|] == data
          && position == old(position) + (if at.Some? then 0 else |data|)
    {
      if length < 0 || (at.Some? && at.value < 0) {
        return Errno(EINVAL);
      }
      if closed {
        return Errno(EBADF);
      }
      if access.WriteOnly? {
        return Errno(EBADF);
      }
      var from := position;
      if at.Some? {
        if !seekable {
          return Errno(ESPIPE);
        }
        from := at.value;
      }
      var count := file.Read(buffer, offset, length, from);
      if at.None? {
        position := position + count;
      }
      return Fine(count);
    }

    /**
      `N.write` at the stream's position, or at `at`. In append mode the position first
      moves to the end, also when the data then goes elsewhere.
     */
    method Write(buffer: array<byte>, offset: nat, length: int, at: Option<int>) returns (r: Outcome<nat>)
      requires Valid() && buffer != file.data && (length >= 0 ==> offset + length <= buffer.Length)
      modifies this`position, file, file.data
      ensures Valid() && (file.data == null || file.data == old(file.data) || fresh(file.data))
      ensures var code := old(Refusal(length, at, ReadOnly));
        var start := if append && seekable then |old(Seen().contents)| else old(position);
        if code != 0 then r == Errno(code) && Seen() == old(Seen())
        else
          && r == Fine(length) && position == start + (if at.Some? then 0 else length)
          && Seen().contents == WriteAt(old(Seen().contents), if at.Some? then at.value else start, buffer[offset..offset + length])
    {
      if length < 0 || (at.Some? && at.value < 0) {
        return Errno(EINVAL);
      }
      if closed {
        return Errno(EBADF);
      }
      if access.ReadOnly? {
        return Errno(EBADF);
      }
      if seekable && append {
        var _ := Seek(0, 2);
      }
      var to := position;
      if at.Some? {
        if !seekable {
          return Errno(ESPIPE);
        }
        to := at.value;
      }
      var written := file.Write(buffer, offset, length, to);
      if at.None? {
        position := position + written;
      }
      return Fine(written);
    }

    /** `N.fg` (posix_fallocate). */
    method Allocate(offset: int, length: int) returns (r: Outcome<()>)
      requires Valid()
      modifies file
      ensures Valid() && position == old(position) && (file.data == null || file.data == old(file.data) || fresh(file.data))
      ensures if closed then r == Errno(EBADF) && Seen() == old(Seen())
        else if offset < 0 || length <= 0 then r == Errno(EINVAL) && Seen() == old(Seen())
        else if access.ReadOnly? then r == Errno(EBADF) && Seen() == old(Seen())
        else r == Fine(()) && Seen().contents == Extend(old(Seen().contents), offset + length)
    {
      if closed {
        return Errno(EBADF);
      }
      if offset < 0 || length <= 0 {
        return Errno(EINVAL);
      }
      if access.ReadOnly? {
        return Errno(EBADF);
      }
      file.Allocate(offset, length);
      return Fine(());
    }

    /** `N.truncate` through an open stream. */
    method Truncate(length: int) returns (r: Outcome<()>)
      requires Valid()
      modifies file
      ensures Valid() && position == old(position) && (file.data == null || file.data == old(file.data) || fresh(file.data))
      ensures if closed then r == Errno(EBADF) && Seen() == old(Seen())
        else if access.ReadOnly? || length < 0 then r == Errno(EINVAL) && Seen() == old(Seen())
        else r == Fine(()) && Seen().contents == Resize(old(Seen().contents), length)
    {
      if closed {
        return Errno(EBADF);
      }
      if access.ReadOnly? {
        return Errno(EINVAL);
      }
      if length < 0 {
        return Errno(EINVAL);
      }
      file.SetSize(length);
      return Fine(());
    }
  }

  // ---------------------------------------------------------------- runs of operations

  datatype Operation =
    | Put(position: nat, data: seq<byte>)
    | Get(position: nat, count: nat)
    | SetTo(length: nat)
    | Reserve(offset: nat, length: nat)

  /** What an operation does to a byte sequence. */
  function Apply(s: seq<byte>, op: Operation): seq<byte> {
    match op
    case Put(position, data) => WriteAt(s, position, data)
    case Get(_, _) => s
    case SetTo(length) => Resize(s, length)
    case Reserve(offset, length) => if length == 0 then s else Extend(s, offset + length)
  }

  function ApplyAll(s: seq<byte>, ops: seq<Operation>): seq<byte> {
    if |ops| == 0 then s else Apply(ApplyAll(s, ops[..|ops| - 1]), ops[|ops| - 1])
  }

  /** What the reads among the operations return. */
  function Answers(s: seq<byte>, ops: seq<Operation>): seq<seq<byte>> {
    if |ops| == 0 then []
    else
      var before, op := ops[..|ops| - 1], ops[|ops| - 1];
      Answers(s, before) + if op.Get? then [ReadAt(ApplyAll(s, before), op.position, op.count)] else []
  }

  method PerformOne(file: File, op: Operation) returns (answer: seq<byte>)
    requires file.Valid()
    modifies file, file.data
    ensures file.Valid() && file.Contents() == Apply(old(file.Contents()), op)
    ensures op.Get? ==> answer == ReadAt(old(file.Contents()), op.position, op.count)
    ensures file.data == null || file.data == old(file.data) || fresh(file.data)
    ensures !op.SetTo? ==> file.Capacity() >= old(file.Capacity())
    ensures !op.SetTo? && old(file.Frugal()) && 9 * old(file.Capacity()) / 8 < TWO_32 ==> file.Frugal()
  {
    hide WriteAt, ReadAt, Resize, Extend;
    answer := [];
    match op
    case Put(position, data) =>
      var buffer := new byte[|data|](k requires 0 <= k < |data| => data[k]);
      assert buffer[0..0 + |data|] == data;
      var _ := file.Write(buffer, 0, |data|, position);
    case Get(position, count) =>
      var buffer := new byte[count](_ => 0);
      var n := file.Read(buffer, 0, count, position);
      answer := buffer[0..0 + n];
    case SetTo(length) =>
      file.SetSize(length);
    case Reserve(offset, length) =>
      if length > 0 {
        file.Allocate(offset, length);
      }
  }

  predicate NeverCut(ops: seq<Operation>) {
    forall i :: 0 <= i < |ops| ==> !ops[i].SetTo?
  }

  /**
    Any list of writes, reads, truncations and allocations is the same list on a byte sequence. If
    none truncates, all the copying together is paid for by the capacity at the end.
   */
  method Perform(file: File, ops: seq<Operation>) returns (answers: seq<seq<byte>>)
    requires file.Valid()
    modifies file, file.data
    ensures file.Valid() && file.Contents() == ApplyAll(old(file.Contents()), ops)
    ensures answers == Answers(old(file.Contents()), ops)
    ensures NeverCut(ops) && old(file.Frugal()) && 9 * file.Capacity() / 8 < TWO_32 ==> file.copied <= 9 * file.Capacity()
  {
    hide Apply, ReadAt;
    answers := [];
    for i := 0 to |ops|
      invariant file.Valid() && file.Contents() == ApplyAll(old(file.Contents()), ops[..i])
      invariant answers == Answers(old(file.Contents()), ops[..i])
      invariant file.data == null || file.data == old(file.data) || fresh(file.data)
      invariant NeverCut(ops) && old(file.Frugal()) && 9 * file.Capacity() / 8 < TWO_32 ==> file.Frugal()
    {
      assert ops[..i + 1][..i] == ops[..i];
      var answer := PerformOne(file, ops[i]);
      answers := answers + if ops[i].Get? then [answer] else [];
    }
    assert ops[..|ops|] == ops;
  }

  // ---------------------------------------------------------------- runs over a stream

  datatype Request =
    | Read(length: int, at: Option<int>)
    | Write(data: seq<byte>, at: Option<int>)
    | Seek(offset: int, whence: int)
    | Truncate(length: int)
    | Allocate(offset: int, length: int)
    | Close

  /** A call's error number or 0, its result, and the bytes that a read delivers. */
  datatype Reply = Reply(code: nat, value: nat, data: seq<byte>)

  /** How a stream was opened. */
  datatype Mode = Mode(access: Access, append: bool, seekable: bool)

  datatype Open = Open(contents: seq<byte>, position: nat, closed: bool)

  function Fails(code: nat, v: Open): (Reply, Open) {
    (Reply(code, 0, []), v)
  }

  /** What a call does to the contents and position of an open file. */
  function Respond(m: Mode, v: Open, q: Request): (Reply, Open) {
    match q
    case Read(length, at) =>
      if length < 0 || (at.Some? && at.value < 0) then Fails(EINVAL, v)
      else if v.closed || m.access.WriteOnly? then Fails(EBADF, v)
      else if at.Some? && !m.seekable then Fails(ESPIPE, v)
      else
        var data := ReadAt(v.contents, if at.Some? then at.value else v.position, length);
        (Reply(0, |data|, data), v.(position := v.position + if at.Some? then 0 else |data|))
    case Write(data, at) =>
      if at.Some? && at.value < 0 then Fails(EINVAL, v)
      else if v.closed || m.access.ReadOnly? then Fails(EBADF, v)
      else if at.Some? && !m.seekable then Fails(ESPIPE, v)
      else
        var start := if m.append && m.seekable then |v.contents| else v.position;
        (Reply(0, |data|, []), v.(contents := WriteAt(v.contents, if at.Some? then at.value else start, data),
                                  position := start + if at.Some? then 0 else |data|))
    case Seek(offset, whence) =>
      var target := offset + if whence == 1 then v.position else if whence == 2 then |v.contents| else 0;
      if v.closed then Fails(EBADF, v)
      else if !m.seekable then Fails(ESPIPE, v)
      else if whence !in {0, 1, 2} || target < 0 then Fails(EINVAL, v)
      else (Reply(0, target, []), v.(position := target))
    case Truncate(length) =>
      if v.closed then Fails(EBADF, v)
      else if m.access.ReadOnly? || length < 0 then Fails(EINVAL, v)
      else (Reply(0, 0, []), v.(contents := Resize(v.contents, length)))
    case Allocate(offset, length) =>
      if v.closed then Fails(EBADF, v)
      else if offset < 0 || length <= 0 then Fails(EINVAL, v)
      else if m.access.ReadOnly? then Fails(EBADF, v)
      else (Reply(0, 0, []), v.(contents := Extend(v.contents, offset + length)))
    case Close => if v.closed then Fails(EBADF, v) else (Reply(0, 0, []), v.(closed := true))
  }

  function Behind(m: Mode, v: Open, qs: seq<Request>): Open {
    if |qs| == 0 then v else Respond(m, Behind(m, v, qs[..|qs| - 1]), qs[|qs| - 1]).1
  }

  function Replies(m: Mode, v: Open, qs: seq<Request>): seq<Reply> {
    if |qs| == 0 then []
    else
      var before := qs[..|qs| - 1];
      Replies(m, v, before) + [Respond(m, Behind(m, v, before), qs[|qs| - 1]).0]
  }

  ghost function OpenOf(s: Stream): Open
    reads s, s.file, s.file.data
    requires s.Valid()
  {
    Open(s.file.Contents(), s.position, s.closed)
  }

  function ModeOf(s: Stream): Mode {
    Mode(s.access, s.append, s.seekable)
  }

  function Code<T>(r: Outcome<T>): nat {
    if r.Fine? then 0 else r.code
  }

  /** Whether a call reads or writes with a negative length or position. */
  predicate Negative(q: Request) {
    (q.Read? && q.length < 0) || ((q.Read? || q.Write?) && q.at.Some? && q.at.value < 0)
  }

  /**
    Why a call fails: a negative length or position in a read or write, before anything else; then a
    stream that is closed or not open for this, a position in a stream that cannot be moved in,
    or arguments that are out of range. A call that fails changes nothing.
   */
  lemma WhyCallsFail(m: Mode, v: Open, q: Request)
    ensures var (r, w) := Respond(m, v, q);
      && (r.code != 0 ==> w == v && r.value == 0 && r.data == [])
      && (Negative(q) ==> r.code == EINVAL)
      && (!Negative(q) && v.closed ==> r.code == EBADF)
      && (!Negative(q) && !v.closed ==>
            && (r.code == EBADF <==> (q.Read? && m.access.WriteOnly?) || (q.Write? && m.access.ReadOnly?)
                                     || (q.Allocate? && q.offset >= 0 && q.length > 0 && m.access.ReadOnly?))
            && (r.code == ESPIPE <==> !m.seekable && (q.Seek? || (q.Read? && q.at.Some? && !m.access.WriteOnly?)
                                                      || (q.Write? && q.at.Some? && !m.access.ReadOnly?)))
            && (q.Truncate? ==> (r.code == EINVAL <==> m.access.ReadOnly? || q.length < 0))
            && (q.Allocate? ==> (r.code == EINVAL <==> q.offset < 0 || q.length <= 0))
            && (q.Read? || q.Write? || q.Close? ==> r.code != EINVAL)
            && (r.code == 0 || r.code == EBADF || r.code == ESPIPE || r.code == EINVAL))
  {
    hide ReadAt, WriteAt, Resize, Extend;
  }

  lemma ThreeCalls(m: Mode, v: Open, a: Request, b: Request, c: Request)
    ensures var r1 := Respond(m, v, a);
      var r2 := Respond(m, r1.1, b);
      var r3 := Respond(m, r2.1, c);
      && Replies(m, v, [a, b, c]) == [r1.0, r2.0, r3.0]
      && Behind(m, v, [a]) == r1.1 && Behind(m, v, [a, b]) == r2.1 && Behind(m, v, [a, b, c]) == r3.1
  {
    hide Respond;
    assert [a][..0] == [] && [a, b][..1] == [a] && [a, b, c][..2] == [a, b];
    assert Behind(m, v, []) == v && Replies(m, v, []) == [];
    assert Behind(m, v, [a]) == Respond(m, v, a).1 && Replies(m, v, [a]) == [Respond(m, v, a).0];
    assert Behind(m, v, [a, b]) == Respond(m, Behind(m, v, [a]), b).1;
    assert Replies(m, v, [a, b]) == Replies(m, v, [a]) + [Respond(m, Behind(m, v, [a]), b).0];
  }

  /** Going back by what was written and reading as much gives it back, wherever the stream was and whatever was written. */
  lemma WriteBackRead(m: Mode, v: Open, data: seq<byte>)
    requires m.access.ReadWrite? && m.seekable && !v.closed
    ensures var qs := [Write(data, None), Seek(-|data|, 1), Read(|data|, None)];
      var start := if m.append then |v.contents| else v.position;
      && Replies(m, v, qs) == [Reply(0, |data|, []), Reply(0, start, []), Reply(0, |data|, data)]
      && Behind(m, v, qs) == Behind(m, v, [Write(data, None)])
  {
    hide WriteAt, ReadAt, Extend;
    ThreeCalls(m, v, Write(data, None), Seek(-|data|, 1), Read(|data|, None));
    var start := if m.append then |v.contents| else v.position;
    ReadIs(WriteAt(v.contents, start, data), start, |data|);
    if |data| > 0 {
      WriteThenRead(v.contents, start, data, 0);
    }
  }

  /** Writes to a stream in append mode follow one another at the end, wherever it was moved in between. */
  lemma AppendsFollow(m: Mode, v: Open, a: seq<byte>, offset: nat, b: seq<byte>)
    requires m.append && m.seekable && !m.access.ReadOnly? && !v.closed
    ensures Behind(m, v, [Write(a, None), Seek(offset, 0), Write(b, None)]).contents == v.contents + a + b
  {
    hide WriteAt;
    ThreeCalls(m, v, Write(a, None), Seek(offset, 0), Write(b, None));
    AppendIs(v.contents, a);
    AppendIs(v.contents + a, b);
  }

  lemma AppendIs(s: seq<byte>, data: seq<byte>)
    ensures WriteAt(s, |s|, data) == s + data
  {
  }

  method AnswerRead(s: Stream, length: int, at: Option<int>) returns (r: Reply)
    requires s.Valid()
    modifies s`position
    ensures s.Valid() && (r, OpenOf(s)) == Respond(ModeOf(s), old(OpenOf(s)), Read(length, at))
  {
    hide ReadAt;
    var buffer := new byte[if length < 0 then 0 else length](_ => 0);
    var o := s.Read(buffer, 0, length, at);
    if o.Errno? {
      return Reply(o.code, 0, []);
    }
    r := Reply(0, o.value, buffer[0..0 + o.value]);
  }

  method AnswerWrite(s: Stream, data: seq<byte>, at: Option<int>) returns (r: Reply)
    requires s.Valid()
    modifies s`position, s.file, s.file.data
    ensures s.Valid() && (r, OpenOf(s)) == Respond(ModeOf(s), old(OpenOf(s)), Write(data, at))
    ensures s.file.data == null || s.file.data == old(s.file.data) || fresh(s.file.data)
  {
    hide WriteAt;
    var buffer := new byte[|data|](k requires 0 <= k < |data| => data[k]);
    assert buffer[0..0 + |data|] == data;
    var o := s.Write(buffer, 0, |data|, at);
    r := if o.Fine? then Reply(0, o.value, []) else Reply(o.code, 0, []);
  }

  method Answer(s: Stream, q: Request) returns (r: Reply)
    requires s.Valid()
    modifies s, s.file, s.file.data
    ensures s.Valid() && (r, OpenOf(s)) == Respond(ModeOf(s), old(OpenOf(s)), q)
    ensures s.file.data == null || s.file.data == old(s.file.data) || fresh(s.file.data)
  {
    hide WriteAt, ReadAt, Resize, Extend;
    match q
    case Read(length, at) =>
      r := AnswerRead(s, length, at);
    case Write(data, at) =>
      r := AnswerWrite(s, data, at);
    case Seek(offset, whence) =>
      var o := s.Seek(offset, whence);
      r := if o.Fine? then Reply(0, o.value, []) else Reply(o.code, 0, []);
    case Truncate(length) =>
      var o := s.Truncate(length);
      r := Reply(Code(o), 0, []);
    case Allocate(offset, length) =>
      var o := s.Allocate(offset, length);
      r := Reply(Code(o), 0, []);
    case Close =>
      var o := s.Close();
      r := Reply(Code(o), 0, []);
  }

  /** Any list of calls on a stream gets the replies, and leaves the contents and position, of the byte sequence with a position. */
  method Serve(s: Stream, qs: seq<Request>) returns (replies: seq<Reply>)
    requires s.Valid()
    modifies s, s.file, s.file.data
    ensures s.Valid() && OpenOf(s) == Behind(ModeOf(s), old(OpenOf(s)), qs)
    ensures replies == Replies(ModeOf(s), old(OpenOf(s)), qs)
  {
    hide Respond;
    replies := [];
    for i := 0 to |qs|
      invariant s.Valid() && OpenOf(s) == Behind(ModeOf(s), old(OpenOf(s)), qs[..i])
      invariant replies == Replies(ModeOf(s), old(OpenOf(s)), qs[..i])
      invariant s.file.data == null || s.file.data == old(s.file.data) || fresh(s.file.data)
    {
      assert qs[..i + 1][..i] == qs[..i];
      var r := Answer(s, qs[i]);
      replies := replies + [r];
    }
    assert qs[..|qs|] == qs;
  }
}
