/**
  pb_ostream_t: a bounded output stream over a byte array, or, without an array, a
  sizing stream that only counts.
 */
module OutputStream {
  import opened Bytes

  class OStream {
    const buf: array?<byte>   // where buf_write stores; null when there is no callback
    const start: nat          // the first position this stream may write
    const maxSize: nat
    var state: nat            // the next position to write
    var bytesWritten: nat
    ghost var out: seq<byte>  // all bytes written, or counted by a sizing stream

    ghost predicate Valid()
      reads this, buf
    {
      && bytesWritten == |out|
      && (buf != null ==>
            && start + maxSize <= buf.Length
            && state == start + bytesWritten
            && bytesWritten <= maxSize
            && buf[start..state] == out)
    }

    /** Whether a total of `n` bytes is within the stream's limit. */
    ghost predicate Fits(n: nat) {
      buf != null ==> n <= maxSize
    }

    /** Nothing was stored but from `from` up to the current position. */
    ghost predicate Kept(mem: seq<byte>, from: nat)
      reads this, buf
    {
      buf != null ==>
        && |mem| == buf.Length
        && forall i :: 0 <= i < buf.Length && (i < from || state <= i) ==> buf[i] == mem[i]
    }

    ghost function Mem(): seq<byte>
      reads this, buf
    {
      if buf == null then [] else buf[..]
    }

    /** The effect of writing `enc` after `before`: done completely, or refused for want of room or a value. */
    ghost predicate Emitted(before: seq<byte>, enc: Option<seq<byte>>, ok: bool)
      reads this, buf
    {
      && Valid()
      && before <= out
      && (ok <==> enc.Some? && Fits(|before| + |enc.value|))
      && (ok ==> out == before + enc.value)
    }

    /** PB_OSTREAM_SIZING. */
    constructor Sizing()
      ensures Valid() && buf == null && out == []
    {
      buf := null;
      start, maxSize, state, bytesWritten := 0, 0, 0, 0;
      out := [];
    }

    /** pb_ostream_from_buffer for the part of `a` from `position` on, `size` bytes long. */
    constructor FromBuffer(a: array<byte>, position: nat, size: nat)
      requires position + size <= a.Length
      ensures Valid() && buf == a && start == position && maxSize == size && out == []
    {
      buf := a;
      start, maxSize, state, bytesWritten := position, size, position, 0;
      out := [];
    }

    /** pb_write: all of `data`, or nothing if the stream would overflow. */
    method Write(data: seq<byte>) returns (ok: bool)
      requires Valid()
      modifies this`state, this`bytesWritten, this`out, buf
      ensures Emitted(old(out), Some(data), ok)
      ensures !ok ==> out == old(out)
      ensures Kept(old(Mem()), old(state))
    {
      if |data| > 0 && buf != null {
        if bytesWritten + |data| > maxSize {
          return false;
        }
        Store(data);
      }
      bytesWritten := bytesWritten + |data|;
      out := out + data;
      return true;
    }

    /** buf_write. */
    method Store(data: seq<byte>)
      requires buf != null && state + |data| <= buf.Length
      modifies this`state, buf
      ensures state == old(state) + |data|
      ensures buf[old(state)..state] == data
      ensures forall i :: 0 <= i < buf.Length && !(old(state) <= i < state) ==> buf[i] == old(buf[i])
    {
      var dest := state;
      state := dest + |data|;
      for i := 0 to |data|
        invariant state == dest + |data| && buf[dest..dest + i] == data[..i]
        invariant forall k :: 0 <= k < buf.Length && !(dest <= k < dest + i) ==> buf[k] == old(buf[k])
      {
        buf[dest + i] := data[i];
        assert buf[dest..dest + (i + 1)] == buf[dest..dest + i] + [data[i]];
      }
    }

    /** pb_write(stream, NULL, size) on a sizing stream: the bytes are counted without being there. */
    method Count(size: nat, ghost data: seq<byte>)
      requires Valid() && buf == null && size == |data|
      modifies this`bytesWritten, this`out
      ensures Valid() && out == old(out) + data
    {
      bytesWritten := bytesWritten + size;
      out := out + data;
    }
  }

  /**
    pb_write tests for a full stream in size_t arithmetic, modulo `word`. Its two tests together
    are exactly the comparison of the unbounded sum that `Write` makes.
   */
  lemma StreamFullTest(written: nat, count: nat, maxSize: nat, word: nat)
    requires written <= maxSize < word && count < word
    ensures (written + count) % word < written || (written + count) % word > maxSize <==> written + count > maxSize
  {
    if written + count >= word {
      assert (written + count) % word == written + count - word by {
        assert (written + count) / word == 1;
      }
    }
  }
}
