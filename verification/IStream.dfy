/** pb_istream_t: a bounded input stream over a byte array. */
module InputStream {
  import opened Bytes

  class IStream {
    const buf: array<byte>
    var state: nat       // the next position to read
    var bytesLeft: nat

    ghost predicate Valid()
      reads this
    {
      state + bytesLeft <= buf.Length
    }

    /** The bytes that can still be read. */
    ghost function Remaining(): (r: seq<byte>)
      requires Valid()
      reads this, buf
      ensures |r| == bytesLeft
    {
      buf[state..state + bytesLeft]
    }

    /** Reading stays within the range [from, limit), and success gives no bytes away. */
    ghost predicate Confined(ok: bool, from: nat, limit: nat)
      reads this
    {
      Valid() && from <= state && state + bytesLeft <= limit && (ok ==> state + bytesLeft == limit)
    }

    /** The stream stands where the decoder `r` leaves it. */
    ghost predicate At<T>(r: Parse<T>, ok: bool)
      requires Valid()
      reads this, buf
    {
      (ok <==> r.Ok?) && (ok ==> Remaining() == r.rest)
    }

    /** pb_istream_from_buffer for `size` bytes of `a` from `position` on. */
    constructor FromBuffer(a: array<byte>, position: nat, size: nat)
      requires position + size <= a.Length
      ensures Valid() && buf == a && state == position && bytesLeft == size
    {
      buf := a;
      state, bytesLeft := position, size;
    }

    /** pb_readbyte. */
    method ReadByte() returns (ok: bool, b: byte)
      requires Valid()
      modifies this
      ensures Confined(true, old(state), old(state + bytesLeft))
      ensures ok <==> old(bytesLeft) > 0
      ensures ok ==> b == old(Remaining())[0] && Remaining() == old(Remaining())[1..]
      ensures !ok ==> state == old(state) && bytesLeft == old(bytesLeft)
    {
      b := 0;
      if bytesLeft == 0 {
        return false, b;
      }
      b := buf[state];
      state := state + 1;
      bytesLeft := bytesLeft - 1;
      return true, b;
    }

    /** pb_read into a buffer; `data` is what arrives there. */
    method Read(count: nat) returns (ok: bool, data: seq<byte>)
      requires Valid()
      modifies this
      ensures Confined(true, old(state), old(state + bytesLeft))
      ensures At(Take(old(Remaining()), count), ok)
      ensures ok ==> data == Take(old(Remaining()), count).val
    {
      data := [];
      if count == 0 {
        return true, data;
      }
      if bytesLeft < count {
        return false, data;
      }
      data := buf[state..state + count];
      state := state + count;
      bytesLeft := bytesLeft - count;
      return true, data;
    }

    /** pb_read(stream, NULL, count) on a memory stream. */
    method Skip(count: nat) returns (ok: bool)
      requires Valid()
      modifies this
      ensures Confined(true, old(state), old(state + bytesLeft))
      ensures At(Take(old(Remaining()), count), ok)
    {
      if count == 0 {
        return true;
      }
      if bytesLeft < count {
        return false;
      }
      state := state + count;
      bytesLeft := bytesLeft - count;
      return true;
    }
  }
}
