/**
  The bitmap of required fields met by pb_decode_noinit: two 32-bit words, tested first
  by whole words and then by the remaining bits of the last one.
 */
module RequiredBits {
  import opened Bytes

  /** The number whose binary digits are `bits`, least significant first. */
  function Number(bits: seq<bool>): nat {
    if |bits| == 0 then 0 else (if bits[0] then 1 else 0) + 2 * Number(bits[1..])
  }

  /** `x >> k`. */
  function Shr(x: nat, k: nat): nat {
    if k == 0 then x else Shr(x / 2, k - 1)
  }

  lemma {:induction false} SetBit(bits: seq<bool>, k: nat)
    requires k < |bits|
    ensures BitOr(Number(bits), Shl(1, k)) == Number(bits[k := true])
    decreases k
  {
    if k == 0 {
      assert bits[0 := true][1..] == bits[1..];
      OrZero(Number(bits) / 2);
    } else {
      assert bits[k := true][1..] == bits[1..][k - 1 := true];
      SetBit(bits[1..], k - 1);
    }
  }

  lemma LowBit(i: nat, x: nat, j: nat, y: nat)
    requires i < 2 && j < 2 && i + 2 * x == j + 2 * y
    ensures i == j && x == y
  {
  }

  lemma {:induction false} NumberInjective(a: seq<bool>, b: seq<bool>)
    requires |a| == |b| && Number(a) == Number(b)
    ensures a == b
    decreases |a|
  {
    if |a| > 0 {
      LowBit(if a[0] then 1 else 0, Number(a[1..]), if b[0] then 1 else 0, Number(b[1..]));
      NumberInjective(a[1..], b[1..]);
      assert a == [a[0]] + a[1..] && b == [b[0]] + b[1..];
    }
  }

  /** `n` ones followed by zeros. */
  function Ones(n: nat, width: nat): (bits: seq<bool>)
    requires n <= width
    ensures |bits| == width && forall i :: 0 <= i < width ==> bits[i] == (i < n)
  {
    seq(width, i => i < n)
  }

  lemma {:induction false} OnesNumber(n: nat, width: nat)
    requires n <= width
    ensures Number(Ones(n, width)) == Shl(1, n) - 1
    decreases width
  {
    if width > 0 {
      if n > 0 {
        OnesNumber(n - 1, width - 1);
        assert Ones(n, width)[1..] == Ones(n - 1, width - 1);
      } else {
        OnesNumber(0, width - 1);
        assert Ones(n, width)[1..] == Ones(0, width - 1);
      }
    }
  }

  lemma {:induction false} ShiftOnes(x: nat, k: nat)
    requires x >= 1
    ensures Shr(Shl(x, k) - 1, k) == x - 1
    decreases k
  {
    if k > 0 {
      ShiftOnes(x, k - 1);
    }
  }

  /** A word equals the mask of its low `n` bits exactly when those and only those are set. */
  lemma MaskTest(bits: seq<bool>, n: nat)
    requires n <= |bits|
    ensures Number(bits) == Shl(1, n) - 1 <==> forall i :: 0 <= i < |bits| ==> bits[i] == (i < n)
  {
    OnesNumber(n, |bits|);
    var ones := Ones(n, |bits|);
    if Number(bits) == Shl(1, n) - 1 {
      NumberInjective(bits, ones);
    }
    assert (forall i :: 0 <= i < |bits| ==> bits[i] == (i < n)) ==> bits == ones;
  }

  const ALL_BITS: nat := 0xFFFF_FFFF

  /** `allbits >> (32 - r)` is the mask of the low `r` bits. */
  lemma RemainderMask(r: nat)
    requires r <= 32
    ensures Shr(ALL_BITS, 32 - r) == Shl(1, r) - 1
    ensures Shl(1, 32) - 1 == ALL_BITS
  {
    Word32();
    ShlTwice(1, r, 32 - r);
    ShiftOnes(Shl(1, r), 32 - r);
  }

  lemma Word32()
    ensures Shl(1, 32) == 0x1_0000_0000
  {
    Shl28(1);
    ShlTwice(1, 28, 4);
    assert Shl(0x1000_0000, 1) == 0x2000_0000;
    assert Shl(0x1000_0000, 2) == 0x4000_0000;
    assert Shl(0x1000_0000, 3) == 0x8000_0000;
  }

  class FieldsSeen {
    const words: array<nat>
    ghost var bits: seq<bool>

    ghost predicate Valid()
      reads this, words
    {
      && words.Length == 2 && |bits| == 64
      && words[0] == Number(bits[..32]) && words[1] == Number(bits[32..])
    }

    constructor ()
      ensures Valid() && fresh(words) && bits == seq(64, _ => false)
    {
      words := new nat[2];
      bits := seq(64, _ => false);
      new;
      words[0], words[1] := 0, 0;
      OnesNumber(0, 32);
      assert bits[..32] == Ones(0, 32) && bits[32..] == Ones(0, 32);
    }

    /** fields_seen[index >> 5] |= 1 << (index & 31). */
    method Mark(index: nat)
      requires Valid() && index < 64
      modifies this, words
      ensures Valid() && bits == old(bits)[index := true]
    {
      var tmp := Shl(1, index % 32);
      if index < 32 {
        SetBit(bits[..32], index);
        assert bits[index := true][..32] == bits[..32][index := true];
        assert bits[index := true][32..] == bits[32..];
      } else {
        SetBit(bits[32..], index - 32);
        assert bits[index := true][32..] == bits[32..][index - 32 := true];
        assert bits[index := true][..32] == bits[..32];
      }
      words[index / 32] := BitOr(words[index / 32], tmp);
      bits := bits[index := true];
    }

    ghost function WordBits(i: nat): (w: seq<bool>)
      requires Valid() && i < 2
      reads this, words
      ensures |w| == 32 && forall k :: 0 <= k < 32 ==> w[k] == bits[32 * i + k]
    {
      if i == 0 then bits[..32] else bits[32..]
    }

    lemma WholeWord(i: nat)
      requires Valid() && i < 2
      ensures words[i] == ALL_BITS <==> forall k :: 32 * i <= k < 32 * (i + 1) ==> bits[k]
    {
      RemainderMask(32);
      var w := WordBits(i);
      MaskTest(w, 32);
      assert forall k :: 32 * i <= k < 32 * (i + 1) ==> bits[k] == w[k - 32 * i];
    }

    lemma PartWord(i: nat, r: nat)
      requires Valid() && i < 2 && 0 < r < 32 && forall k :: 32 * i + r <= k < 64 ==> !bits[k]
      ensures words[i] == Shr(ALL_BITS, 32 - r) <==> forall k :: 32 * i <= k < 32 * i + r ==> bits[k]
    {
      RemainderMask(r);
      var w := WordBits(i);
      MaskTest(w, r);
      assert forall k :: 32 * i <= k < 32 * (i + 1) ==> bits[k] == w[k - 32 * i];
    }

    /** The test at the end of pb_decode_noinit: whole words first, then the remaining bits. */
    method AllSeen(count: nat) returns (ok: bool)
      requires Valid() && count <= 64
      requires forall i :: count <= i < 64 ==> !bits[i]
      ensures ok <==> forall i :: 0 <= i < count ==> bits[i]
    {
      hide Number, Shl, Shr;
      var whole, part := count / 32, count % 32;
      for i := 0 to whole
        invariant forall k :: 0 <= k < 32 * i ==> bits[k]
      {
        WholeWord(i);
        if words[i] != ALL_BITS {
          return false;
        }
      }
      if part != 0 {
        PartWord(whole, part);
        if words[whole] != Shr(ALL_BITS, 32 - part) {
          return false;
        }
      }
      return true;
    }
  }
}
