/**
  Bytes, machine words and bit arithmetic, and the result types of the decoders.

  Machine arithmetic is written out: shifts and casts carry their `%`, and a bitwise
  `|` is `BitOr`, so that no disjointness of operands is taken for granted.
 */
module Bytes {

  type byte = b: int | 0 <= b < 256

  const TWO_31: int := 0x8000_0000
  const TWO_32: int := 0x1_0000_0000
  const TWO_63: int := 0x8000_0000_0000_0000
  const TWO_64: int := 0x1_0000_0000_0000_0000

  /** The outcome of a decoder: a value and the unread bytes, or an error return. */
  datatype Parse<+T> = Ok(val: T, rest: seq<byte>) | Err {
    predicate IsFailure() {
      Err?
    }
    function PropagateFailure<U>(): Parse<U>
      requires Err?
    {
      Err
    }
    function Extract(): (T, seq<byte>)
      requires Ok?
    {
      (val, rest)
    }
  }

  datatype Option<+T> = None | Some(value: T) {
    predicate IsFailure() {
      None?
    }
    function PropagateFailure<U>(): Option<U>
      requires None?
    {
      None
    }
    function Extract(): T
      requires Some?
    {
      value
    }
  }

  // ---------------------------------------------------------------- bit arithmetic

  /** `x << k`, without a width. */
  function Shl(x: nat, k: nat): (r: nat)
    ensures r >= x
  {
    if k == 0 then x else 2 * Shl(x, k - 1)
  }

  /** Bitwise or of two naturals. */
  function BitOr(a: nat, b: nat): nat
  {
    if a == 0 then b
    else if b == 0 then a
    else (if a % 2 == 1 || b % 2 == 1 then 1 else 0) + 2 * BitOr(a / 2, b / 2)
  }

  lemma OrZero(x: nat)
    ensures BitOr(0, x) == BitOr(x, 0) == x
  {
  }

  lemma ModSmall(x: nat, m: nat)
    requires x < m
    ensures x % m == x
  {
  }

  function Zeros(n: nat): (s: seq<byte>)
    ensures |s| == n && forall i :: 0 <= i < n ==> s[i] == 0
  {
    seq(n, _ => 0)
  }

  lemma {:induction false} ShlSum(a: nat, b: nat, k: nat)
    ensures Shl(a + b, k) == Shl(a, k) + Shl(b, k)
  {
    if k > 0 {
      ShlSum(a, b, k - 1);
    }
  }

  lemma {:induction false} ShlTwice(x: nat, a: nat, b: nat)
    ensures Shl(x, a + b) == Shl(Shl(x, a), b)
  {
    if b > 0 {
      ShlTwice(x, a, b - 1);
    }
  }

  lemma Shl7(x: nat)
    ensures Shl(x, 7) == 128 * x
  {
    assert Shl(x, 1) == 2 * x;
    assert Shl(x, 2) == 4 * x;
    assert Shl(x, 3) == 8 * x;
    assert Shl(x, 4) == 16 * x;
    assert Shl(x, 5) == 32 * x;
    assert Shl(x, 6) == 64 * x;
  }

  lemma Shl28(x: nat)
    ensures Shl(x, 28) == 0x1000_0000 * x
  {
    Shl7(x);
    Shl7(128 * x);
    Shl7(0x4000 * x);
    Shl7(0x20_0000 * x);
    ShlTwice(x, 7, 7);
    ShlTwice(x, 14, 7);
    ShlTwice(x, 21, 7);
  }

  lemma Shl64(x: nat)
    ensures Shl(x, 64) == TWO_64 * x
  {
    Shl28(x);
    Shl28(0x1000_0000 * x);
    ShlTwice(x, 28, 28);
    ShlTwice(x, 56, 7);
    Shl7(0x100_0000_0000_0000 * x);
  }

  /** A group of seven bits moves up by seven positions. */
  lemma ShlNextGroup(low: nat, hi: nat, k: nat)
    ensures Shl(low + 128 * hi, k) == Shl(low, k) + Shl(hi, k + 7)
  {
    ShlSum(low, 128 * hi, k);
    ShlTwice(hi, 7, k);
    Shl7(hi);
    assert k + 7 == 7 + k;
  }

  /** Seven more bits below a boundary stay below the next one. */
  lemma ShlBelow(result: nat, low: nat, k: nat)
    requires result < Shl(1, k) && low < 128
    ensures result + Shl(low, k) < Shl(1, k + 7)
  {
    ShlSum(low, 1, k);
    ShlSum(low + 1, 127 - low, k);
    ShlNextGroup(0, 1, k);
    ShlSum(0, 0, k);
  }

  lemma ShlGrows(x: nat, a: nat, b: nat)
    requires a <= b
    ensures Shl(x, a) <= Shl(x, b)
  {
    ShlTwice(x, a, b - a);
  }

  lemma {:induction false} OrDisjoint(a: nat, b: nat, k: nat)
    requires a < Shl(1, k)
    ensures BitOr(a, Shl(b, k)) == a + Shl(b, k)
  {
    if b == 0 {
      ShlSum(0, 0, k);
    } else if k > 0 && a > 0 {
      OrDisjoint(a / 2, b, k - 1);
    }
  }

  /** The value of `x` as an unsigned 64-bit integer (two's complement cast). */
  function U64(x: int): nat {
    x % TWO_64
  }

  /** The value of the 64-bit word `x` read as a signed integer. */
  function S64(x: nat): int
    requires x < TWO_64
  {
    if x < TWO_63 then x else x - TWO_64
  }

  /** The low 32 bits of `x` read as a signed integer. */
  function S32(x: int): int {
    var w := x % TWO_32;
    if w < TWO_31 then w else w - TWO_32
  }

  lemma {:induction false} OrBelow(a: nat, b: nat, k: nat)
    requires a < Shl(1, k) && b < Shl(1, k)
    ensures BitOr(a, b) < Shl(1, k)
  {
    if a > 0 && b > 0 {
      OrBelow(a / 2, b / 2, k - 1);
    }
  }

  /** `n` bytes from the front. */
  function Take(bs: seq<byte>, n: nat): (r: Parse<seq<byte>>)
    ensures r.Ok? <==> n <= |bs|
    ensures r.Ok? ==> |r.val| == n && bs == r.val + r.rest
  {
    if n <= |bs| then Ok(bs[..n], bs[n..]) else Err
  }
}
