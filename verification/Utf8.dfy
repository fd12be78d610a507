/**
  Conversion between UTF-16 strings and UTF-8 bytes in a heap (`Ja`, `La` and `Ma` in the
  minified source; RFC 3629, section 3). A string is a sequence of 16-bit code units.
 */
module Utf8 {
  import opened Bytes

  type Unit = u: int | 0 <= u < 0x1_0000

  predicate Surrogate(u: Unit) {
    0xD800 <= u <= 0xDFFF
  }

  /** Every surrogate is a high one followed by a low one. */
  predicate WellFormed(s: seq<Unit>)
    decreases |s|
  {
    if |s| == 0 then true
    else if Surrogate(s[0]) then s[0] < 0xDC00 && |s| > 1 && 0xDC00 <= s[1] <= 0xDFFF && WellFormed(s[2..])
    else WellFormed(s[1..])
  }

  /** The code point at the front, and how many units it takes; a missing second half reads as 0. */
  function PointAt(s: seq<Unit>): (r: (nat, nat))
    requires |s| > 0
    ensures 1 <= r.1 <= |s| && r.0 <= 0x10FFFF
  {
    var first: nat := s[0];
    if !Surrogate(s[0]) then (first, 1)
    else
      var second: nat := if |s| > 1 then s[1] else 0;
      (0x1_0000 + first % 1024 * 1024 + second % 1024, if |s| > 1 then 2 else 1)
  }

  function Points(s: seq<Unit>): (r: seq<nat>)
    ensures forall i :: 0 <= i < |r| ==> r[i] <= 0x10FFFF
    decreases |s|
  {
    if |s| == 0 then [] else [PointAt(s).0] + Points(s[PointAt(s).1..])
  }

  /** The units of a code point. */
  function Units(k: nat): seq<Unit>
    requires k <= 0x10FFFF
  {
    if k < 0x1_0000 then [k]
    else [0xD800 + (k - 0x1_0000) / 1024, 0xDC00 + (k - 0x1_0000) % 1024]
  }

  function AllUnits(ks: seq<nat>): seq<Unit>
    requires forall i :: 0 <= i < |ks| ==> ks[i] <= 0x10FFFF
  {
    if |ks| == 0 then [] else Units(ks[0]) + AllUnits(ks[1..])
  }

  lemma {:induction false} UnitsOfPoints(s: seq<Unit>)
    requires WellFormed(s)
    ensures AllUnits(Points(s)) == s
    decreases |s|
  {
    if |s| > 0 {
      var n := PointAt(s).1;
      UnitsOfPoints(s[n..]);
      assert Points(s)[1..] == Points(s[n..]);
      assert Units(PointAt(s).0) == s[..n];
      assert s[..n] + s[n..] == s;
    }
  }

  /** No other string is: a surrogate swallows the unit behind it, whatever that is, and comes back as a pair. */
  lemma {:induction false} OnlyWellFormed(s: seq<Unit>)
    requires AllUnits(Points(s)) == s
    ensures WellFormed(s)
    decreases |s|
  {
    if |s| > 0 {
      var (k, n) := PointAt(s);
      assert Points(s)[1..] == Points(s[n..]);
      var first, rest := Units(k), AllUnits(Points(s[n..]));
      assert s == first + rest;
      if Surrogate(s[0]) {
        SurrogateIsHigh(s);
      }
      assert s[..n] == first && s[n..] == rest;
      OnlyWellFormed(s[n..]);
    }
  }

  /**
    A surrogate makes one code point beyond the first plane with the unit behind it, whatever that
    is, from the low ten bits of both; at the end of a string, with zeros. Any other unit stands for itself.
   */
  lemma SurrogateSwallows(s: seq<Unit>)
    requires |s| > 0
    ensures var ks := Points(s);
      if 0xD800 <= s[0] <= 0xDFFF
      then |ks| > 0 && ks[0] >= 0x1_0000 && ks[0] / 1024 == 64 + s[0] % 1024 && ks[0] % 1024 == (if |s| > 1 then s[1] % 1024 else 0)
        && ks[1..] == Points(if |s| > 1 then s[2..] else [])
      else |ks| > 0 && ks[0] == s[0] && ks[1..] == Points(s[1..])
  {
    hide Points;
    PointsHead(s);
    if Surrogate(s[0]) {
      TenBits(s[0] % 1024, if |s| > 1 then s[1] % 1024 else 0);
      assert |s| == 1 ==> s[1..] == [];
    }
  }

  lemma TenBits(high: nat, low: nat)
    requires high < 1024 && low < 1024
    ensures (0x1_0000 + high * 1024 + low) / 1024 == 64 + high && (0x1_0000 + high * 1024 + low) % 1024 == low
  {
  }

  lemma SurrogateIsHigh(s: seq<Unit>)
    requires |s| > 0 && Surrogate(s[0]) && Units(PointAt(s).0) <= s
    ensures |s| > 1 && s[0] < 0xDC00 && 0xDC00 <= s[1] <= 0xDFFF
  {
    if |s| > 1 {
      var d: nat := s[0] as int % 1024 * 1024 + s[1] as int % 1024;
      assert d / 1024 == s[0] % 1024 && d % 1024 == s[1] % 1024;
    }
  }

  /** A string is recovered from its code points if and only if it is well formed. */
  lemma RecoveredIffWellFormed(s: seq<Unit>)
    ensures AllUnits(Points(s)) == s <==> WellFormed(s)
  {
    hide WellFormed, Points, AllUnits;
    if WellFormed(s) {
      UnitsOfPoints(s);
    } else if AllUnits(Points(s)) == s {
      OnlyWellFormed(s);
    }
  }

  // ---------------------------------------------------------------- encoding

  /** The UTF-8 bytes of a code point. */
  function Encode(k: nat): (bs: seq<byte>)
    requires k <= 0x10FFFF
    ensures 1 <= |bs| <= 4
  {
    if k <= 0x7F then [k]
    else if k <= 0x7FF then [192 + k / 64, 128 + k % 64]
    else if k <= 0xFFFF then [224 + k / 4096, 128 + k / 64 % 64, 128 + k % 64]
    else [240 + k / 0x4_0000, 128 + k / 4096 % 64, 128 + k / 64 % 64, 128 + k % 64]
  }

  function EncodeAll(ks: seq<nat>): seq<byte>
    requires forall i :: 0 <= i < |ks| ==> ks[i] <= 0x10FFFF
  {
    if |ks| == 0 then [] else Encode(ks[0]) + EncodeAll(ks[1..])
  }

  /** How many leading code points fit in `room` bytes. */
  function Fitting(ks: seq<nat>, room: nat): (n: nat)
    requires forall i :: 0 <= i < |ks| ==> ks[i] <= 0x10FFFF
    ensures n <= |ks|
  {
    if |ks| == 0 || |Encode(ks[0])| > room then 0 else 1 + Fitting(ks[1..], room - |Encode(ks[0])|)
  }

  lemma {:induction false} EncodeAllConcat(a: seq<nat>, b: seq<nat>)
    requires forall i :: 0 <= i < |a| ==> a[i] <= 0x10FFFF
    requires forall i :: 0 <= i < |b| ==> b[i] <= 0x10FFFF
    ensures EncodeAll(a + b) == EncodeAll(a) + EncodeAll(b)
  {
    hide Encode;
    if |a| == 0 {
      assert a + b == b;
    } else {
      assert (a + b)[1..] == a[1..] + b;
      EncodeAllConcat(a[1..], b);
    }
  }

  /** The code points that `Fitting` counts are the longest prefix within the room. */
  lemma {:induction false} FittingIsLongest(ks: seq<nat>, room: nat, m: nat)
    requires forall i :: 0 <= i < |ks| ==> ks[i] <= 0x10FFFF
    requires m <= |ks|
    ensures |EncodeAll(ks[..m])| <= room <==> m <= Fitting(ks, room)
    decreases |ks|
  {
    hide Encode;
    if m > 0 {
      assert ks[..m][0] == ks[0] && ks[..m][1..] == ks[1..][..m - 1];
      if |Encode(ks[0])| <= room {
        FittingIsLongest(ks[1..], room - |Encode(ks[0])|, m - 1);
      }
    }
  }

  /** `Ma`. */
  method ByteLength(s: seq<Unit>) returns (n: nat)
    ensures n == |EncodeAll(Points(s))|
  {
    hide Points, PointAt, EncodeAll;
    n := 0;
    var g := 0;
    assert s[0..] == s;
    while g < |s|
      invariant g <= |s|
      invariant n + |EncodeAll(Points(s[g..]))| == |EncodeAll(Points(s))|
      decreases |s| - g
    {
      var (d, units) := PointAt(s[g..]);
      assert s[g..][units..] == s[g + units..];
      PointsHead(s[g..]);
      LengthHead(d, Points(s[g + units..]));
      n := n + (if d <= 127 then 1 else if d <= 2047 then 2 else if d <= 65535 then 3 else 4);
      g := g + units;
    }
    NoPoints(s[g..]);
    EncodeAllNone([]);
  }

  lemma LengthHead(d: nat, ks: seq<nat>)
    requires d <= 0x10FFFF && forall i :: 0 <= i < |ks| ==> ks[i] <= 0x10FFFF
    ensures |EncodeAll([d] + ks)| == (if d <= 127 then 1 else if d <= 2047 then 2 else if d <= 65535 then 3 else 4) + |EncodeAll(ks)|
  {
    assert ([d] + ks)[1..] == ks;
  }

  /** Bytes stored from `c` on; what falls behind the end of the typed array is ignored. */
  function Patch(mem: seq<byte>, c: nat, bytes: seq<byte>): (r: seq<byte>)
    ensures |r| == |mem|
    ensures forall i :: 0 <= i < |mem| ==> r[i] == if c <= i < c + |bytes| then bytes[i - c] else mem[i]
  {
    seq(|mem|, i requires 0 <= i < |mem| => if c <= i < c + |bytes| then bytes[i - c] else mem[i])
  }

  lemma PatchNothing(mem: seq<byte>, c: nat)
    ensures Patch(mem, c, []) == mem
  {
  }

  lemma PatchMore(mem: seq<byte>, c: nat, a: seq<byte>, b: seq<byte>)
    ensures Patch(Patch(mem, c, a), c + |a|, b) == Patch(mem, c, a + b)
  {
    var l, r := Patch(Patch(mem, c, a), c + |a|, b), Patch(mem, c, a + b);
    forall i | 0 <= i < |mem|
      ensures l[i] == r[i]
    {
      if c <= i < c + |a| + |b| {
        assert (a + b)[i - c] == if i < c + |a| then a[i - c] else b[i - c - |a|];
      }
    }
  }

  /**
    `La`: the longest whole-code-point prefix that leaves room for the terminator is written, then
    the terminator, and nothing beyond. The limit may reach behind the heap.
   */
  method Store(s: seq<Unit>, heap: array<byte>, start: nat, limit: int) returns (written: nat)
    modifies heap
    ensures limit <= 0 ==> written == 0 && heap[..] == old(heap[..])
    ensures limit > 0 ==>
      var bytes := EncodeAll(Points(s)[..Fitting(Points(s), limit - 1)]);
      written == |bytes| < limit && heap[..] == Patch(old(heap[..]), start, bytes + [0])
  {
    hide EncodeAll, Points;
    if limit <= 0 {
      return 0;
    }
    ghost var bytes := EncodeAll(Points(s)[..Fitting(Points(s), limit - 1)]);
    var c := StorePoints(s, heap, start, start + limit - 1);
    written := c - start;
    c := Put(heap, c, [0]);
    PatchMore(old(heap[..]), start, bytes, [0]);
  }

  /** The loop of `La`: code points are written until one does not fit. */
  method StorePoints(s: seq<Unit>, heap: array<byte>, start: nat, end: nat) returns (c: nat)
    requires start <= end
    modifies heap
    ensures var bytes := EncodeAll(Points(s)[..Fitting(Points(s), end - start)]);
      start <= c <= end && c == start + |bytes| && heap[..] == Patch(old(heap[..]), start, bytes)
  {
    hide Encode, Points, PointAt, EncodeAll, Fitting, Patch;
    ghost var ks := Points(s);
    ghost var n := 0;
    ghost var mem := heap[..];
    c := start;
    var g := 0;
    assert s[0..] == s && ks[0..] == ks;
    EncodeAllNone(ks[..0]);
    PatchNothing(mem, start);
    while g < |s|
      invariant g <= |s| && n <= |ks| && start <= c <= end
      invariant ks[n..] == Points(s[g..])
      invariant c == start + |EncodeAll(ks[..n])| && heap[..] == Patch(mem, start, EncodeAll(ks[..n]))
      invariant Fitting(ks, end - start) == n + Fitting(ks[n..], end - c)
      decreases |s| - g
    {
      PointsHead(s[g..]);
      FittingHead(ks[n..], end - c);
      var (k, units) := PointAt(s[g..]);
      assert s[g..][units..] == s[g + units..];
      assert ks[n..][1..] == ks[n + 1..] && ks[n..][0] == k;
      g := g + units;
      ghost var before := heap[..];
      var next := WritePoint(heap, c, end, k);
      if next == c {
        assert heap[..] == before;
        return;
      }
      EncodeAllSnoc(ks, n);
      PatchMore(mem, start, EncodeAll(ks[..n]), Encode(k));
      c := next;
      n := n + 1;
    }
    NoPoints(s[g..]);
    FittingHead(ks[n..], end - c);
    assert ks[..n] == ks[..n + Fitting(ks[n..], end - c)];
  }

  lemma FittingHead(ks: seq<nat>, room: nat)
    requires forall i :: 0 <= i < |ks| ==> ks[i] <= 0x10FFFF
    ensures Fitting(ks, room) ==
      if |ks| == 0 || |Encode(ks[0])| > room then 0 else 1 + Fitting(ks[1..], room - |Encode(ks[0])|)
  {
    hide Encode;
  }

  lemma EncodeAllNone(ks: seq<nat>)
    requires |ks| == 0
    ensures EncodeAll(ks) == []
  {
  }

  lemma NoPoints(s: seq<Unit>)
    requires |s| == 0
    ensures Points(s) == []
  {
  }

  lemma PointsHead(s: seq<Unit>)
    requires |s| > 0
    ensures Points(s) == [PointAt(s).0] + Points(s[PointAt(s).1..])
  {
  }

  lemma EncodeAllSnoc(ks: seq<nat>, n: nat)
    requires n < |ks| && forall i :: 0 <= i < |ks| ==> ks[i] <= 0x10FFFF
    ensures EncodeAll(ks[..n + 1]) == EncodeAll(ks[..n]) + Encode(ks[n])
  {
    assert ks[..n + 1] == ks[..n] + [ks[n]];
    EncodeAllConcat(ks[..n], [ks[n]]);
    assert EncodeAll([ks[n]]) == Encode(ks[n]) + [];
  }

  /** One code point, if all its bytes are before `end`; otherwise nothing. */
  method WritePoint(heap: array<byte>, c: nat, end: nat, k: nat) returns (next: nat)
    requires c <= end && k <= 0x10FFFF
    modifies heap
    ensures if c + |Encode(k)| <= end
      then next == c + |Encode(k)| && heap[..] == Patch(old(heap[..]), c, Encode(k))
      else next == c && heap[..] == old(heap[..])
  {
    next := c;
    if k <= 127 {
      if c >= end { return; }
      next := Put(heap, c, [k]);
    } else if k <= 2047 {
      if c + 1 >= end { return; }
      next := Put(heap, c, [192 + k / 64, 128 + k % 64]);
    } else if k <= 65535 {
      if c + 2 >= end { return; }
      next := Put(heap, c, [224 + k / 4096, 128 + k / 64 % 64, 128 + k % 64]);
    } else {
      if c + 3 >= end { return; }
      next := Put(heap, c, [240 + k / 0x4_0000, 128 + k / 4096 % 64, 128 + k / 64 % 64, 128 + k % 64]);
    }
  }

  /** Bytes stored one after the other. */
  method Put(heap: array<byte>, c: nat, bytes: seq<byte>) returns (next: nat)
    modifies heap
    ensures next == c + |bytes| && heap[..] == Patch(old(heap[..]), c, bytes)
  {
    ghost var mem := heap[..];
    next := c;
    for i := 0 to |bytes|
      invariant next == c + i
      invariant forall j :: 0 <= j < heap.Length ==> heap[j] == if c <= j < next then bytes[j - c] else mem[j]
    {
      if next < heap.Length {
        heap[next] := bytes[i];
      }
      next := next + 1;
    }
  }

  // ---------------------------------------------------------------- decoding

  /** A byte of the heap; reading past its end gives 0, as `undefined & 63` does. */
  function At(a: seq<byte>, i: nat): nat {
    if i < |a| then a[i] else 0
  }

  /** The value and length of the sequence at `b`, by the top bits of its first byte. */
  function DecodeAt(a: seq<byte>, b: nat): (r: (nat, nat))
    requires b < |a|
    ensures r.0 < 0x20_0000 && 1 <= r.1 <= 4
  {
    var e: nat := a[b];
    var g, k, l := At(a, b + 1) % 64, At(a, b + 2) % 64, At(a, b + 3) % 64;
    if e < 128 then (e, 1)
    else if e / 32 == 6 then (e % 32 * 64 + g, 2)
    else if e / 16 == 14 then (e % 16 * 4096 + g * 64 + k, 3)
    else (e % 8 * 0x4_0000 + g * 4096 + k * 64 + l, 4)
  }

  /** The units pushed for a decoded value. */
  function Pushed(k: nat): seq<Unit>
    requires k < 0x20_0000
  {
    if k < 0x1_0000 then [k] else [0xD800 + (k - 0x1_0000) / 1024, 0xDC00 + (k - 0x1_0000) % 1024]
  }

  /** The text from `b` on: up to `end`, a NUL or the end of the heap. */
  function DecodeFrom(a: seq<byte>, b: nat, end: nat): seq<Unit>
    decreases end - b
  {
    if b >= end || At(a, b) == 0 then [] else Pushed(DecodeAt(a, b).0) + DecodeFrom(a, b + DecodeAt(a, b).1, end)
  }

  /** `Ja`: at most `count` bytes from `start` on, up to a NUL; a count past the heap is no limit. */
  method Load(heap: seq<byte>, start: nat, count: nat) returns (s: seq<Unit>)
    ensures s == DecodeFrom(heap, start, start + count)
  {
    hide DecodeAt, Pushed;
    var b, end := start, start + count;
    s := [];
    while b < end
      invariant s + DecodeFrom(heap, b, end) == DecodeFrom(heap, start, end)
      decreases end - b
    {
      if b >= |heap| || heap[b] == 0 {
        break;
      }
      var (k, units) := DecodeAt(heap, b);
      assert (s + Pushed(k)) + DecodeFrom(heap, b + units, end) == s + (Pushed(k) + DecodeFrom(heap, b + units, end));
      s := s + Pushed(k);
      b := b + units;
    }
    assert s + [] == s;
  }

  /** The value and length read from four bytes that start a sequence. */
  function DecodeBytes(e: nat, b1: nat, b2: nat, b3: nat): (r: (nat, nat))
    requires e < 256
  {
    var g, k, l := b1 % 64, b2 % 64, b3 % 64;
    if e < 128 then (e, 1)
    else if e / 32 == 6 then (e % 32 * 64 + g, 2)
    else if e / 16 == 14 then (e % 16 * 4096 + g * 64 + k, 3)
    else (e % 8 * 0x4_0000 + g * 4096 + k * 64 + l, 4)
  }

  lemma DecodeAtBytes(a: seq<byte>, b: nat)
    requires b < |a|
    ensures DecodeAt(a, b) == DecodeBytes(a[b], At(a, b + 1), At(a, b + 2), At(a, b + 3))
  {
  }

  lemma DecodeTwo(k: nat, x: nat, y: nat)
    requires 0x7F < k <= 0x7FF
    ensures DecodeBytes(192 + k / 64, 128 + k % 64, x, y) == (k, 2)
  {
  }

  /** The six-bit digits of a number below 2^21. */
  lemma Digits(k: nat)
    requires k < 0x20_0000
    ensures k / 4096 < 512 && k == k / 4096 * 4096 + k / 64 % 64 * 64 + k % 64
  {
    var q := k / 64;
    assert k / 4096 == q / 64;
  }

  lemma DecodeThree(k: nat, x: nat)
    requires 0x7FF < k <= 0xFFFF
    ensures DecodeBytes(224 + k / 4096, 128 + k / 64 % 64, 128 + k % 64, x) == (k, 3)
  {
    hide DecodeBytes;
    Digits(k);
    ReadThree(k / 4096, k / 64 % 64, k % 64, x);
  }

  lemma ReadThree(a: nat, b: nat, c: nat, x: nat)
    requires a < 16 && b < 64 && c < 64
    ensures DecodeBytes(224 + a, 128 + b, 128 + c, x) == (a * 4096 + b * 64 + c, 3)
  {
  }

  lemma DecodeFour(k: nat)
    requires 0xFFFF < k <= 0x10FFFF
    ensures DecodeBytes(240 + k / 0x4_0000, 128 + k / 4096 % 64, 128 + k / 64 % 64, 128 + k % 64) == (k, 4)
  {
    hide DecodeBytes;
    Digits(k);
    var q := k / 4096;
    assert k / 0x4_0000 == q / 64;
    ReadFour(q / 64, q % 64, k / 64 % 64, k % 64);
  }

  lemma ReadFour(a: nat, b: nat, c: nat, d: nat)
    requires a < 8 && b < 64 && c < 64 && d < 64
    ensures DecodeBytes(240 + a, 128 + b, 128 + c, 128 + d) == (a * 0x4_0000 + b * 4096 + c * 64 + d, 4)
  {
  }

  /** The bytes of a code point decode to it, wherever they stand. */
  lemma DecodeEncode(a: seq<byte>, b: nat, k: nat)
    requires 0 < k <= 0x10FFFF && b + |Encode(k)| <= |a| && a[b..b + |Encode(k)|] == Encode(k)
    ensures DecodeAt(a, b) == (k, |Encode(k)|) && a[b] != 0
  {
    hide DecodeAt, DecodeBytes;
    DecodeAtBytes(a, b);
    var e := Encode(k);
    var c := a[b..b + |e|];
    assert a[b] == c[0] && (|e| > 1 ==> a[b + 1] == c[1]) && (|e| > 2 ==> a[b + 2] == c[2]) && (|e| > 3 ==> a[b + 3] == c[3]);
    if k <= 0x7F {
      DecodeOne(k, At(a, b + 1), At(a, b + 2), At(a, b + 3));
    } else if k <= 0x7FF {
      DecodeTwo(k, At(a, b + 2), At(a, b + 3));
    } else if k <= 0xFFFF {
      DecodeThree(k, At(a, b + 3));
    } else {
      DecodeFour(k);
    }
  }

  lemma DecodeOne(k: nat, x: nat, y: nat, z: nat)
    requires k <= 0x7F
    ensures DecodeBytes(k, x, y, z) == (k, 1)
  {
  }

  lemma PushedIsUnits(k: nat)
    requires k <= 0x10FFFF
    ensures Pushed(k) == Units(k)
  {
  }

  lemma LoadStep(a: seq<byte>, b: nat, end: nat, ks: seq<nat>)
    requires forall i :: 0 <= i < |ks| ==> ks[i] <= 0x10FFFF
    ensures DecodeFrom(a, b, end) ==
      if b >= end || At(a, b) == 0 then [] else Pushed(DecodeAt(a, b).0) + DecodeFrom(a, b + DecodeAt(a, b).1, end)
    ensures AllUnits(ks) == if |ks| == 0 then [] else Units(ks[0]) + AllUnits(ks[1..])
  {
    hide DecodeAt, Pushed, Units;
  }

  lemma {:induction false} LoadAll(a: seq<byte>, b: nat, end: nat, ks: seq<nat>)
    requires forall i :: 0 <= i < |ks| ==> 0 < ks[i] <= 0x10FFFF
    requires b + |EncodeAll(ks)| <= end && b + |EncodeAll(ks)| <= |a| && a[b..b + |EncodeAll(ks)|] == EncodeAll(ks)
    requires b + |EncodeAll(ks)| < end ==> At(a, b + |EncodeAll(ks)|) == 0
    ensures DecodeFrom(a, b, end) == AllUnits(ks)
    decreases |ks|
  {
    hide Encode, DecodeAt, Pushed, Units, DecodeFrom, AllUnits;
    LoadStep(a, b, end, ks);
    if |ks| > 0 {
      var n := |Encode(ks[0])|;
      var all := EncodeAll(ks);
      assert all[..n] == Encode(ks[0]) && all[n..] == EncodeAll(ks[1..]);
      assert a[b..b + n] == a[b..b + |all|][..n];
      assert a[b + n..b + |all|] == a[b..b + |all|][n..];
      DecodeEncode(a, b, ks[0]);
      PushedIsUnits(ks[0]);
      LoadAll(a, b + n, end, ks[1..]);
    }
  }

  lemma {:induction false} PointsNotNul(s: seq<Unit>)
    requires 0 !in s
    ensures forall i :: 0 <= i < |Points(s)| ==> Points(s)[i] > 0
    decreases |s|
  {
    if |s| > 0 {
      PointsNotNul(s[PointAt(s).1..]);
    }
  }

  lemma FitsWhole(ks: seq<nat>, room: nat)
    requires forall i :: 0 <= i < |ks| ==> ks[i] <= 0x10FFFF
    requires |EncodeAll(ks)| <= room
    ensures ks[..Fitting(ks, room)] == ks
  {
    assert ks[..|ks|] == ks;
    FittingIsLongest(ks, room, |ks|);
  }

  /**
    The round trip: a well-formed string without NUL, stored with room for all of it, is loaded back
    from any count of bytes that covers it.
   */
  lemma {:induction false} StoreLoad(s: seq<Unit>, mem: seq<byte>, start: nat, limit: nat, count: nat)
    requires WellFormed(s) && 0 !in s && |EncodeAll(Points(s))| < limit && start + |EncodeAll(Points(s))| <= |mem|
    requires |EncodeAll(Points(s))| <= count
    ensures var bytes := EncodeAll(Points(s)[..Fitting(Points(s), limit - 1)]);
      DecodeFrom(Patch(mem, start, bytes + [0]), start, start + count) == s
  {
    hide EncodeAll, Points, DecodeFrom, AllUnits, Patch;
    var ks := Points(s);
    FitsWhole(ks, limit - 1);
    PointsNotNul(s);
    var bytes := EncodeAll(ks);
    var heap := Patch(mem, start, bytes + [0]);
    assert heap[start..start + |bytes|] == bytes;
    LoadAll(heap, start, start + count, ks);
    UnitsOfPoints(s);
  }

  // ---------------------------------------------------------------- any bytes

  /**
    Bytes that are not UTF-8 are read too. The first byte decides how many are taken: one below 0x80,
    two and three for the leads of such sequences, and four for any other, a stray continuation byte
    included; of the others the low six bits count, and what is missing behind the heap is zero.
   */
  lemma AnyBytes(a: seq<byte>, b: nat)
    requires b < |a|
    ensures DecodeAt(a, b).1 == if a[b] < 0x80 then 1 else if 0xC0 <= a[b] < 0xE0 then 2 else if 0xE0 <= a[b] < 0xF0 then 3 else 4
    ensures var (k, n) := DecodeAt(a, b);
      && (n == 1 ==> k == a[b])
      && (n > 1 ==> k % 64 == At(a, b + n - 1) % 64)
      && (n > 2 ==> k / 64 % 64 == At(a, b + n - 2) % 64)
      && (n > 3 ==> k / 4096 % 64 == At(a, b + 1) % 64)
      && (n == 2 ==> k / 64 == a[b] - 0xC0) && (n == 3 ==> k / 4096 == a[b] - 0xE0) && (n == 4 ==> k / 0x4_0000 == a[b] % 8)
  {
    var x, g, k, l := a[b] as int, At(a, b + 1) % 64, At(a, b + 2) % 64, At(a, b + 3) % 64;
    if 0xE0 <= x < 0xF0 {
      SixBits(x % 16 * 64 + g, k);
      SixBits(x % 16, g);
    } else if x >= 0x80 && !(0xC0 <= x < 0xE0) {
      SixBits((x % 8 * 64 + g) * 64 + k, l);
      SixBits(x % 8 * 64 + g, k);
      SixBits(x % 8, g);
      Quarter(x % 8, g, k, l);
    }
  }

  lemma SixBits(hi: nat, low: nat)
    requires low < 64
    ensures (hi * 64 + low) / 64 == hi && (hi * 64 + low) % 64 == low
  {
  }

  lemma Quarter(x: nat, g: nat, k: nat, l: nat)
    requires x < 8 && g < 64 && k < 64 && l < 64
    ensures var v := x * 0x4_0000 + g * 4096 + k * 64 + l;
      v / 64 == (x * 64 + g) * 64 + k && v / 4096 == x * 64 + g && v / 0x4_0000 == x && v % 64 == l
  {
  }

  lemma SameAt(a: seq<byte>, b: nat, n: nat)
    requires b < |a|
    ensures DecodeAt(a, b) == DecodeAt(a + Zeros(n), b)
  {
    var c := a + Zeros(n);
    assert forall i: nat {:trigger At(a, i)} :: At(a, i) == At(c, i);
  }

  /** Reading stops where the heap ends, as if zeros followed it. */
  lemma {:induction false} ZerosFollow(a: seq<byte>, b: nat, end: nat, n: nat)
    ensures DecodeFrom(a, b, end) == DecodeFrom(a + Zeros(n), b, end)
    decreases end - b
  {
    hide DecodeAt, Pushed;
    var c := a + Zeros(n);
    assert At(a, b) == At(c, b);
    if b < end && At(a, b) != 0 {
      SameAt(a, b, n);
      ZerosFollow(a, b + DecodeAt(a, b).1, end, n);
    }
  }

  /** A value beyond the last code point still becomes two units, which read back as another. */
  lemma BeyondPlanes(k: nat)
    requires k < 0x20_0000
    ensures |Pushed(k)| == (if k < 0x1_0000 then 1 else 2)
    ensures k >= 0x1_0000 ==> Surrogate(Pushed(k)[0]) && (PointAt(Pushed(k)).0 == k <==> k <= 0x10FFFF)
  {
  }
}
