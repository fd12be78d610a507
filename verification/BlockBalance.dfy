/**
  Decoding and then releasing: which blocks are freed, and exactly when one is lost.
 */
module BlockBalance {
  import opened Bytes
  import opened Wire
  import opened Message
  import opened DecodeSpec
  import opened Ownership
  import opened ReleaseBlocks
  import opened StoredBlocks
  import opened DefaultBlocks
  import opened DecodeBlocks

  // ---------------------------------------------------------------- one fixed-count item

  /**
    A fixed-count item is decoded on top of whatever its slot holds, and pb_decode first sets the
    defaults there: exactly the blocks whose pointers these overwrite are lost, besides those lost after that.
   */
  lemma {:induction false} FixedItemLoses(f: Field, wt: nat, bs: seq<byte>, c: Cell, k: nat, h: Heap, p: nat)
    requires SoundField(f) && f.htype.FixedCount? && f.ltype.LSubmessage?
    requires c.Fixed? && k < f.arraySize && k < |c.items| && c.items[k].Sub? && DecString(bs).Ok?
    ensures var o := DecodeFixed(f, wt, bs, c, k, h);
      var fields, mem := f.ltype.ptr, c.items[k].mem;
      && |o.drops| > 0
      && Live(o.heap, p) - DataOwns(f, o.val.0, Stored, p) == Live(h, p) - DataOwns(f, c, Stored, p) + Lost(o.drops[1..], p)
        + (Owns(fields, mem, Stored, p) - Owns(fields, SetDefaults(fields, mem), Stored, p))
  {
    hide Live, Sound, DecString, Owns, Pointers, SetDefaults, MergeStruct, ItemsOwn, DataOwns, Release, Cuts;
    DecodeFixedKeeps(f, wt, bs, c, k, h, p);
    var fields, mem := f.ltype.ptr, c.items[k].mem;
    var o := DecodeStruct(fields, DecString(bs).val, mem, h);
    assert o.drops[0] == Reset(fields, mem);
    PointersAre(fields, mem, Stored, p);
    PointersAre(fields, SetDefaults(fields, mem), Stored, p);
  }

  // ---------------------------------------------------------------- runs that lose nothing

  /** All storage that was given up had its pointers released or kept. */
  predicate Clean(ds: seq<Drop>) {
    forall d :: d in ds ==> Kept(d)
  }

  /** No count was written over part of a pointer: what that leaves is no pointer, and has no meaning in C. */
  predicate Whole(ds: seq<Drop>) {
    forall d :: d in ds ==> !d.cut
  }

  /** Pointers are left in the storage of arrays beyond their counts, where pb_release does not look. */
  predicate Stranded(fields: seq<Field>, mem: Mem) {
    Pointers(fields, mem, Counted) != Pointers(fields, mem, Stored)
  }

  lemma GoneIffNotKept(d: Drop)
    requires forall p: nat :: Gone(d, p) >= 0
    ensures Kept(d) <==> forall p: nat :: Gone(d, p) == 0
  {
    var after := d.freed + d.after;
    assert forall p: nat :: after[p] == d.freed[p] + d.after[p];
    if forall p: nat :: Gone(d, p) == 0 {
      forall p: nat
        ensures d.before[p] == after[p]
      {
        assert Gone(d, p) == 0;
      }
    }
  }

  lemma {:induction false} CleanLosesNothing(ds: seq<Drop>, p: nat)
    requires Clean(ds)
    ensures Lost(ds, p) == 0
    decreases |ds|
  {
    if |ds| > 0 {
      assert ds[0] in ds && forall d :: d in ds[1..] ==> d in ds;
      CleanLosesNothing(ds[1..], p);
    }
  }

  lemma {:induction false} LostIsNotNegative(ds: seq<Drop>, p: nat)
    requires Fair(ds, p)
    ensures Lost(ds, p) >= 0
    ensures forall d :: d in ds ==> Lost(ds, p) >= Gone(d, p)
    decreases |ds|
  {
    hide Gone, Kept;
    if |ds| > 0 {
      assert forall i :: 0 <= i < |ds[1..]| ==> ds[1..][i] == ds[i + 1];
      LostIsNotNegative(ds[1..], p);
      assert ds == [ds[0]] + ds[1..];
    }
  }

  lemma {:induction false} UncleanLoses(ds: seq<Drop>) returns (p: nat)
    requires !Clean(ds) && forall p: nat :: Fair(ds, p)
    ensures Lost(ds, p) > 0
  {
    hide Gone, Kept, Lost;
    var d :| d in ds && !Kept(d);
    forall q: nat
      ensures Gone(d, q) >= 0
    {
      assert Fair(ds, q);
    }
    GoneIffNotKept(d);
    p :| Gone(d, p) != 0;
    assert Fair(ds, p);
    LostIsNotNegative(ds, p);
  }

  lemma CleanIsWhole(ds: seq<Drop>)
    requires Clean(ds) && Fair(ds, 0)
    ensures Whole(ds)
  {
    hide Gone, Kept;
  }

  // ---------------------------------------------------------------- decode, then release

  /** Block `p` is obtained and freed equally often between two states of the heap. */
  predicate Balanced(h: Heap, h1: Heap, p: nat) {
    Live(h1, p) == Live(h, p)
  }

  /**
    Any bytes, decoded into a struct of zeros with any allocations refused, then released: what
    stays live are exactly the blocks lost with storage that was given up, and those that arrays
    hold beyond their counts. If the decoding fails this already holds without the call to
    pb_release. A second release frees nothing.
   */
  lemma {:induction false} DecodeThenRelease(fields: seq<Field>, bs: seq<byte>, h: Heap, p: nat)
    requires Sound(fields)
    ensures var o := DecodeStruct(fields, bs, Blank(fields), h);
      var (m1, h1) := Release(fields, o.val, o.heap);
      && Live(h1, p) == Live(h, p) + Lost(o.drops, p) + (Owns(fields, o.val, Stored, p) - Owns(fields, o.val, Counted, p))
      && Owns(fields, o.val, Stored, p) >= Owns(fields, o.val, Counted, p) && Fair(o.drops, p)
      && Owns(fields, m1, Counted, p) == 0
      && (o.rest.None? ==> Balanced(h1, o.heap, p) && Owns(fields, o.val, Counted, p) == 0)
      && Release(fields, m1, h1).1 == h1
  {
    hide Live, Sound, Owns, DecodeStruct, Release, Blank, Lost, Fair;
    BlankOwns(fields, p);
    DecodeKeeps(fields, bs, Blank(fields), h, p);
    var o := DecodeStruct(fields, bs, Blank(fields), h);
    ReleaseFrees(fields, o.val, o.heap, p);
    ReleaseLeaves(fields, o.val, o.heap, p);
    var (m1, h1) := Release(fields, o.val, o.heap);
    forall q: nat
      ensures Owns(fields, m1, Counted, q) == 0
    {
      ReleaseFrees(fields, o.val, o.heap, q);
    }
    ReleaseNothing(fields, m1, h1);
  }

  /**
    Decoding and releasing balances every block if and only if no storage was given up with a
    pointer in it and none is left in array storage beyond the counts. Such a run cuts no pointer.
   */
  lemma {:induction false} BalancesIffClean(fields: seq<Field>, bs: seq<byte>, h: Heap)
    requires Sound(fields)
    ensures var o := DecodeStruct(fields, bs, Blank(fields), h);
      var h1 := Release(fields, o.val, o.heap).1;
      && ((forall p: nat :: Balanced(h, h1, p)) <==> Clean(o.drops) && !Stranded(fields, o.val))
      && (Clean(o.drops) ==> Whole(o.drops))
  {
    hide Live, Sound, Owns, Pointers, DecodeStruct, Release, Blank, Lost, Clean, Whole, Fair;
    var o := DecodeStruct(fields, bs, Blank(fields), h);
    var h1 := Release(fields, o.val, o.heap).1;
    forall p: nat
      ensures Fair(o.drops, p)
    {
      DecodeThenRelease(fields, bs, h, p);
    }
    if !Clean(o.drops) {
      var p := UncleanLoses(o.drops);
      DecodeThenRelease(fields, bs, h, p);
      assert !Balanced(h, h1, p);
    } else {
      assert Fair(o.drops, 0);
      CleanIsWhole(o.drops);
      if Stranded(fields, o.val) {
        var p := StrandedBlock(fields, o.val);
        CleanBalances(fields, bs, h, p);
        assert !Balanced(h, h1, p);
      } else {
        forall p: nat
          ensures Balanced(h, h1, p)
        {
          CleanBalances(fields, bs, h, p);
        }
      }
    }
  }

  lemma CleanBalances(fields: seq<Field>, bs: seq<byte>, h: Heap, p: nat)
    requires Sound(fields) && Clean(DecodeStruct(fields, bs, Blank(fields), h).drops)
    ensures var o := DecodeStruct(fields, bs, Blank(fields), h);
      var h1 := Release(fields, o.val, o.heap).1;
      Balanced(h, h1, p) <==> Pointers(fields, o.val, Counted)[p] == Pointers(fields, o.val, Stored)[p]
  {
    hide Live, Sound, Owns, Pointers, DecodeStruct, Release, Blank, Lost, Clean, Fair;
    var o := DecodeStruct(fields, bs, Blank(fields), h);
    DecodeThenRelease(fields, bs, h, p);
    CleanLosesNothing(o.drops, p);
    PointersAre(fields, o.val, Counted, p);
    PointersAre(fields, o.val, Stored, p);
  }

  lemma StrandedBlock(fields: seq<Field>, mem: Mem) returns (p: nat)
    requires Stranded(fields, mem)
    ensures Pointers(fields, mem, Counted)[p] != Pointers(fields, mem, Stored)[p]
  {
    hide Pointers;
    var a, b := Pointers(fields, mem, Counted), Pointers(fields, mem, Stored);
    SameCounts(a, b);
    p :| a[p] != b[p];
  }

  lemma SameCounts(a: multiset<nat>, b: multiset<nat>)
    ensures a == b <==> forall p: nat :: a[p] == b[p]
  {
  }

  predicate FreedOnce(h: Heap, p: nat) {
    Times(h.frees, p) == if 1 <= p <= h.got then 1 else 0
  }

  /**
    On a heap of its own: unless a pointer was cut, no block is freed twice and nothing else is
    freed; and the calls to free are exactly the blocks that were obtained if and only if the run
    is clean and strands nothing.
   */
  lemma {:induction false} EachBlockFreedOnce(fields: seq<Field>, bs: seq<byte>, refusals: seq<bool>)
    requires Sound(fields)
    ensures var o := DecodeStruct(fields, bs, Blank(fields), Heap(0, [], refusals));
      var h1 := Release(fields, o.val, o.heap).1;
      && (Whole(o.drops) ==> forall p: nat :: Times(h1.frees, p) <= if 1 <= p <= h1.got then 1 else 0)
      && ((forall p: nat :: FreedOnce(h1, p)) <==> Clean(o.drops) && !Stranded(fields, o.val))
  {
    hide Sound, Owns, Pointers, DecodeStruct, Release, Blank, Lost, Fair, Clean, Whole, Times, Stranded;
    var h := Heap(0, [], refusals);
    var o := DecodeStruct(fields, bs, Blank(fields), h);
    var h1 := Release(fields, o.val, o.heap).1;
    forall p: nat
      ensures FreedOnce(h1, p) <==> Balanced(h, h1, p)
      ensures Times(h1.frees, p) <= if 1 <= p <= h1.got then 1 else 0
    {
      DecodeThenRelease(fields, bs, h, p);
      LostIsNotNegative(o.drops, p);
      NoTimes(p);
    }
    BalancesIffClean(fields, bs, h);
  }

  lemma NoTimes(p: nat)
    ensures Times([], p) == 0
  {
  }
}
