/**
  The hash table of directory entries (`N.Cf`, `Sg`, `zh`, `Ah`, `Bf` in the minified source): the
  nodes of the file system, chained by a hash of their parent's id and their name.
  Node objects are identified by their ids; 0 stands for no node.
 */
module NodeTable {
  import opened Bytes

  /** A file has its contents array only while it is not empty. */
  datatype Kind = Dir | File(filled: bool)

  /**
    `next` is the following node in its chain; `entries` is the directory's own map, a script object.
    Writing its entry `__proto__` sets the object's prototype, which deleting that entry does not
    undo: `proto` says whether that happened.
   */
  datatype Node = Node(parent: nat, name: string, kind: Kind, next: nat, entries: map<string, nat>, proto: bool)

  type Nodes = map<nat, Node>

  const BUCKETS: nat := 4096

  // ---------------------------------------------------------------- the hash

  /** `x | 0`. */
  function ToInt32(x: int): (r: int)
    ensures -0x8000_0000 <= r < 0x8000_0000 && (x - r) % TWO_32 == 0
  {
    var u := x % TWO_32;
    if u < 0x8000_0000 then u else u - TWO_32
  }

  /** The hash of a name in 32-bit arithmetic. */
  function NameHash(s: string): int
    decreases |s|
  {
    if |s| == 0 then 0
    else
      var c := NameHash(s[..|s| - 1]);
      ToInt32(ToInt32(32 * c) - c + s[|s| - 1] as int)
  }

  function Bucket(parent: nat, name: string): (b: nat)
    ensures b < BUCKETS
  {
    (parent + NameHash(name)) % TWO_32 % BUCKETS
  }

  /** The name read as the digits of a number in base 31. */
  function Polynomial(s: string): nat
    decreases |s|
  {
    if |s| == 0 then 0 else 31 * Polynomial(s[..|s| - 1]) + s[|s| - 1] as int
  }

  lemma {:induction false} NameHashIsPolynomial(s: string)
    ensures (NameHash(s) - Polynomial(s)) % TWO_32 == 0
    decreases |s|
  {
    if |s| > 0 {
      var t := s[..|s| - 1];
      NameHashIsPolynomial(t);
      Congruent(NameHash(t), Polynomial(t), s[|s| - 1] as int);
    }
  }

  lemma Congruent(c: int, q: int, x: int)
    requires (c - q) % TWO_32 == 0
    ensures (ToInt32(ToInt32(32 * c) - c + x) - (31 * q + x)) % TWO_32 == 0
  {
    hide ToInt32;
    var k := (c - q) / TWO_32;
    var a := ToInt32(32 * c);
    var i := (32 * c - a) / TWO_32;
    var b := ToInt32(a - c + x);
    var j := (a - c + x - b) / TWO_32;
    assert c - q == TWO_32 * k && 32 * c - a == TWO_32 * i && a - c + x - b == TWO_32 * j;
    assert b - (31 * q + x) == TWO_32 * (31 * k - i - j);
    Multiple(31 * k - i - j);
  }

  lemma Multiple(k: int)
    ensures (TWO_32 * k) % TWO_32 == 0
  {
  }

  /** Wrap-around does not disturb the bucket: it is that of exact arithmetic. */
  lemma {:induction false} BucketIsExact(parent: nat, name: string)
    ensures Bucket(parent, name) == (parent + Polynomial(name)) % BUCKETS
  {
    hide NameHash, Polynomial;
    NameHashIsPolynomial(name);
    var h, q := NameHash(name), Polynomial(name);
    var k := (h - q) / TWO_32;
    var u := (parent + h) % TWO_32;
    var j := (parent + h) / TWO_32;
    assert u == parent + q + TWO_32 * (k - j);
    SameResidue(parent + q, k - j);
  }

  lemma SameResidue(x: nat, k: int)
    requires x + TWO_32 * k >= 0
    ensures (x + TWO_32 * k) % BUCKETS == x % BUCKETS
  {
    var m := 0x10_0000 * k;
    var y := x + TWO_32 * k;
    assert y == x + BUCKETS * m;
    assert y == BUCKETS * (x / BUCKETS + m) + x % BUCKETS by {
      assert x == BUCKETS * (x / BUCKETS) + x % BUCKETS;
    }
    Residue(y, x / BUCKETS + m, x % BUCKETS);
  }

  lemma Residue(y: int, q: int, r: nat)
    requires r < BUCKETS && y == BUCKETS * q + r
    ensures y % BUCKETS == r
  {
  }

  /** `Sg`. */
  method HashOf(parent: nat, name: string) returns (b: nat)
    ensures b == Bucket(parent, name)
  {
    var c := 0;
    var d := 0;
    while d < |name|
      invariant d <= |name| && c == NameHash(name[..d])
    {
      assert name[..d + 1][..d] == name[..d];
      c := ToInt32(ToInt32(32 * c) - c + name[d] as int);
      d := d + 1;
    }
    assert name[..d] == name;
    b := (parent + c) % TWO_32 % BUCKETS;
  }

  // ---------------------------------------------------------------- chains

  function BucketOf(n: Node): nat {
    Bucket(n.parent, n.name)
  }

  /** The links from `head` on run through `chain`. */
  predicate Chained(nodes: Nodes, head: nat, chain: seq<nat>)
    decreases |chain|
  {
    if |chain| == 0 then head == 0
    else head == chain[0] && head != 0 && head in nodes && Chained(nodes, nodes[head].next, chain[1..])
  }

  predicate Linked(nodes: Nodes, heads: seq<nat>, chains: seq<seq<nat>>) {
    && |heads| == |chains| == BUCKETS
    && forall b :: 0 <= b < BUCKETS ==> Chained(nodes, heads[b], chains[b])
  }

  predicate NoRepeats(chain: seq<nat>) {
    forall i, j :: 0 <= i < j < |chain| ==> chain[i] != chain[j]
  }

  /** Bucket `b` holds exactly its nodes, once each; `out` is in no chain. */
  ghost predicate FiledIn(nodes: Nodes, chain: seq<nat>, b: nat, out: nat) {
    && NoRepeats(chain)
    && forall n :: n in chain <==> n in nodes && n != out && BucketOf(nodes[n]) == b
  }

  ghost predicate Filed(nodes: Nodes, chains: seq<seq<nat>>, out: nat) {
    |chains| == BUCKETS && forall b :: 0 <= b < BUCKETS ==> FiledIn(nodes, chains[b], b, out)
  }

  /** The same nodes, but for their links. */
  predicate SameButLinks(a: Nodes, b: Nodes) {
    a.Keys == b.Keys && forall n :: n in a ==> a[n].(next := 0) == b[n].(next := 0)
  }

  lemma {:induction false} ChainedFrame(a: Nodes, b: Nodes, head: nat, chain: seq<nat>)
    requires Chained(a, head, chain)
    requires forall n :: n in chain && n in a ==> n in b && b[n].next == a[n].next
    ensures Chained(b, head, chain)
    decreases |chain|
  {
    if |chain| > 0 {
      assert chain[0] in chain;
      assert forall n :: n in chain[1..] ==> n in chain;
      ChainedFrame(a, b, a[head].next, chain[1..]);
    }
  }

  lemma {:induction false} ChainedMembers(nodes: Nodes, head: nat, chain: seq<nat>)
    requires Chained(nodes, head, chain)
    ensures forall n :: n in chain ==> n in nodes && n != 0
    decreases |chain|
  {
    if |chain| > 0 {
      ChainedMembers(nodes, nodes[head].next, chain[1..]);
    }
  }

  /** Where the links stand after `i` steps. */
  lemma {:induction false} ChainedAt(nodes: Nodes, head: nat, chain: seq<nat>, i: nat)
    requires Chained(nodes, head, chain) && i < |chain|
    ensures chain[i] in nodes && chain[i] != 0 && Chained(nodes, nodes[chain[i]].next, chain[i + 1..])
    ensures nodes[chain[i]].next == if i + 1 < |chain| then chain[i + 1] else 0
    decreases i
  {
    if i > 0 {
      ChainedAt(nodes, nodes[head].next, chain[1..], i - 1);
      assert chain[1..][i..] == chain[i + 1..];
    }
  }

  /** Linking `chain[i]` past its successor takes that one out. */
  lemma {:induction false} ChainedSkip(nodes: Nodes, head: nat, chain: seq<nat>, i: nat)
    requires Chained(nodes, head, chain) && NoRepeats(chain) && i + 1 < |chain| && chain[i] in nodes && chain[i + 1] in nodes
    ensures var skipped: Nodes := nodes[chain[i] := nodes[chain[i]].(next := nodes[chain[i + 1]].next)];
      Chained(skipped, head, chain[..i + 1] + chain[i + 2..])
    decreases i
  {
    var skipped: Nodes := nodes[chain[i] := nodes[chain[i]].(next := nodes[chain[i + 1]].next)];
    var rest := chain[..i + 1] + chain[i + 2..];
    if i == 0 {
      ChainedAt(nodes, head, chain, 1);
      ChainedFrame(nodes, skipped, nodes[chain[1]].next, chain[2..]);
      assert rest[1..] == chain[2..];
    } else {
      assert chain[1..][i - 1] == chain[i] && chain[1..][i] == chain[i + 1];
      ChainedSkip(nodes, nodes[head].next, chain[1..], i - 1);
      assert rest[1..] == chain[1..][..i] + chain[1..][i + 1..];
    }
  }

  // ---------------------------------------------------------------- frames

  /** The nodes without their links. */
  function Strip(nodes: Nodes): Nodes {
    map n | n in nodes :: nodes[n].(next := 0)
  }

  lemma StripSame(a: Nodes, b: Nodes)
    requires SameButLinks(a, b)
    ensures Strip(a) == Strip(b)
  {
  }

  /** Consistency reads the links, the parents and the names only. */
  lemma KeysFrame(a: Nodes, b: Nodes, heads: seq<nat>, chains: seq<seq<nat>>, out: nat)
    requires Linked(a, heads, chains) && Filed(a, chains, out) && a.Keys == b.Keys
    requires forall n :: n in a ==> b[n].next == a[n].next && (n != out ==> b[n].parent == a[n].parent && b[n].name == a[n].name)
    ensures Linked(b, heads, chains) && Filed(b, chains, out)
  {
    hide Bucket, NoRepeats, Chained;
    forall i | 0 <= i < BUCKETS
      ensures Chained(b, heads[i], chains[i])
    {
      ChainedFrame(a, b, heads[i], chains[i]);
    }
    forall i | 0 <= i < BUCKETS
      ensures FiledIn(b, chains[i], i, out)
    {
      assert FiledIn(a, chains[i], i, out);
    }
  }

  lemma NewFrame(a: Nodes, heads: seq<nat>, chains: seq<seq<nat>>, n: nat, x: Node)
    requires Linked(a, heads, chains) && Filed(a, chains, 0) && n !in a && 0 !in a
    ensures Linked(a[n := x], heads, chains) && Filed(a[n := x], chains, n)
  {
    hide Bucket, NoRepeats, Chained;
    forall i | 0 <= i < BUCKETS
      ensures Chained(a[n := x], heads[i], chains[i])
    {
      ChainedFrame(a, a[n := x], heads[i], chains[i]);
    }
    forall i | 0 <= i < BUCKETS
      ensures FiledIn(a[n := x], chains[i], i, n)
    {
      assert FiledIn(a, chains[i], i, 0);
    }
  }

  lemma DropFrame(a: Nodes, heads: seq<nat>, chains: seq<seq<nat>>, n: nat)
    requires Linked(a, heads, chains) && Filed(a, chains, n) && 0 !in a
    ensures Linked(a - {n}, heads, chains) && Filed(a - {n}, chains, 0)
  {
    hide Bucket, NoRepeats, Chained;
    forall i | 0 <= i < BUCKETS
      ensures Chained(a - {n}, heads[i], chains[i]) && FiledIn(a - {n}, chains[i], i, 0)
    {
      assert FiledIn(a, chains[i], i, n);
      ChainedFrame(a, a - {n}, heads[i], chains[i]);
    }
  }

  lemma FiledFrame(a: Nodes, b: Nodes, chains: seq<seq<nat>>, out: nat)
    requires Filed(a, chains, out) && SameButLinks(a, b)
    ensures Filed(b, chains, out)
  {
    hide Bucket, NoRepeats;
    forall i | 0 <= i < BUCKETS
      ensures FiledIn(b, chains[i], i, out)
    {
      assert FiledIn(a, chains[i], i, out);
      forall n | n in a
        ensures BucketOf(a[n]) == BucketOf(b[n])
      {
        assert a[n].(next := 0) == b[n].(next := 0);
      }
    }
  }

  /** The chains of other buckets do not see a change in links of this bucket's nodes. */
  lemma LinkedFrame(a: Nodes, b: Nodes, heads: seq<nat>, chains: seq<seq<nat>>, bucket: nat, head: nat, chain: seq<nat>)
    requires bucket < BUCKETS && Linked(a, heads, chains) && Chained(b, head, chain)
    requires forall i, n :: 0 <= i < BUCKETS && i != bucket && n in chains[i] && n in a ==> n in b && b[n].next == a[n].next
    ensures Linked(b, heads[bucket := head], chains[bucket := chain])
  {
    hide Chained;
    var heads1, chains1 := heads[bucket := head], chains[bucket := chain];
    forall i | 0 <= i < BUCKETS
      ensures Chained(b, heads1[i], chains1[i])
    {
      if i != bucket {
        ChainedFrame(a, b, heads[i], chains[i]);
      }
    }
  }

  lemma NotElsewhere(nodes: Nodes, chains: seq<seq<nat>>, out: nat, i: nat, n: nat)
    requires Filed(nodes, chains, out) && i < BUCKETS && n in chains[i]
    ensures n in nodes && n != out && BucketOf(nodes[n]) == i
  {
    hide Bucket, NoRepeats;
    assert FiledIn(nodes, chains[i], i, out);
  }

  // ---------------------------------------------------------------- adding and removing

  lemma AddLinked(nodes: Nodes, heads: seq<nat>, chains: seq<seq<nat>>, n: nat)
    requires Linked(nodes, heads, chains) && Filed(nodes, chains, n) && n in nodes && n != 0
    ensures var b := BucketOf(nodes[n]);
      Linked(nodes[n := nodes[n].(next := heads[b])], heads[b := n], chains[b := [n] + chains[b]])
  {
    hide Bucket, Filed;
    var b := BucketOf(nodes[n]);
    var after: Nodes := nodes[n := nodes[n].(next := heads[b])];
    forall i, m | 0 <= i < BUCKETS && m in chains[i]
      ensures m != n
    {
      NotElsewhere(nodes, chains, n, i, m);
    }
    ChainedFrame(nodes, after, heads[b], chains[b]);
    assert ([n] + chains[b])[1..] == chains[b];
    LinkedFrame(nodes, after, heads, chains, b, n, [n] + chains[b]);
  }

  lemma AddFiled(nodes: Nodes, chains: seq<seq<nat>>, n: nat)
    requires Filed(nodes, chains, n) && n in nodes && n != 0 && 0 !in nodes
    ensures var b := BucketOf(nodes[n]);
      Filed(nodes, chains[b := [n] + chains[b]], 0)
  {
    hide Bucket;
    var b := BucketOf(nodes[n]);
    var chains1 := chains[b := [n] + chains[b]];
    forall i | 0 <= i < BUCKETS
      ensures FiledIn(nodes, chains1[i], i, 0)
    {
      assert FiledIn(nodes, chains[i], i, n);
    }
  }

  function Without(chain: seq<nat>, n: nat): seq<nat> {
    if |chain| == 0 then []
    else if chain[0] == n then chain[1..]
    else [chain[0]] + Without(chain[1..], n)
  }

  lemma {:induction false} WithoutAt(chain: seq<nat>, i: nat)
    requires i < |chain| && forall j :: 0 <= j < i ==> chain[j] != chain[i]
    ensures Without(chain, chain[i]) == chain[..i] + chain[i + 1..]
    decreases i
  {
    if i > 0 {
      assert forall j :: 0 <= j < i - 1 ==> chain[1..][j] == chain[j + 1];
      WithoutAt(chain[1..], i - 1);
      assert chain[..i] == [chain[0]] + chain[1..][..i - 1];
    }
  }

  lemma RemoveFiled(nodes: Nodes, chains: seq<seq<nat>>, n: nat)
    requires Filed(nodes, chains, 0) && n in nodes && 0 !in nodes
    ensures var b := BucketOf(nodes[n]);
      n in chains[b] && NoRepeats(chains[b]) && Filed(nodes, chains[b := Without(chains[b], n)], n)
  {
    hide Bucket, Without, NoRepeats;
    var b := BucketOf(nodes[n]);
    assert FiledIn(nodes, chains[b], b, 0);
    var chains1 := chains[b := Without(chains[b], n)];
    forall i | 0 <= i < BUCKETS
      ensures FiledIn(nodes, chains1[i], i, n)
    {
      assert FiledIn(nodes, chains[i], i, 0);
      if i == b {
        WithoutMembers(chains[b], n);
      }
    }
  }

  lemma WithoutMembers(chain: seq<nat>, n: nat)
    requires NoRepeats(chain) && n in chain
    ensures NoRepeats(Without(chain, n))
    ensures forall m :: m in Without(chain, n) <==> m in chain && m != n
  {
    hide Without;
    var i :| 0 <= i < |chain| && chain[i] == n;
    WithoutAt(chain, i);
    CutNoRepeats(chain, i);
    CutMembers(chain, i);
  }

  lemma CutNoRepeats(chain: seq<nat>, i: nat)
    requires NoRepeats(chain) && i < |chain|
    ensures NoRepeats(chain[..i] + chain[i + 1..])
  {
    var rest := chain[..i] + chain[i + 1..];
    forall x, y | 0 <= x < y < |rest|
      ensures rest[x] != rest[y]
    {
      assert rest[x] == chain[if x < i then x else x + 1];
      assert rest[y] == chain[if y < i then y else y + 1];
    }
  }

  lemma CutMembers(chain: seq<nat>, i: nat)
    requires NoRepeats(chain) && i < |chain|
    ensures forall m :: m in chain[..i] + chain[i + 1..] <==> m in chain && m != chain[i]
  {
    var rest := chain[..i] + chain[i + 1..];
    forall m | m in rest
      ensures m in chain && m != chain[i]
    {
      var x :| 0 <= x < |rest| && rest[x] == m;
      assert m == chain[if x < i then x else x + 1];
    }
    forall m | m in chain && m != chain[i]
      ensures m in rest
    {
      var j :| 0 <= j < |chain| && chain[j] == m;
      assert rest[if j < i then j else j - 1] == m;
    }
  }

  // ---------------------------------------------------------------- lookup

  /** The first node of a chain with the given parent and name; 0 if there is none. */
  function FirstMatch(nodes: Nodes, chain: seq<nat>, parent: nat, name: string): (r: nat)
    ensures r != 0 ==> r in chain && r in nodes && nodes[r].parent == parent && nodes[r].name == name
  {
    if |chain| == 0 then 0
    else if chain[0] in nodes && nodes[chain[0]].parent == parent && nodes[chain[0]].name == name then chain[0]
    else FirstMatch(nodes, chain[1..], parent, name)
  }

  lemma {:induction false} FirstMatchExists(nodes: Nodes, chain: seq<nat>, parent: nat, name: string, n: nat)
    requires n in chain && n in nodes && nodes[n].parent == parent && nodes[n].name == name
    requires 0 !in nodes
    ensures FirstMatch(nodes, chain, parent, name) != 0
    decreases |chain|
  {
    if chain[0] != n {
      assert n in chain[1..];
      FirstMatchExists(nodes, chain[1..], parent, name, n);
    }
  }

  // ---------------------------------------------------------------- steps of the removal

  ghost function IndexIn(chain: seq<nat>, n: nat): (i: nat)
    requires n in chain && NoRepeats(chain)
    ensures i < |chain| && chain[i] == n && forall j :: 0 <= j < i ==> chain[j] != n
  {
    var i :| 0 <= i < |chain| && chain[i] == n;
    i
  }

  lemma SameIndex(chain: seq<nat>, i: nat, j: nat)
    requires NoRepeats(chain) && i < |chain| && j < |chain| && chain[i] == chain[j]
    ensures i == j
  {
  }

  lemma ChainOf(nodes: Nodes, heads: seq<nat>, chains: seq<seq<nat>>, b: nat)
    requires Linked(nodes, heads, chains) && b < BUCKETS
    ensures |heads| == |chains| == BUCKETS && Chained(nodes, heads[b], chains[b])
  {
  }

  lemma HeadOf(nodes: Nodes, head: nat, chain: seq<nat>)
    requires Chained(nodes, head, chain) && |chain| > 0
    ensures head == chain[0] && head in nodes
  {
  }

  lemma RemoveHead(nodes: Nodes, heads: seq<nat>, chains: seq<seq<nat>>, b: nat, i: nat)
    requires Linked(nodes, heads, chains) && b < BUCKETS && i < |chains[b]| && heads[b] == chains[b][i] && NoRepeats(chains[b])
    requires heads[b] in nodes
    ensures Linked(nodes, heads[b := nodes[heads[b]].next], chains[b := chains[b][..i] + chains[b][i + 1..]])
  {
    var chain := chains[b];
    HeadOf(nodes, heads[b], chain);
    SameIndex(chain, 0, i);
    assert chain[..0] + chain[1..] == chain[1..];
    LinkedFrame(nodes, nodes, heads, chains, b, nodes[heads[b]].next, chain[1..]);
  }

  lemma RemoveBehind(nodes: Nodes, heads: seq<nat>, chains: seq<seq<nat>>, b: nat, k: nat)
    requires Linked(nodes, heads, chains) && Filed(nodes, chains, 0) && b < BUCKETS && k + 1 < |chains[b]|
    requires chains[b][k] in nodes && chains[b][k + 1] in nodes
    ensures var p, n := chains[b][k], chains[b][k + 1];
      Linked(nodes[p := nodes[p].(next := nodes[n].next)], heads, chains[b := chains[b][..k + 1] + chains[b][k + 2..]])
  {
    hide Bucket, Filed, Chained;
    var chain := chains[b];
    var p, n := chain[k], chain[k + 1];
    var after: Nodes := nodes[p := nodes[p].(next := nodes[n].next)];
    NoRepeatsIn(nodes, chains, 0, b);
    NotElsewhere(nodes, chains, 0, b, p);
    forall i, m | 0 <= i < BUCKETS && i != b && m in chains[i]
      ensures m != p
    {
      NotElsewhere(nodes, chains, 0, i, m);
    }
    ChainedSkip(nodes, heads[b], chain, k);
    LinkedFrame(nodes, after, heads, chains, b, heads[b], chain[..k + 1] + chain[k + 2..]);
    assert heads[b := heads[b]] == heads;
  }

  lemma NoRepeatsIn(nodes: Nodes, chains: seq<seq<nat>>, out: nat, b: nat)
    requires Filed(nodes, chains, out) && b < BUCKETS
    ensures NoRepeats(chains[b])
  {
    assert FiledIn(nodes, chains[b], b, out);
  }

  lemma {:induction false} FirstMatchWithout(nodes: Nodes, chain: seq<nat>, parent: nat, name: string, n: nat)
    requires FirstMatch(nodes, chain, parent, name) != n
    ensures FirstMatch(nodes, Without(chain, n), parent, name) == FirstMatch(nodes, chain, parent, name)
    decreases |chain|
  {
    if |chain| > 0 && chain[0] != n {
      assert Without(chain, n)[1..] == Without(chain[1..], n);
      if !(chain[0] in nodes && nodes[chain[0]].parent == parent && nodes[chain[0]].name == name) {
        FirstMatchWithout(nodes, chain[1..], parent, name, n);
      }
    }
  }

  class Table {
    var nodes: Nodes
    var heads: seq<nat>
    ghost var chains: seq<seq<nat>>

    /** Every node but `out` is in exactly one chain, the one for its parent and name. */
    ghost predicate Consistent(out: nat)
      reads this
    {
      0 !in nodes && Linked(nodes, heads, chains) && Filed(nodes, chains, out)
    }

    constructor ()
      ensures Consistent(0) && nodes == map[]
    {
      nodes := map[];
      heads := seq(BUCKETS, _ => 0);
      chains := seq(BUCKETS, _ => []);
    }

    /** A new node object, in no chain yet. */
    method New(n: nat, x: Node)
      requires Consistent(0) && n !in nodes && n != 0
      modifies `nodes
      ensures Consistent(n) && nodes == old(nodes)[n := x]
    {
      NewFrame(nodes, heads, chains, n, x);
      nodes := nodes[n := x];
    }

    /** A node that is in no chain is forgotten. */
    method Forget(n: nat)
      requires Consistent(n)
      modifies `nodes
      ensures Consistent(0) && nodes == old(nodes) - {n}
    {
      DropFrame(nodes, heads, chains, n);
      nodes := nodes - {n};
    }

    /** Any change to a node that leaves its link, and while it is in a chain its parent and name. */
    method Set(n: nat, x: Node, ghost out: nat)
      requires Consistent(out) && n in nodes && x.next == nodes[n].next
      requires n != out ==> x.parent == nodes[n].parent && x.name == nodes[n].name
      modifies `nodes
      ensures Consistent(out) && nodes == old(nodes)[n := x]
    {
      KeysFrame(nodes, nodes[n := x], heads, chains, out);
      nodes := nodes[n := x];
    }

    /** `zh`: the node goes to the front of its chain. */
    method Add(n: nat)
      requires Consistent(n) && n in nodes
      modifies this
      ensures Consistent(0) && Strip(nodes) == Strip(old(nodes))
      ensures var b := BucketOf(old(nodes)[n]);
        chains == old(chains)[b := [n] + old(chains)[b]]
    {
      hide Linked, Filed, Bucket;
      var b := HashOf(nodes[n].parent, nodes[n].name);
      assert b == BucketOf(nodes[n]);
      AddLinked(nodes, heads, chains, n);
      AddFiled(nodes, chains, n);
      SizeOf(nodes, heads, chains);
      nodes := nodes[n := nodes[n].(next := heads[b])];
      heads := heads[b := n];
      chains := chains[b := [n] + chains[b]];
      FiledFrame(old(nodes), nodes, chains, 0);
      StripSame(old(nodes), nodes);
    }

    /** `Ah`: the node is unlinked, from the head of its chain or behind its predecessor. */
    method Remove(n: nat)
      requires Consistent(0) && n in nodes
      modifies this
      ensures Consistent(n) && Strip(nodes) == Strip(old(nodes))
      ensures var b := BucketOf(old(nodes)[n]);
        chains == old(chains)[b := Without(old(chains)[b], n)]
    {
      hide Linked, Filed, Bucket, Without, Chained, NoRepeats;
      var b := HashOf(nodes[n].parent, nodes[n].name);
      assert b == BucketOf(nodes[n]);
      SizeOf(nodes, heads, chains);
      RemoveFiled(nodes, chains, n);
      ghost var chain := chains[b];
      ghost var i := IndexIn(chain, n);
      WithoutAt(chain, i);
      ChainOf(nodes, heads, chains, b);
      ChainedAt(nodes, heads[b], chain, i);
      HeadOf(nodes, heads[b], chain);
      if heads[b] == n {
        RemoveHead(nodes, heads, chains, b, i);
        heads := heads[b := nodes[n].next];
      } else {
        var p := heads[b];
        ghost var k := 0;
        while nodes[p].next != n
          invariant nodes == old(nodes) && heads == old(heads) && chains == old(chains)
          invariant k < i < |chain| && p == chain[k] && p in nodes
          decreases |chain| - k
        {
          ChainedAt(nodes, heads[b], chain, k);
          ChainedAt(nodes, heads[b], chain, k + 1);
          p := nodes[p].next;
          k := k + 1;
        }
        ChainedAt(nodes, heads[b], chain, k);
        SameIndex(chain, k + 1, i);
        RemoveBehind(nodes, heads, chains, b, k);
        nodes := nodes[p := nodes[p].(next := nodes[n].next)];
      }
      chains := chains[b := Without(chain, n)];
      FiledFrame(old(nodes), nodes, chains, n);
      StripSame(old(nodes), nodes);
    }

    /** The loop of `Bf`: the chain is searched from its head. */
    method Find(parent: nat, name: string, ghost out: nat) returns (c: nat)
      requires Consistent(out)
      ensures c == FirstMatch(nodes, chains[Bucket(parent, name)], parent, name)
    {
      hide Bucket, Filed;
      var b := HashOf(parent, name);
      ghost var chain := chains[b];
      c := heads[b];
      ghost var i := 0;
      assert chain[0..] == chain;
      while c != 0
        invariant i <= |chain| && Chained(nodes, c, chain[i..])
        invariant FirstMatch(nodes, chain, parent, name) == FirstMatch(nodes, chain[i..], parent, name)
        decreases |chain| - i
      {
        if nodes[c].parent == parent && nodes[c].name == name {
          return;
        }
        assert chain[i..][1..] == chain[i + 1..];
        c := nodes[c].next;
        i := i + 1;
      }
    }
  }

  lemma SizeOf(nodes: Nodes, heads: seq<nat>, chains: seq<seq<nat>>)
    requires Linked(nodes, heads, chains)
    ensures |heads| == |chains| == BUCKETS
  {
  }
}
