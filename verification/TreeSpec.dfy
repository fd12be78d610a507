/**
  What the file system operations do to the nodes, apart from the hash table: the directory maps,
  the parents and names, and the path of every node.
 */
module TreeSpec {
  import opened NodeTable
  import opened Paths

  const ROOT: nat := 1

  predicate PlainName(s: string) {
    IsName(s) && s != "." && s != ".."
  }

  // ---------------------------------------------------------------- the invariants

  predicate Placed(nodes: Nodes, n: nat) {
    n in nodes &&
    var x := nodes[n];
    x.parent in nodes && x.name in nodes[x.parent].entries && nodes[x.parent].entries[x.name] == n
  }

  predicate Listed(nodes: Nodes, d: nat, s: string) {
    d in nodes && s in nodes[d].entries &&
    var m := nodes[d].entries[s];
    nodes[d].kind.Dir? && PlainName(s) && m in nodes && m != ROOT && nodes[m].parent == d && nodes[m].name == s
  }

  /** Parents, names and directory maps agree; only the root is its own parent. */
  ghost predicate Agree(nodes: Nodes) {
    && ROOT in nodes && nodes[ROOT].parent == ROOT && nodes[ROOT].name == "/" && nodes[ROOT].kind.Dir?
    && (forall n {:trigger Placed(nodes, n)} :: n in nodes && n != ROOT ==> Placed(nodes, n))
    && (forall d, s {:trigger Listed(nodes, d, s)} :: d in nodes && s in nodes[d].entries ==> Listed(nodes, d, s))
  }

  type PathMap = map<nat, seq<string>>

  predicate Below(nodes: Nodes, paths: PathMap, n: nat) {
    n in nodes && n in paths && nodes[n].parent in paths && paths[n] == paths[nodes[n].parent] + [nodes[n].name]
  }

  /** The nodes form a tree: every node has a path that extends its parent's. */
  ghost predicate Rooted(nodes: Nodes, paths: PathMap) {
    && paths.Keys == nodes.Keys && ROOT in paths && paths[ROOT] == []
    && forall n {:trigger Below(nodes, paths, n)} :: n in nodes && n != ROOT ==> Below(nodes, paths, n)
  }

  // ---------------------------------------------------------------- lookup

  /** What a directory answers for a name; the root also answers to its own name "/". */
  function Entry(nodes: Nodes, d: nat, s: string): nat
    requires d in nodes
  {
    if s in nodes[d].entries then nodes[d].entries[s] else if d == ROOT && s == "/" then ROOT else 0
  }

  /** The first match in the chain is the directory's entry. */
  lemma {:induction false} IndexAgrees(nodes: Nodes, chains: seq<seq<nat>>, d: nat, s: string)
    requires Filed(nodes, chains, 0) && Agree(nodes) && 0 !in nodes && d in nodes
    ensures FirstMatch(nodes, chains[Bucket(d, s)], d, s) == Entry(nodes, d, s)
  {
    hide Bucket, NoRepeats, FirstMatch;
    var b := Bucket(d, s);
    assert FiledIn(nodes, chains[b], b, 0);
    var n := FirstMatch(nodes, chains[b], d, s);
    if n != 0 && n != ROOT {
      assert Placed(nodes, n);
    }
    if s in nodes[d].entries {
      assert Listed(nodes, d, s);
      FirstMatchExists(nodes, chains[b], d, s, nodes[d].entries[s]);
    } else if d == ROOT && s == "/" {
      FirstMatchExists(nodes, chains[b], d, s, ROOT);
    }
  }

  /** Error numbers of the source. */
  const ACCESS: nat := 2
  const BUSY: nat := 10
  const EXISTS: nat := 20
  const INVALID: nat := 28
  const IS_DIR: nat := 31
  const NO_ENTRY: nat := 44
  const NOT_DIR: nat := 54
  const NOT_EMPTY: nat := 55
  const NOT_PERMITTED: nat := 63

  /** `Bf` with permissions ignored: only directories can be searched. */
  function Lookup(nodes: Nodes, d: nat, s: string): (r: (nat, nat))
    requires d in nodes
  {
    if !nodes[d].kind.Dir? then (ACCESS, 0)
    else if Entry(nodes, d, s) == 0 then (NO_ENTRY, 0)
    else (0, Entry(nodes, d, s))
  }

  /** `ff` for the components of a path: an error code, or 0 and the node. */
  function Descend(nodes: Nodes, d: nat, parts: seq<string>): (r: (nat, nat))
    decreases |parts|
  {
    if d !in nodes then (NO_ENTRY, 0)
    else if |parts| == 0 then (0, d)
    else
      var (code, n) := Lookup(nodes, d, parts[0]);
      if code != 0 then (code, 0) else Descend(nodes, n, parts[1..])
  }

  lemma {:induction false} DescendSnoc(nodes: Nodes, d: nat, parts: seq<string>, s: string)
    ensures var (code, n) := Descend(nodes, d, parts);
      Descend(nodes, d, parts + [s]) == if code != 0 then (code, 0) else
        (if n !in nodes then (NO_ENTRY, 0) else if Lookup(nodes, n, s).0 != 0 then (Lookup(nodes, n, s).0, 0) else Descend(nodes, Lookup(nodes, n, s).1, []))
    decreases |parts|
  {
    hide Lookup;
    if |parts| == 0 {
      assert (parts + [s])[1..] == [];
    } else {
      assert (parts + [s])[1..] == parts[1..] + [s];
      if d in nodes && Lookup(nodes, d, parts[0]).0 == 0 {
        DescendSnoc(nodes, Lookup(nodes, d, parts[0]).1, parts[1..], s);
      }
    }
  }

  /** The node that a walk finds has the walked path. */
  lemma {:induction false} DescendFinds(nodes: Nodes, paths: PathMap, d: nat, parts: seq<string>)
    requires Agree(nodes) && Rooted(nodes, paths) && d in nodes && Plain(parts)
    ensures var (code, n) := Descend(nodes, d, parts);
      code == 0 ==> n in nodes && paths[n] == paths[d] + parts
    decreases |parts|
  {
    if |parts| == 0 {
      assert paths[d] + parts == paths[d];
    } else {
      assert IsName(parts[0]);
      var (code, n) := Lookup(nodes, d, parts[0]);
      if code == 0 {
        assert Listed(nodes, d, parts[0]);
        assert Below(nodes, paths, n);
        assert Plain(parts[1..]);
        DescendFinds(nodes, paths, n, parts[1..]);
        assert (paths[d] + [parts[0]]) + parts[1..] == paths[d] + parts;
      }
    }
  }

  /** Walking the path of a node finds it. */
  lemma {:induction false} DescendPath(nodes: Nodes, paths: PathMap, n: nat)
    requires Agree(nodes) && Rooted(nodes, paths) && n in nodes && 0 !in nodes
    ensures Descend(nodes, ROOT, paths[n]) == (0, n) && Plain(paths[n])
    decreases |paths[n]|
  {
    if n != ROOT {
      var x := nodes[n];
      assert Below(nodes, paths, n) && Placed(nodes, n);
      assert Listed(nodes, x.parent, x.name);
      DescendPath(nodes, paths, x.parent);
      DescendSnoc(nodes, ROOT, paths[x.parent], x.name);
    }
  }

  /** A walk from the root finds exactly the node with that path. */
  lemma DescendIffPath(nodes: Nodes, paths: PathMap, parts: seq<string>, n: nat)
    requires Agree(nodes) && Rooted(nodes, paths) && 0 !in nodes && Plain(parts)
    ensures Descend(nodes, ROOT, parts) == (0, n) <==> n in nodes && paths[n] == parts
  {
    hide Descend, Plain, Agree;
    assert ROOT in nodes;
    DescendFinds(nodes, paths, ROOT, parts);
    assert paths[ROOT] + parts == parts;
    if n in nodes && paths[n] == parts {
      DescendPath(nodes, paths, n);
    }
  }

  lemma PathsDiffer(nodes: Nodes, paths: PathMap, m: nat, n: nat)
    requires Agree(nodes) && Rooted(nodes, paths) && 0 !in nodes && m in nodes && n in nodes && paths[m] == paths[n]
    ensures m == n
  {
    hide Descend, Agree, Rooted;
    DescendPath(nodes, paths, m);
    DescendPath(nodes, paths, n);
  }

  // ---------------------------------------------------------------- the changes

  /** Node `n` with other contents. */
  function Refill(nodes: Nodes, n: nat, filled: bool): Nodes {
    if n !in nodes then nodes else nodes[n := nodes[n].(kind := File(filled))]
  }

  lemma RefillOne(nodes: Nodes, n: nat, filled: bool, m: nat, t: string)
    requires Agree(nodes) && n in nodes && nodes[n].kind.File? && m in nodes
    ensures m != ROOT ==> Placed(Refill(nodes, n, filled), m)
    ensures t in nodes[m].entries ==> Listed(Refill(nodes, n, filled), m, t)
  {
    hide PlainName;
    assert m != ROOT ==> Placed(nodes, m);
    if t in nodes[m].entries {
      assert Listed(nodes, m, t);
    }
  }

  lemma RefillKeeps(nodes: Nodes, paths: PathMap, n: nat, filled: bool)
    requires Agree(nodes) && Rooted(nodes, paths) && n in nodes && nodes[n].kind.File?
    ensures Agree(Refill(nodes, n, filled)) && Rooted(Refill(nodes, n, filled), paths)
  {
    hide Placed, Listed;
    var after := Refill(nodes, n, filled);
    forall m | m in after && m != ROOT
      ensures Placed(after, m) && Below(after, paths, m)
    {
      assert Below(nodes, paths, m);
      RefillOne(nodes, n, filled, m, "");
    }
    forall c, t | c in after && t in after[c].entries
      ensures Listed(after, c, t)
    {
      RefillOne(nodes, n, filled, c, t);
    }
  }

  /** The name that a script object does not keep as an entry. */
  const PROTO := "__proto__"

  /** Writing an entry into a directory's map. */
  function Entered(x: Node, s: string, n: nat): Node {
    x.(entries := x.entries[s := n], proto := x.proto || s == PROTO)
  }

  /** Whether enumerating the contents of a node finds anything: entries, a prototype's fields, or bytes. */
  predicate Occupied(x: Node) {
    if x.kind.Dir? then x.entries != map[] || x.proto else x.kind.filled
  }

  /** A new node under `d`. */
  function Insert(nodes: Nodes, d: nat, s: string, n: nat, kind: Kind): Nodes
    requires d in nodes && n !in nodes
  {
    nodes[n := Node(d, s, kind, 0, map[], false)][d := Entered(nodes[d], s, n)]
  }

  lemma InsertPlaced(nodes: Nodes, d: nat, s: string, n: nat, kind: Kind, m: nat)
    requires d in nodes && n !in nodes && s !in nodes[d].entries
    requires m != n ==> Placed(nodes, m)
    ensures Placed(Insert(nodes, d, s, n, kind), m)
  {
  }

  lemma InsertListed(nodes: Nodes, d: nat, s: string, n: nat, kind: Kind, c: nat, t: string)
    requires d in nodes && n !in nodes && n != ROOT && s !in nodes[d].entries && nodes[d].kind.Dir? && PlainName(s)
    requires c in Insert(nodes, d, s, n, kind) && t in Insert(nodes, d, s, n, kind)[c].entries
    requires c in nodes && t in nodes[c].entries ==> Listed(nodes, c, t)
    ensures Listed(Insert(nodes, d, s, n, kind), c, t)
  {
    hide PlainName;
  }

  lemma InsertKeeps(nodes: Nodes, paths: PathMap, d: nat, s: string, n: nat, kind: Kind)
    requires Agree(nodes) && Rooted(nodes, paths) && d in nodes && nodes[d].kind.Dir?
    requires PlainName(s) && s !in nodes[d].entries && n !in nodes
    ensures Agree(Insert(nodes, d, s, n, kind)) && Rooted(Insert(nodes, d, s, n, kind), paths[n := paths[d] + [s]])
  {
    hide PlainName, Placed, Listed;
    var after := Insert(nodes, d, s, n, kind);
    var paths1 := paths[n := paths[d] + [s]];
    forall m | m in after && m != ROOT
      ensures Placed(after, m) && Below(after, paths1, m)
    {
      if m != n {
        assert Placed(nodes, m) && Below(nodes, paths, m);
      }
      InsertPlaced(nodes, d, s, n, kind, m);
    }
    forall c, t | c in after && t in after[c].entries
      ensures Listed(after, c, t)
    {
      assert c in nodes && t in nodes[c].entries ==> Listed(nodes, c, t);
      InsertListed(nodes, d, s, n, kind, c, t);
    }
  }

  /**
    What was made is found by its path, of the kind asked for and without entries. Every other
    node keeps its kind, name, parent and entries, but for the new entry in the directory.
   */
  lemma MadeNode(nodes: Nodes, paths: PathMap, d: nat, s: string, n: nat, kind: Kind)
    requires Agree(nodes) && Rooted(nodes, paths) && 0 !in nodes && d in nodes && nodes[d].kind.Dir?
    requires PlainName(s) && s !in nodes[d].entries && n !in nodes && n != 0
    ensures var after := Insert(nodes, d, s, n, kind);
      && Descend(after, ROOT, paths[d] + [s]) == (0, n)
      && n in after && after[n].kind == kind && after[n].entries == map[] && !after[n].proto && after[n].name == s && after[n].parent == d
      && after.Keys == nodes.Keys + {n}
      && (forall m :: m in nodes ==> after[m].kind == nodes[m].kind && after[m].name == nodes[m].name && after[m].parent == nodes[m].parent)
      && (forall m :: m in nodes && m != d ==> after[m] == nodes[m])
      && after[d].entries == nodes[d].entries[s := n]
  {
    hide Agree, Rooted, PlainName, Descend;
    assert d in paths by {
      Pathed(nodes, paths, d);
    }
    InsertKeeps(nodes, paths, d, s, n, kind);
    DescendPath(Insert(nodes, d, s, n, kind), paths[n := paths[d] + [s]], n);
  }

  lemma Pathed(nodes: Nodes, paths: PathMap, n: nat)
    requires Rooted(nodes, paths) && n in nodes
    ensures n in paths
  {
  }

  /** Node `n` and its entry taken away. */
  function Delete(nodes: Nodes, n: nat): Nodes {
    if n !in nodes || nodes[n].parent !in nodes then nodes else
    var d := nodes[n].parent;
    nodes[d := nodes[d].(entries := nodes[d].entries - {nodes[n].name})] - {n}
  }

  lemma DeletePlaced(nodes: Nodes, n: nat, m: nat)
    requires Placed(nodes, n) && Placed(nodes, m) && m != n && nodes[n].entries == map[]
    ensures Placed(Delete(nodes, n), m)
  {
  }

  lemma DeleteListed(nodes: Nodes, n: nat, c: nat, t: string)
    requires Placed(nodes, n) && c in Delete(nodes, n) && t in Delete(nodes, n)[c].entries && Listed(nodes, c, t)
    ensures Listed(Delete(nodes, n), c, t)
  {
    hide PlainName;
  }

  lemma DeleteKeeps(nodes: Nodes, paths: PathMap, n: nat)
    requires Agree(nodes) && Rooted(nodes, paths) && n in nodes && n != ROOT && nodes[n].entries == map[]
    ensures Placed(nodes, n) && Agree(Delete(nodes, n)) && Rooted(Delete(nodes, n), paths - {n})
  {
    hide PlainName, Listed;
    assert Placed(nodes, n) && Below(nodes, paths, n);
    var after := Delete(nodes, n);
    forall m | m in after && m != ROOT
      ensures Placed(after, m) && Below(after, paths - {n}, m)
    {
      assert Placed(nodes, m) && Below(nodes, paths, m);
      DeletePlaced(nodes, n, m);
    }
    forall c, t | c in after && t in after[c].entries
      ensures Listed(after, c, t)
    {
      assert Listed(nodes, c, t);
      DeleteListed(nodes, n, c, t);
    }
  }

  /** O.rename: out of the old directory, renamed, into the new directory if it is one, reparented. */
  function Move(nodes: Nodes, r: nat, k: nat, g: string): Nodes {
    if r !in nodes || k !in nodes then nodes else
    var n1 := TakeOut(nodes, r, g);
    var n2 := if n1[k].kind.Dir? then n1[k := Entered(n1[k], g, r)] else n1;
    n2[r := n2[r].(parent := k)]
  }

  /** The first half: the old entry is deleted and the name changed. */
  function TakeOut(nodes: Nodes, r: nat, g: string): (after: Nodes)
    ensures after.Keys == nodes.Keys
  {
    if r !in nodes || nodes[r].parent !in nodes then nodes else
    var m := nodes[r].parent;
    var n1 := nodes[m := nodes[m].(entries := nodes[m].entries - {nodes[r].name})];
    n1[r := n1[r].(name := g)]
  }

  /** The paths after the move: everything under `from` is now under `to`. */
  function Moved(paths: PathMap, from: seq<string>, to: seq<string>): PathMap {
    map n | n in paths :: if from <= paths[n] then to + paths[n][|from|..] else paths[n]
  }

  lemma MovePlaced(nodes: Nodes, r: nat, k: nat, g: string, n: nat)
    requires Placed(nodes, r) && Placed(nodes, n) && k in nodes && k != r && nodes[k].kind.Dir? && g !in nodes[k].entries
    ensures Placed(Move(nodes, r, k, g), n)
  {
  }

  lemma MoveListed(nodes: Nodes, r: nat, k: nat, g: string, c: nat, t: string)
    requires Placed(nodes, r) && k in nodes && k != r && nodes[k].kind.Dir? && PlainName(g) && r != ROOT
    requires c in nodes && t in Move(nodes, r, k, g)[c].entries
    requires t in nodes[c].entries ==> Listed(nodes, c, t)
    ensures Listed(Move(nodes, r, k, g), c, t)
  {
    hide PlainName;
  }

  lemma MoveAgrees(nodes: Nodes, r: nat, k: nat, g: string)
    requires Agree(nodes) && r in nodes && r != ROOT && k in nodes && k != r && nodes[k].kind.Dir?
    requires PlainName(g) && g !in nodes[k].entries
    ensures Placed(nodes, r) && Agree(Move(nodes, r, k, g))
  {
    hide PlainName, Listed;
    assert Placed(nodes, r);
    var after := Move(nodes, r, k, g);
    forall n | n in after && n != ROOT
      ensures Placed(after, n)
    {
      assert Placed(nodes, n);
      MovePlaced(nodes, r, k, g, n);
    }
    forall c, t | c in after && t in after[c].entries
      ensures Listed(after, c, t)
    {
      assert t in nodes[c].entries ==> Listed(nodes, c, t);
      MoveListed(nodes, r, k, g, c, t);
    }
  }

  lemma MoveRooted(nodes: Nodes, paths: PathMap, r: nat, k: nat, g: string)
    requires Agree(nodes) && Rooted(nodes, paths) && 0 !in nodes && r in nodes && r != ROOT && k in nodes && k != r
    requires nodes[r].parent in nodes && !(paths[r] <= paths[k])
    ensures Rooted(Move(nodes, r, k, g), Moved(paths, paths[r], paths[k] + [g]))
  {
    hide PlainName, Agree, Plain;
    var from, to := paths[r], paths[k] + [g];
    var after := Move(nodes, r, k, g);
    var paths1 := Moved(paths, from, to);
    assert Below(nodes, paths, r);
    assert !(from <= []);
    forall n | n in after && n != ROOT
      ensures Below(after, paths1, n)
    {
      assert Below(nodes, paths, n);
      if n == r {
        assert from[|from|..] == [] && to + [] == to;
      } else {
        ExtendsParent(nodes, paths, r, n);
        if from <= paths[n] {
          var p := nodes[n].parent;
          assert paths[n][|from|..] == paths[p][|from|..] + [nodes[n].name];
          assert to + (paths[p][|from|..] + [nodes[n].name]) == (to + paths[p][|from|..]) + [nodes[n].name];
        }
      }
    }
  }

  lemma ExtendsParent(nodes: Nodes, paths: PathMap, r: nat, n: nat)
    requires Agree(nodes) && Rooted(nodes, paths) && 0 !in nodes && r in nodes && n in nodes && n != ROOT && n != r
    requires Below(nodes, paths, n)
    ensures paths[r] <= paths[n] <==> paths[r] <= paths[nodes[n].parent]
  {
    hide Agree;
    var p := nodes[n].parent;
    if paths[r] <= paths[n] && !(paths[r] <= paths[p]) {
      assert paths[r] == paths[n];
      PathsDiffer(nodes, paths, r, n);
    }
  }
}
