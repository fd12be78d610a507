/**
  The file system operations on paths: nodes are found through the hash table, and every
  operation keeps the table in step with the directories and the nodes in a tree.
  There are no symbolic links and no mounts but the root, and permissions are ignored.
  Paths are lists of components, as they are after normalisation.
 */
module FileTree {
  import opened NodeTable
  import opened Paths
  import opened TreeSpec

  /** The path string of a component list. */
  function Absolute(parts: seq<string>): string {
    "/" + Join(parts)
  }

  function Parent(path: seq<string>): seq<string> {
    if |path| == 0 then [] else path[..|path| - 1]
  }

  /** The last component; that of the root is "/". */
  function NameOf(path: seq<string>): string {
    if |path| == 0 then "/" else path[|path| - 1]
  }

  predicate StartsWithDot(s: string) {
    |s| > 0 && s[0] == '.'
  }

  // ---------------------------------------------------------------- path strings

  lemma ResolvedAbsolute(parts: seq<string>, cwd: string)
    requires Plain(parts)
    ensures Resolved([Absolute(parts)], cwd) == parts
    ensures Resolve([cwd, Absolute(parts)], cwd) == Absolute(parts)
    ensures Normal(Components(Absolute(parts)), false) == parts
  {
    hide Components, Join, Walk;
    ComponentsOfJoin(parts);
    var path := Absolute(parts);
    assert Gather([path], cwd, 1, "") == Gathered(path + "/" + "");
    assert Gather([cwd, path], cwd, 2, "") == Gathered(path + "/" + "");
    assert path + "/" + "" == "/" + Join(parts) + "/";
    WalkDown(START, parts);
    assert [] + parts == parts;
  }

  /**
    What the descendant check of `rename` finds out: whether `b` is outside `a`, except that a
    component with a leading dot below `a` also looks like a way up.
   */
  lemma DescendantCheck(a: seq<string>, b: seq<string>, cwd: string)
    requires Plain(a) && Plain(b)
    ensures StartsWithDot(Relative(Absolute(a), Absolute(b), cwd))
       <==> !(a <= b) || (|a| < |b| && StartsWithDot(b[|a|]))
  {
    hide Resolved, Common, Join;
    ResolvedAbsolute(a, cwd);
    ResolvedAbsolute(b, cwd);
    var e := Common(a, b);
    var route := Route(a, b);
    if a <= b {
      assert b[..|a|] == a;
      CommonIs(a, b, |a|);
      assert route == b[|a|..];
    } else {
      CommonShort(a, b);
      assert route[0] == "..";
    }
    if |route| > 0 {
      JoinStart(route);
    } else {
      EmptyJoin();
    }
  }

  lemma CommonShort(a: seq<string>, b: seq<string>)
    requires !(a <= b)
    ensures Common(a, b) < |a|
  {
    hide Common;
    assert a[..|a|] == a;
  }

  lemma JoinStart(parts: seq<string>)
    requires |parts| > 0 && parts[0] != ""
    ensures Join(parts) != "" && Join(parts)[0] == parts[0][0]
  {
  }

  /** A directory moved below itself: the descendant check lets "/x" be renamed to "/x/.y/z". */
  lemma LeadingDotFoolsCheck(cwd: string)
    ensures var a, b := ["x"], ["x", ".y", "z"];
      a <= Parent(b) && StartsWithDot(Relative(Absolute(a), Absolute(Parent(b)), cwd))
  {
    assert ["x", ".y", "z"][..2] == ["x", ".y"];
    assert ["x", ".y"][..1] == ["x"];
    DescendantCheck(["x"], ["x", ".y"], cwd);
  }

  /** Without leading dots a rename that passes the descendant check does not go below itself. */
  lemma OrdinaryNamesStayOutside(a: seq<string>, b: seq<string>, cwd: string)
    requires Plain(a) && Plain(b) && forall i :: 0 <= i < |b| ==> !StartsWithDot(b[i])
    ensures StartsWithDot(Relative(Absolute(a), Absolute(Parent(b)), cwd)) <==> !(a <= Parent(b))
  {
    hide Relative;
    assert Plain(Parent(b));
    DescendantCheck(a, Parent(b), cwd);
  }

  lemma {:induction false} JoinMore(x: string, parts: seq<string>)
    requires |parts| > 0
    ensures Join([x] + parts) == x + "/" + Join(parts)
  {
    assert ([x] + parts)[1..] == parts;
  }

  // ---------------------------------------------------------------- lookups on stripped nodes

  lemma {:induction false} FirstMatchStrip(nodes: Nodes, chain: seq<nat>, d: nat, s: string)
    ensures FirstMatch(Strip(nodes), chain, d, s) == FirstMatch(nodes, chain, d, s)
    decreases |chain|
  {
    if |chain| > 0 {
      FirstMatchStrip(nodes, chain[1..], d, s);
    }
  }

  lemma FindIsEntry(nodes: Nodes, heads: seq<nat>, chains: seq<seq<nat>>, d: nat, s: string)
    requires Filed(nodes, chains, 0) && Agree(Strip(nodes)) && 0 !in nodes && d in nodes
    ensures FirstMatch(nodes, chains[Bucket(d, s)], d, s) == Entry(Strip(nodes), d, s)
  {
    hide FiledIn, Agree, FirstMatch;
    assert SameButLinks(nodes, Strip(nodes));
    FiledFrame(nodes, Strip(nodes), chains, 0);
    FirstMatchStrip(nodes, chains[Bucket(d, s)], d, s);
    IndexAgrees(Strip(nodes), chains, d, s);
  }

  /** The error code of create and mkdir; 0 if the node is made. */
  function MakeError(nodes: Nodes, path: seq<string>): nat {
    var (code, d) := Descend(nodes, ROOT, Parent(path));
    var name := NameOf(path);
    if code != 0 then code
    else if d !in nodes then NO_ENTRY
    else if Lookup(nodes, d, name).0 == 0 then EXISTS
    else if !nodes[d].kind.Dir? then NOT_PERMITTED
    else 0
  }

  /** The same for a path string. */
  function MakeErrorAt(nodes: Nodes, cwd: string, path: string): nat {
    var parts := Resolved([cwd, path], cwd);
    if path == "" then INVALID
    else if Descend(nodes, ROOT, Parent(parts)).0 != 0 then Descend(nodes, ROOT, Parent(parts)).0
    else if Unnamed(Base(path)) then INVALID
    else MakeError(nodes, parts)
  }

  function UnlinkError(nodes: Nodes, path: seq<string>): nat {
    var (code, d) := Descend(nodes, ROOT, Parent(path));
    if code != 0 then code
    else if d !in nodes then NO_ENTRY
    else
      var (code, n) := Lookup(nodes, d, NameOf(path));
      if code != 0 then code
      else if n in nodes && nodes[n].kind.Dir? then IS_DIR
      else 0
  }

  /** `xg`: whether a node may be deleted or replaced, as a directory or as a file. */
  function DeleteError(nodes: Nodes, paths: PathMap, cwd: string, n: nat, asDir: bool): nat {
    if n !in nodes || n !in paths then NO_ENTRY
    else if asDir then
      if !nodes[n].kind.Dir? then NOT_DIR
      else if nodes[n].parent == n || Absolute(paths[n]) == cwd then BUSY
      else 0
    else if nodes[n].kind.Dir? then IS_DIR
    else 0
  }

  function RmdirError(nodes: Nodes, paths: PathMap, cwd: string, path: seq<string>): nat {
    var (code, d) := Descend(nodes, ROOT, Parent(path));
    if code != 0 then code
    else if d !in nodes then NO_ENTRY
    else
      var (code, n) := Lookup(nodes, d, NameOf(path));
      if code != 0 then code
      else if DeleteError(nodes, paths, cwd, n, true) != 0 then DeleteError(nodes, paths, cwd, n, true)
      else if n in nodes && Occupied(nodes[n]) then NOT_EMPTY
      else 0
  }

  /** Not an error number: an exception while the entry is written, because `k` is a file without contents. */
  const TYPE_ERROR: nat := 1000

  function RelocateError(nodes: Nodes, r: nat, k: nat, g: string): nat {
    if r !in nodes || k !in nodes then NO_ENTRY
    else
      var q := Lookup(nodes, k, g).1;
      if nodes[r].kind.Dir? && q in nodes && Occupied(nodes[q]) then NOT_EMPTY
      else if nodes[k].kind == File(false) then TYPE_ERROR
      else 0
  }

  /** The nodes that `rename` finds: the one to move, the new directory and what the new name names (or 0). */
  datatype Plan = Plan(code: nat, r: nat, k: nat, q: nat)

  function RenamePlan(nodes: Nodes, paths: PathMap, cwd: string, a: seq<string>, b: seq<string>): Plan {
    var (code, m) := Descend(nodes, ROOT, Parent(a));
    if code != 0 then Plan(code, 0, 0, 0) else
    var (code, k) := Descend(nodes, ROOT, Parent(b));
    if code != 0 then Plan(code, 0, 0, 0)
    else if m !in nodes || k !in nodes then Plan(NO_ENTRY, 0, 0, 0)
    else
      var (code, r) := Lookup(nodes, m, NameOf(a));
      if code != 0 then Plan(code, 0, 0, 0)
      else if !StartsWithDot(Relative(Absolute(a), Absolute(Parent(b)), cwd)) then Plan(INVALID, 0, 0, 0)
      else if !StartsWithDot(Relative(Absolute(b), Absolute(Parent(a)), cwd)) then Plan(NOT_EMPTY, 0, 0, 0)
      else
        var q := Lookup(nodes, k, NameOf(b)).1;
        var isDir := r in nodes && nodes[r].kind.Dir?;
        if r == q then Plan(0, r, k, q)
        else if DeleteError(nodes, paths, cwd, r, isDir) != 0 then Plan(DeleteError(nodes, paths, cwd, r, isDir), r, k, q)
        else if q != 0 && DeleteError(nodes, paths, cwd, q, isDir) != 0 then Plan(DeleteError(nodes, paths, cwd, q, isDir), r, k, q)
        else Plan(0, r, k, q)
  }

  /** What the plan of a rename that goes ahead knows about its nodes. */
  predicate Planned(nodes: Nodes, paths: PathMap, a: seq<string>, b: seq<string>, r: nat, k: nat, q: nat) {
    && r in nodes && k in nodes && r in paths && k in paths && r != ROOT && q != ROOT && r != k
    && paths[r] == a && paths[k] == Parent(b) && Descend(nodes, ROOT, Parent(b)) == (0, k)
    && q == Lookup(nodes, k, NameOf(b)).1
  }

  function RenameError(nodes: Nodes, plan: Plan, g: string): nat {
    if plan.code != 0 then plan.code
    else if plan.r == plan.q then 0
    else RelocateError(nodes, plan.r, plan.k, g)
  }

  /** Whether `rename` gets as far as changing the nodes. */
  predicate Changes(plan: Plan, code: nat) {
    plan.code == 0 && plan.r != plan.q && (code == 0 || code == TYPE_ERROR)
  }

  /** A move to a free name in a directory that is not below `a`. */
  predicate KeepsTree(nodes: Nodes, plan: Plan, code: nat, a: seq<string>, b: seq<string>) {
    code == 0 && plan.q == 0 && plan.k in nodes && nodes[plan.k].kind.Dir? && !(a <= Parent(b))
  }

  function TruncateError(nodes: Nodes, path: seq<string>, length: int): nat {
    var (code, n) := Descend(nodes, ROOT, path);
    if length < 0 then INVALID
    else if code != 0 then code
    else if n in nodes && nodes[n].kind.Dir? then IS_DIR
    else 0
  }

  class FileSystem {
    const table: Table
    const cwd: string
    var ids: nat
    ghost var paths: PathMap

    /** The nodes without their links. */
    ghost function Shape(): Nodes
      reads this, table
    {
      Strip(table.nodes)
    }

    ghost predicate Valid()
      reads this, table
    {
      && table.Consistent(0) && Agree(Shape()) && Rooted(Shape(), paths)
      && forall n :: n in Shape() ==> n < ids
    }

    constructor (cwd: string)
      ensures Valid() && fresh(table) && this.cwd == cwd
      ensures paths == map[ROOT := []] && Shape() == map[ROOT := Node(ROOT, "/", Dir, 0, map[], false)]
    {
      this.cwd := cwd;
      table := new Table();
      ids := ROOT + 1;
      paths := map[ROOT := []];
      new;
      table.New(ROOT, Node(ROOT, "/", Dir, 0, map[], false));
      table.Add(ROOT);
      assert Shape() == map[ROOT := Node(ROOT, "/", Dir, 0, map[], false)];
    }

    /** `Bf`. */
    method LookupNode(d: nat, s: string) returns (code: nat, n: nat)
      requires Valid() && d in table.nodes
      ensures (code, n) == Lookup(Shape(), d, s)
    {
      hide Agree, Rooted, Filed, Linked, Bucket, FirstMatch;
      FindIsEntry(table.nodes, table.heads, table.chains, d, s);
      if !table.nodes[d].kind.Dir? {
        return ACCESS, 0;
      }
      n := table.Find(d, s, 0);
      code := if n == 0 then NO_ENTRY else 0;
    }

    /** The loop of `ff` over the components. */
    method Walk(parts: seq<string>) returns (code: nat, n: nat)
      requires Valid()
      ensures (code, n) == Descend(Shape(), ROOT, parts)
      ensures code == 0 ==> n in table.nodes
    {
      hide Filed, Linked, Lookup, Rooted;
      assert ROOT in Shape();
      hide Agree;
      n := ROOT;
      var d := 0;
      assert parts[0..] == parts;
      while d < |parts|
        invariant d <= |parts| && n in table.nodes
        invariant Descend(Shape(), ROOT, parts) == Descend(Shape(), n, parts[d..])
      {
        assert parts[d..][1..] == parts[d + 1..];
        var m: nat;
        code, m := LookupNode(n, parts[d]);
        if code != 0 {
          return code, 0;
        }
        LookupLive(Shape(), n, parts[d]);
        n := m;
        d := d + 1;
      }
      code := 0;
    }

    /** `If`: the names from the node up to the root. */
    method GetPath(n: nat) returns (r: string)
      requires Valid() && n in table.nodes
      ensures r == Absolute(paths[n])
    {
      hide Filed, Linked, Join, Plain;
      var a, b := n, "";
      ghost var suffix: seq<string> := [];
      assert paths[n] + [] == paths[n];
      EmptyJoin();
      while a != table.nodes[a].parent
        invariant a in table.nodes && paths[n] == paths[a] + suffix
        invariant b == Join(suffix) && (b == "" <==> suffix == [])
        decreases |paths[a]|
      {
        assert Below(Shape(), paths, a) && Placed(Shape(), a);
        assert Listed(Shape(), table.nodes[a].parent, table.nodes[a].name);
        var name := table.nodes[a].name;
        JoinOne(name, suffix);
        b := if b != "" then name + "/" + b else name;
        a := table.nodes[a].parent;
        assert (paths[a] + [name]) + suffix == paths[a] + ([name] + suffix);
        suffix := [name] + suffix;
      }
      if a != ROOT {
        NotOwnParent(Shape(), paths, a);
      }
      assert [] + suffix == suffix;
      r := if b != "" then "/" + b else "/";
    }

    /**
      `ff` for any path string: the walk along what it resolves to, which succeeds exactly when a
      node has that path, and then finds that node. The empty string has no node and no error.
     */
    method LookupPath(path: string) returns (code: nat, n: nat)
      requires Valid() && IsAbsolute(cwd)
      ensures path == "" ==> code == 0 && n == 0
      ensures path != "" ==> (code, n) == Descend(Shape(), ROOT, Resolved([cwd, path], cwd))
      ensures path != "" ==> forall m {:trigger m in paths} :: m in paths && paths[m] == Resolved([cwd, path], cwd) <==> code == 0 && n == m
      ensures forall m :: m in paths && path == Absolute(paths[m]) ==> code == 0 && n == m
    {
      hide Filed, Linked, Agree, Rooted, Join, Components, Resolve, Resolved, Normal, Descend;
      var full := ResolvePath([cwd, path], cwd);
      ResolvesUnlessEmpty(path, cwd);
      ghost var parts := Resolved([cwd, path], cwd);
      if full == "" {
        code, n := 0, 0;
      } else {
        var components := NormalizeArray(Components(full), false);
        code, n := Walk(components);
        ResolvedPlain([cwd, path], cwd);
        FoundIffPath(Shape(), paths, parts, code, n);
      }
      forall m | m in paths && path == Absolute(paths[m])
        ensures code == 0 && n == m
      {
        LivePath(Shape(), paths, m);
        ResolvedAbsolute(paths[m], cwd);
      }
    }

    /** The node of a path goes to its path string and back. */
    method GoAndReturn(m: nat) returns (path: string, n: nat)
      requires Valid() && IsAbsolute(cwd) && m in table.nodes
      ensures path == Absolute(paths[m]) && n == m
    {
      assert m in Shape();
      path := GetPath(m);
      var code: nat;
      code, n := LookupPath(path);
    }

    // -------------------------------------------------------------- create, mkdir

    /** `Ff` (create and mkdir): a new node where the name is free and its parent is a directory. */
    method Make(path: seq<string>, kind: Kind) returns (code: nat)
      requires Valid() && Plain(path) && kind != File(true)
      modifies this, table
      ensures Valid() && code == MakeError(old(Shape()), path)
      ensures code != 0 ==> Shape() == old(Shape()) && paths == old(paths) && ids == old(ids)
      ensures code == 0 ==> ids == old(ids) + 1
      ensures code == 0 ==>
        var n, d := old(ids), Descend(old(Shape()), ROOT, Parent(path)).1;
        Shape() == Insert(old(Shape()), d, NameOf(path), n, kind) && paths == old(paths)[n := old(paths)[d] + [NameOf(path)]]
      ensures code == 0 ==>
        var n := old(ids);
        && Descend(Shape(), ROOT, path) == (0, n) && paths[n] == path && Shape()[n].kind == kind && Shape()[n].entries == map[]
        && forall m :: m in old(Shape()) ==> m in Shape() && Shape()[m].kind == old(Shape())[m].kind
    {
      hide Agree, Rooted, Filed, Linked, Bucket, Lookup, Descend;
      var d: nat;
      code, d := Walk(Parent(path));
      if code != 0 {
        return;
      }
      var name := NameOf(path);
      var found, q := LookupNode(d, name);
      if found == 0 {
        return EXISTS;
      }
      if !table.nodes[d].kind.Dir? {
        return NOT_PERMITTED;
      }
      ghost var shape := Shape();
      FreeName(shape, d, name);
      MakeName(shape, path);
      assert ids !in shape && d in shape;
      CreateNode(d, name, kind);
      RootedKeys(shape, paths);
      InsertKeeps(shape, paths, d, name, ids, kind);
      MadeNode(shape, paths, d, name, ids, kind);
      WalkedPath(shape, paths, path, d);
      LastNamed(shape, path);
      paths := paths[ids := paths[d] + [name]];
      ids := ids + 1;
    }

    /** `Ff` for any path string: its parent is that of the resolved path, its name the last component of its own. */
    method MakeAt(path: string, kind: Kind) returns (code: nat)
      requires Valid() && IsAbsolute(cwd) && kind != File(true)
      modifies this, table
      ensures Valid() && code == MakeErrorAt(old(Shape()), cwd, path)
      ensures code != 0 ==> Shape() == old(Shape()) && paths == old(paths) && ids == old(ids)
      ensures code == 0 ==> ids == old(ids) + 1
      ensures code == 0 ==>
        var n, parts := old(ids), Resolved([cwd, path], cwd);
        var d := Descend(old(Shape()), ROOT, Parent(parts)).1;
        && Shape() == Insert(old(Shape()), d, Base(path), n, kind) && paths == old(paths)[n := old(paths)[d] + [Base(path)]]
    {
      hide Agree, Rooted, Filed, Linked, Bucket, Lookup, Descend, Resolve, Resolved, Normal, Components, Base, Insert, MakeError;
      var full := ResolvePath([cwd, path], cwd);
      ResolvesUnlessEmpty(path, cwd);
      if full == "" {
        return INVALID;
      }
      ResolvedPlain([cwd, path], cwd);
      var parts := NormalizeArray(Components(full), false);
      var d: nat;
      code, d := Walk(Parent(parts));
      if code != 0 {
        return;
      }
      var name := BaseName(path);
      if Unnamed(name) {
        return INVALID;
      }
      if path != "/" {
        ResolvedEndsInBase(path, cwd);
      } else {
        RootExists(Shape(), cwd);
      }
      code := Make(parts, kind);
    }

    /** `N.createNode` and `O.createNode`: the node is hashed, then entered in its directory. */
    method CreateNode(d: nat, name: string, kind: Kind)
      requires table.Consistent(0) && d in table.nodes && ids !in table.nodes && ids != 0
      modifies table
      ensures table.Consistent(0) && Shape() == Insert(old(Shape()), d, name, ids, kind)
    {
      hide Filed, Linked, Bucket;
      var n := ids;
      ghost var was := table.nodes;
      StripSet(was, n, Node(d, name, kind, 0, map[], false));
      table.New(n, Node(d, name, kind, 0, map[], false));
      table.Add(n);
      StripIn(was, d);
      StripIn(table.nodes, d);
      var x := table.nodes[d];
      StripSet(table.nodes, d, Entered(x, name, n));
      table.Set(d, Entered(x, name, n), 0);
    }

    // -------------------------------------------------------------- truncate

    /** `truncate` by path: a file has its contents array exactly while its length is positive. */
    method Truncate(path: seq<string>, length: int) returns (code: nat)
      requires Valid() && Plain(path)
      modifies table
      ensures Valid() && code == TruncateError(old(Shape()), path, length)
      ensures Shape() == if code == 0 then Refill(old(Shape()), Descend(old(Shape()), ROOT, path).1, length > 0) else old(Shape())
    {
      hide Agree, Rooted, Filed, Linked, Bucket, Lookup, Descend, Plain;
      if length < 0 {
        return INVALID;
      }
      var n: nat;
      code, n := Walk(path);
      if code != 0 {
        return;
      }
      StripIn(table.nodes, n);
      if table.nodes[n].kind.Dir? {
        return IS_DIR;
      }
      RefillKeeps(Shape(), paths, n, length > 0);
      StripSet(table.nodes, n, table.nodes[n].(kind := File(length > 0)));
      table.Set(n, table.nodes[n].(kind := File(length > 0)), 0);
    }

    // -------------------------------------------------------------- unlink, rmdir

    /** The directory entry is deleted, the node unhashed and forgotten. */
    method RemoveNode(d: nat, name: string, n: nat)
      requires table.Consistent(0) && d in table.nodes && n in table.nodes && d != n
      requires table.nodes[n].parent == d && table.nodes[n].name == name
      modifies table
      ensures table.Consistent(0) && Shape() == Delete(old(Shape()), n)
    {
      hide Filed, Linked, Bucket;
      ghost var shape := Shape();
      StripIn(table.nodes, d);
      StripIn(table.nodes, n);
      var x := table.nodes[d];
      StripSet(table.nodes, d, x.(entries := x.entries - {name}));
      table.Set(d, x.(entries := x.entries - {name}), 0);
      table.Remove(n);
      StripDrop(table.nodes, n);
      table.Forget(n);
    }

    /** `unlink`. */
    method Unlink(path: seq<string>) returns (code: nat, ghost n: nat)
      requires Valid() && Plain(path)
      modifies this, table
      ensures Valid() && code == UnlinkError(old(Shape()), path)
      ensures ids == old(ids) && (code != 0 ==> Shape() == old(Shape()) && paths == old(paths))
      ensures code == 0 ==> n in old(paths) && old(paths)[n] == path && paths == old(paths) - {n} && Shape() == Delete(old(Shape()), n)
    {
      hide Agree, Rooted, Filed, Linked, Bucket, Lookup, Descend, Plain, Delete;
      var d, q: nat;
      n := 0;
      code, d := Walk(Parent(path));
      if code != 0 {
        return;
      }
      code, q := LookupNode(d, NameOf(path));
      if code != 0 {
        return;
      }
      ghost var shape := Shape();
      FoundAt(shape, paths, path, d, q);
      if table.nodes[q].kind.Dir? {
        return IS_DIR, 0;
      }
      n := q;
      FileIsEmpty(shape, q);
      RemoveNode(d, NameOf(path), q);
      DeleteKeeps(shape, paths, q);
      ShapeShrinks(shape, q);
      paths := paths - {q};
    }

    /** `rmdir`; the checks of `xg` and of the directory's own rmdir. */
    method Rmdir(path: seq<string>) returns (code: nat, ghost n: nat)
      requires Valid() && Plain(path)
      modifies this, table
      ensures Valid() && code == RmdirError(old(Shape()), old(paths), cwd, path)
      ensures ids == old(ids) && (code != 0 ==> Shape() == old(Shape()) && paths == old(paths))
      ensures code == 0 ==> n in old(paths) && old(paths)[n] == path && paths == old(paths) - {n} && Shape() == Delete(old(Shape()), n)
    {
      hide Agree, Rooted, Filed, Linked, Bucket, Lookup, Descend, Plain, Delete;
      var d, q: nat;
      n := 0;
      code, d := Walk(Parent(path));
      if code != 0 {
        return;
      }
      code, q := LookupNode(d, NameOf(path));
      if code != 0 {
        return;
      }
      ghost var shape := Shape();
      FoundAt(shape, paths, path, d, q);
      code := MayDelete(q, true);
      if code != 0 {
        return;
      }
      if Occupied(table.nodes[q]) {
        return NOT_EMPTY, 0;
      }
      n := q;
      RootStays(shape, paths, cwd, q, true);
      RemoveNode(d, NameOf(path), q);
      DeleteKeeps(shape, paths, q);
      ShapeShrinks(shape, q);
      paths := paths - {q};
    }

    /** The checks of `xg` on a node that was found. */
    method MayDelete(n: nat, asDir: bool) returns (code: nat)
      requires Valid() && n in table.nodes
      ensures code == DeleteError(Shape(), paths, cwd, n, asDir)
    {
      hide Filed, Linked, Bucket;
      assert n in Shape();
      code := 0;
      if asDir {
        if !table.nodes[n].kind.Dir? {
          return NOT_DIR;
        }
        if table.nodes[n].parent == n {
          return BUSY;
        }
        var path := GetPath(n);
        if path == cwd {
          return BUSY;
        }
      } else if table.nodes[n].kind.Dir? {
        return IS_DIR;
      }
    }

    // -------------------------------------------------------------- rename

    /** The second half of `O.rename`, with the node in no chain: false if writing the new entry throws. */
    method Transplant(m: nat, r: nat, k: nat, g: string) returns (ok: bool)
      requires table.Consistent(r) && m in table.nodes && r in table.nodes && k in table.nodes && r != k && r != m
      requires m == table.nodes[r].parent
      modifies table
      ensures table.Consistent(r) && table.chains == old(table.chains)
      ensures ok <==> old(table.nodes)[k].kind != File(false)
      ensures Shape() == if ok then Move(old(Shape()), r, k, g) else TakeOut(old(Shape()), r, g)
    {
      hide Filed, Linked, Bucket;
      var x := table.nodes[m];
      var y := x.(entries := x.entries - {table.nodes[r].name});
      StripSet(table.nodes, m, y);
      StripIn(table.nodes, r);
      StripIn(table.nodes, k);
      StripIn(table.nodes, m);
      table.Set(m, y, r);
      x := table.nodes[r];
      StripSet(table.nodes, r, x.(name := g));
      table.Set(r, x.(name := g), r);
      if table.nodes[k].kind == File(false) {
        return false;
      }
      if table.nodes[k].kind.Dir? {
        y := Entered(table.nodes[k], g, r);
        StripSet(table.nodes, k, y);
        table.Set(k, y, r);
      }
      x := table.nodes[r];
      StripSet(table.nodes, r, x.(parent := k));
      table.Set(r, x.(parent := k), r);
      ok := true;
    }

    /** `Ah`, the directories' own rename and `zh`: the node is unhashed while its key changes. */
    method Relocate(r: nat, k: nat, g: string) returns (code: nat)
      requires Valid() && r in table.nodes && k in table.nodes && r != k && r != ROOT
      requires Lookup(Shape(), k, g).1 != r
      modifies table
      ensures table.Consistent(0) && code == RelocateError(old(Shape()), r, k, g)
      ensures code == NOT_EMPTY ==> Shape() == old(Shape())
      ensures code == TYPE_ERROR ==> Shape() == TakeOut(old(Shape()), r, g)
      ensures code == 0 ==> Shape() == Move(old(Shape()), r, k, g)
      ensures code == 0 ==> FirstMatch(table.nodes, table.chains[Bucket(k, g)], k, g) == r
    {
      hide Filed, Linked, Bucket, Rooted, FirstMatch, Entry, Strip, Move, TakeOut;
      ghost var shape, was, chains := Shape(), table.nodes, table.chains;
      StripIn(was, r);
      ParentOf(shape, paths, r);
      hide Agree;
      var m := table.nodes[r].parent;
      StripIn(was, k);
      StripIn(was, m);
      StripIn(was, 0);
      table.Remove(r);
      StripIn(table.nodes, r);
      StripIn(table.nodes, k);
      StripIn(table.nodes, m);
      if table.nodes[r].kind.Dir? && table.nodes[k].kind.Dir? {
        var q := table.Find(k, g, r);
        StillFound(was, table.nodes, chains, table.chains, k, g, r);
        StripIn(was, q);
        StripIn(table.nodes, q);
        if q != 0 && Occupied(table.nodes[q]) {
          table.Add(r);
          return NOT_EMPTY;
        }
      }
      var ok := Transplant(m, r, k, g);
      MoveKeys(shape, r, k, g);
      StripIn(table.nodes, r);
      ghost var before := table.chains;
      ghost var key := BucketOf(table.nodes[r]);
      SizeOf(table.nodes, table.heads, before);
      table.Add(r);
      StripIn(table.nodes, r);
      if ok {
        FrontMatches(table.nodes, before[key], r, k, g);
      }
      code := if ok then 0 else TYPE_ERROR;
    }

    /** The lookups and checks of `rename`, before anything changes. */
    method PlanRename(a: seq<string>, b: seq<string>) returns (code: nat, r: nat, k: nat, q: nat)
      requires Valid() && IsAbsolute(cwd) && Plain(a) && Plain(b)
      ensures RenamePlan(Shape(), paths, cwd, a, b) == Plan(code, r, k, q)
      ensures code == 0 && r != q ==> Planned(Shape(), paths, a, b, r, k, q)
    {
      hide Agree, Rooted, Filed, Linked, Bucket, Lookup, Descend, Plain, FirstMatch, Relative, Strip, Planned;
      var m: nat;
      r, k, q := 0, 0, 0;
      code, m := Walk(Parent(a));
      if code != 0 {
        return;
      }
      code, k := Walk(Parent(b));
      if code != 0 {
        return code, 0, 0, 0;
      }
      StripIn(table.nodes, m);
      StripIn(table.nodes, k);
      StripIn(table.nodes, 0);
      code, r := LookupNode(m, NameOf(a));
      if code != 0 {
        return code, 0, 0, 0;
      }
      var up := RelativePath(Absolute(a), Absolute(Parent(b)), cwd);
      if !StartsWithDot(up) {
        return INVALID, 0, 0, 0;
      }
      up := RelativePath(Absolute(b), Absolute(Parent(a)), cwd);
      if !StartsWithDot(up) {
        return NOT_EMPTY, 0, 0, 0;
      }
      FoundAt(Shape(), paths, a, m, r);
      StripIn(table.nodes, r);
      var found: nat;
      found, q := LookupNode(k, NameOf(b));
      if r == q {
        return;
      }
      var isDir := table.nodes[r].kind.Dir?;
      code := MayDelete(r, isDir);
      if code != 0 {
        return;
      }
      RootStays(Shape(), paths, cwd, r, isDir);
      if q != 0 {
        LookupZero(Shape(), k, NameOf(b));
        FoundAt(Shape(), paths, b, k, q);
        StripIn(table.nodes, q);
        code := MayDelete(q, isDir);
        if code != 0 {
          return;
        }
        RootStays(Shape(), paths, cwd, q, isDir);
      }
      RenameApart(Shape(), paths, cwd, a, b, r, k);
      PlanMade(Shape(), paths, a, b, r, k, q);
    }

    /**
      `rename`. The table stays consistent and the moved node is found under its new name. The file
      system stays a tree in which everything under `a` is now under `b`, except in three cases: the
      target exists and is replaced, the target's parent is a file, or the target is below
      `a` and its leading dot hides this from the descendant check.
     */
    method Rename(a: seq<string>, b: seq<string>) returns (code: nat, ghost plan: Plan)
      requires Valid() && IsAbsolute(cwd) && Plain(a) && Plain(b)
      modifies this, table
      ensures plan == RenamePlan(old(Shape()), old(paths), cwd, a, b) && code == RenameError(old(Shape()), plan, NameOf(b))
      ensures table.Consistent(0)
      ensures ids == old(ids) && (!Changes(plan, code) ==> Shape() == old(Shape()) && paths == old(paths))
      ensures Changes(plan, code) ==>
        Shape() == (if code == 0 then Move(old(Shape()), plan.r, plan.k, NameOf(b)) else TakeOut(old(Shape()), plan.r, NameOf(b)))
      ensures Changes(plan, code) && code == 0 ==>
        FirstMatch(table.nodes, table.chains[Bucket(plan.k, NameOf(b))], plan.k, NameOf(b)) == plan.r
      ensures Valid() <==> !Changes(plan, code) || KeepsTree(old(Shape()), plan, code, a, b)
      ensures Changes(plan, code) && Valid() ==> plan.r in old(paths) && old(paths)[plan.r] == a && paths == Moved(old(paths), a, b)
    {
      hide Agree, Rooted, Filed, Linked, Bucket, Lookup, Plain, FirstMatch, RenamePlan, Strip, Move, TakeOut, Moved;
      plan := RenamePlan(Shape(), paths, cwd, a, b);
      var r, k, q: nat;
      code, r, k, q := PlanRename(a, b);
      if code != 0 || r == q {
        return;
      }
      ghost var shape := Shape();
      StripIn(table.nodes, r);
      StripIn(table.nodes, k);
      StripIn(table.nodes, 0);
      code := Relocate(r, k, NameOf(b));
      RenameOutcome(shape, paths, a, b, r, k, q, code);
      if code != NOT_EMPTY {
        MoveSameKeys(shape, r, k, NameOf(b));
        paths := Moved(paths, a, b);
      }
    }
  }

  /** Every path but the empty one resolves, to the string of a normal form. */
  lemma ResolvesUnlessEmpty(path: string, cwd: string)
    requires IsAbsolute(cwd)
    ensures Resolve([cwd, path], cwd) == "" <==> path == ""
    ensures path != "" ==> Normal(Components(Resolve([cwd, path], cwd)), false) == Resolved([cwd, path], cwd)
  {
    hide Components, Join, Paths.Walk;
    ResolvedPlain([cwd, path], cwd);
    var parts := Resolved([cwd, path], cwd);
    ComponentsOfJoin(parts);
    WalkDown(START, parts);
    assert [] + parts == parts;
    assert Gather([cwd, path], cwd, 1, path + "/" + "").Gathered?;
  }

  lemma RootExists(nodes: Nodes, cwd: string)
    requires Agree(nodes) && IsAbsolute(cwd)
    ensures Resolved([cwd, "/"], cwd) == [] && MakeError(nodes, []) == EXISTS
  {
    hide Components, Agree;
    RootAnswers(nodes);
    assert Plain([]);
    ResolvedAbsolute([], cwd);
    EmptyJoin();
    assert Absolute([]) == "/";
    assert ROOT in nodes by {
      RootLives(nodes);
    }
    assert Gather([cwd, "/"], cwd, 2, "") == Gather(["/"], cwd, 1, "");
  }

  lemma RootLives(nodes: Nodes)
    requires Agree(nodes)
    ensures ROOT in nodes
  {
  }

  lemma FoundIffPath(nodes: Nodes, paths: PathMap, parts: seq<string>, code: nat, n: nat)
    requires Agree(nodes) && Rooted(nodes, paths) && 0 !in nodes && Plain(parts) && (code, n) == Descend(nodes, ROOT, parts)
    ensures forall m {:trigger m in paths} :: m in paths && paths[m] == parts <==> code == 0 && n == m
  {
    hide Agree, Descend, Plain;
    forall m: nat
      ensures m in paths && paths[m] == parts <==> code == 0 && n == m
    {
      DescendIffPath(nodes, paths, parts, m);
    }
  }

  lemma LookupLive(nodes: Nodes, d: nat, s: string)
    requires Agree(nodes) && d in nodes && Lookup(nodes, d, s).0 == 0
    ensures Lookup(nodes, d, s).1 in nodes
  {
    if s in nodes[d].entries {
      assert Listed(nodes, d, s);
    }
  }

  lemma JoinOne(name: string, suffix: seq<string>)
    requires name != ""
    ensures Join([name] + suffix) != ""
    ensures Join([name] + suffix) == if suffix == [] then name else name + "/" + Join(suffix)
  {
    if suffix == [] {
      assert [name] + suffix == [name];
    } else {
      JoinMore(name, suffix);
    }
  }

  lemma NotOwnParent(nodes: Nodes, paths: PathMap, a: nat)
    requires Rooted(nodes, paths) && a in nodes && a != ROOT
    ensures nodes[a].parent != a
  {
    assert Below(nodes, paths, a);
  }

  lemma LivePath(nodes: Nodes, paths: PathMap, m: nat)
    requires Agree(nodes) && Rooted(nodes, paths) && 0 !in nodes && m in paths
    ensures Plain(paths[m]) && Descend(nodes, ROOT, paths[m]) == (0, m)
  {
    DescendPath(nodes, paths, m);
  }

  lemma FreeName(nodes: Nodes, d: nat, s: string)
    requires Agree(nodes) && 0 !in nodes && d in nodes && nodes[d].kind.Dir? && Lookup(nodes, d, s).0 != 0
    ensures s !in nodes[d].entries && (d == ROOT ==> s != "/")
  {
    if s in nodes[d].entries {
      LookupListed(nodes, d, s);
    }
  }

  lemma LookupListed(nodes: Nodes, d: nat, s: string)
    requires Agree(nodes) && 0 !in nodes && d in nodes && s in nodes[d].entries
    ensures Lookup(nodes, d, s) == (0, nodes[d].entries[s]) && nodes[d].entries[s] in nodes && PlainName(s)
  {
    hide PlainName;
    assert Listed(nodes, d, s);
  }

  lemma StripSet(nodes: Nodes, n: nat, x: Node)
    ensures Strip(nodes[n := x]) == Strip(nodes)[n := x.(next := 0)]
    ensures forall m :: m in nodes ==> Strip(nodes)[m] == nodes[m].(next := 0)
  {
  }

  lemma RootAnswers(nodes: Nodes)
    requires Agree(nodes)
    ensures Lookup(nodes, ROOT, "/") == (0, ROOT)
  {
    assert "/" in nodes[ROOT].entries ==> Listed(nodes, ROOT, "/");
  }

  lemma RootedKeys(nodes: Nodes, paths: PathMap)
    requires Rooted(nodes, paths)
    ensures paths.Keys == nodes.Keys
  {
  }

  lemma StripIn(nodes: Nodes, d: nat)
    ensures d in Strip(nodes) <==> d in nodes
    ensures d in nodes ==> Strip(nodes)[d] == nodes[d].(next := 0)
  {
  }

  lemma MakeName(nodes: Nodes, path: seq<string>)
    requires Agree(nodes) && Plain(path) && MakeError(nodes, path) == 0
    ensures PlainName(NameOf(path))
  {
    if |path| > 0 {
      assert IsName(path[|path| - 1]);
    } else {
      RootAnswers(nodes);
    }
  }

  lemma LastNamed(nodes: Nodes, path: seq<string>)
    requires Agree(nodes) && MakeError(nodes, path) == 0
    ensures Parent(path) + [NameOf(path)] == path
  {
    RootAnswers(nodes);
    if path == [] {
      DescendNone(nodes);
    }
  }

  lemma StripDrop(nodes: Nodes, n: nat)
    ensures Strip(nodes - {n}) == Strip(nodes) - {n}
  {
  }

  lemma ShapeShrinks(nodes: Nodes, n: nat)
    requires n in nodes && nodes[n].parent in nodes
    ensures Delete(nodes, n).Keys <= nodes.Keys
  {
  }

  lemma FileIsEmpty(nodes: Nodes, n: nat)
    requires Agree(nodes) && n in nodes && !nodes[n].kind.Dir?
    ensures nodes[n].entries == map[] && n != ROOT
  {
    if nodes[n].entries != map[] {
      var s :| s in nodes[n].entries;
      OnlyDirsList(nodes, n, s);
    }
  }

  lemma OnlyDirsList(nodes: Nodes, d: nat, s: string)
    requires Agree(nodes) && d in nodes && s in nodes[d].entries
    ensures nodes[d].kind.Dir?
  {
    assert Listed(nodes, d, s);
  }

  lemma RootStays(nodes: Nodes, paths: PathMap, cwd: string, n: nat, asDir: bool)
    requires Agree(nodes) && n in nodes && DeleteError(nodes, paths, cwd, n, asDir) == 0
    ensures n != ROOT
  {
  }

  /** The node that the last component names has the whole path. */
  lemma FoundAt(nodes: Nodes, paths: PathMap, path: seq<string>, d: nat, n: nat)
    requires Agree(nodes) && Rooted(nodes, paths) && 0 !in nodes && Plain(path)
    requires Descend(nodes, ROOT, Parent(path)) == (0, d) && d in nodes && Lookup(nodes, d, NameOf(path)) == (0, n)
    ensures n in nodes && n in paths && paths[n] == path && (n == ROOT <==> path == [])
    ensures n != ROOT ==> nodes[n].parent == d && nodes[n].name == NameOf(path) && d != n
  {
    hide Plain, Descend;
    if path == [] {
      DescendNone(nodes);
      RootAnswers(nodes);
    } else {
      DescendSnoc(nodes, ROOT, Parent(path), NameOf(path));
      assert Parent(path) + [NameOf(path)] == path;
      LastIsPlain(path);
      LookupEntry(nodes, d, NameOf(path), n);
      DescendHere(nodes, n);
      DescendIffPath(nodes, paths, path, n);
      NotOwnParent(nodes, paths, n);
    }
  }

  lemma DescendNone(nodes: Nodes)
    requires ROOT in nodes
    ensures Descend(nodes, ROOT, []) == (0, ROOT)
  {
  }

  lemma DescendHere(nodes: Nodes, n: nat)
    requires n in nodes
    ensures Descend(nodes, n, []) == (0, n)
  {
  }

  lemma LastIsPlain(path: seq<string>)
    requires Plain(path) && path != []
    ensures PlainName(NameOf(path))
  {
  }

  lemma LookupEntry(nodes: Nodes, d: nat, s: string, n: nat)
    requires Agree(nodes) && d in nodes && PlainName(s) && Lookup(nodes, d, s) == (0, n)
    ensures n in nodes && n != ROOT && nodes[n].parent == d && nodes[n].name == s
  {
    assert s in nodes[d].entries ==> Listed(nodes, d, s);
  }

  lemma ParentOf(nodes: Nodes, paths: PathMap, r: nat)
    requires Agree(nodes) && Rooted(nodes, paths) && r in nodes && r != ROOT
    ensures nodes[r].parent in nodes && nodes[r].parent != r && Placed(nodes, r)
  {
    assert Placed(nodes, r);
    NotOwnParent(nodes, paths, r);
  }

  /** Taking `r` out of its chain does not change the answer for another node's key. */
  lemma StillFound(was: Nodes, nodes: Nodes, chains: seq<seq<nat>>, chains1: seq<seq<nat>>, k: nat, g: string, r: nat)
    requires Filed(was, chains, 0) && Agree(Strip(was)) && 0 !in was && k in was && r in was
    requires Strip(nodes) == Strip(was) && Entry(Strip(was), k, g) != r
    requires chains1 == chains[BucketOf(was[r]) := Without(chains[BucketOf(was[r])], r)]
    ensures FirstMatch(nodes, chains1[Bucket(k, g)], k, g) == Entry(Strip(was), k, g)
  {
    hide Agree, FiledIn, Entry, Strip, FirstMatch, Without;
    var b := Bucket(k, g);
    FindIsEntry(was, [], chains, k, g);
    FirstMatchStrip(was, chains[b], k, g);
    FirstMatchStrip(nodes, chains1[b], k, g);
    FirstMatchStrip(was, chains1[b], k, g);
    FirstMatchWithout(was, chains[b], k, g, r);
  }

  lemma FrontMatches(nodes: Nodes, chain: seq<nat>, r: nat, k: nat, g: string)
    requires r in nodes && nodes[r].parent == k && nodes[r].name == g
    ensures FirstMatch(nodes, [r] + chain, k, g) == r
  {
  }

  lemma MoveKeys(nodes: Nodes, r: nat, k: nat, g: string)
    requires r in nodes && k in nodes && r != k && nodes[r].parent in nodes
    ensures r in Move(nodes, r, k, g) && Move(nodes, r, k, g)[r].parent == k && Move(nodes, r, k, g)[r].name == g
    ensures r in TakeOut(nodes, r, g)
  {
  }

  // ---------------------------------------------------------------- what a rename does to the tree

  lemma WalkedPath(nodes: Nodes, paths: PathMap, path: seq<string>, k: nat)
    requires Agree(nodes) && Rooted(nodes, paths) && 0 !in nodes && Plain(path) && Descend(nodes, ROOT, Parent(path)) == (0, k)
    ensures k in nodes && k in paths && paths[k] == Parent(path)
  {
    hide Descend, Agree;
    ParentPlain(path);
    DescendIffPath(nodes, paths, Parent(path), k);
  }

  lemma ParentPlain(path: seq<string>)
    requires Plain(path)
    ensures Plain(Parent(path))
  {
  }

  /** The descendant check keeps a node from becoming its own parent. */
  lemma RenameApart(nodes: Nodes, paths: PathMap, cwd: string, a: seq<string>, b: seq<string>, r: nat, k: nat)
    requires Agree(nodes) && Rooted(nodes, paths) && 0 !in nodes && Plain(a) && Plain(b)
    requires Descend(nodes, ROOT, Parent(b)) == (0, k) && r in paths && paths[r] == a
    requires StartsWithDot(Relative(Absolute(a), Absolute(Parent(b)), cwd))
    ensures r != k && k in paths && paths[k] == Parent(b)
  {
    hide Agree, Rooted, Descend, Plain, Relative;
    WalkedPath(nodes, paths, b, k);
    ParentPlain(b);
    DescendantCheck(a, Parent(b), cwd);
  }

  lemma ReplacedDisagrees(nodes: Nodes, r: nat, k: nat, g: string)
    requires Agree(nodes) && r in nodes && r != ROOT && k in nodes && r != k && g in nodes[k].entries && nodes[k].entries[g] != r
    requires nodes[k].kind.Dir?
    ensures !Agree(Move(nodes, r, k, g))
  {
    var q := nodes[k].entries[g];
    assert Listed(nodes, k, g) && Placed(nodes, r);
    var after := Move(nodes, r, k, g);
    assert q in after && !Placed(after, q);
  }

  lemma TakenOutDisagrees(nodes: Nodes, r: nat, g: string)
    requires Agree(nodes) && r in nodes && r != ROOT && nodes[r].parent != r
    ensures !Agree(TakeOut(nodes, r, g))
  {
    assert Placed(nodes, r);
    var m := nodes[r].parent;
    assert g in nodes[m].entries ==> Listed(nodes, m, g);
    assert !Placed(TakeOut(nodes, r, g), r);
  }

  /** A node below a file is in no directory's map. */
  lemma BelowFileDisagrees(nodes: Nodes, r: nat, k: nat, g: string)
    requires Agree(nodes) && r in nodes && r != ROOT && k in nodes && r != k && !nodes[k].kind.Dir?
    ensures !Agree(Move(nodes, r, k, g))
  {
    FileIsEmpty(nodes, k);
    assert Placed(nodes, r);
    assert !Placed(Move(nodes, r, k, g), r);
  }

  /** Moved below itself, a node would be deeper than everything that was below it. */
  lemma {:induction false} CycleDepth(nodes: Nodes, paths: PathMap, r: nat, k: nat, g: string, paths1: PathMap, n: nat)
    requires Agree(nodes) && Rooted(nodes, paths) && 0 !in nodes && r in nodes && r != ROOT && k in nodes && k != r
    requires n in nodes && paths[r] <= paths[n] && nodes[r].parent in nodes && Rooted(Move(nodes, r, k, g), paths1)
    ensures n in paths1 && r in paths1 && |paths1[n]| >= |paths1[r]|
    decreases |paths[n]|
  {
    hide Agree, PlainName, Plain;
    if n != r {
      PathsOfRoot(nodes, paths, r);
      assert n != ROOT;
      assert Below(nodes, paths, n);
      ExtendsParent(nodes, paths, r, n);
      CycleDepth(nodes, paths, r, k, g, paths1, nodes[n].parent);
      assert Below(Move(nodes, r, k, g), paths1, n);
    }
  }

  lemma PathsOfRoot(nodes: Nodes, paths: PathMap, r: nat)
    requires Rooted(nodes, paths) && r in nodes && r != ROOT
    ensures r in paths && ROOT in paths && paths[ROOT] == [] && !(paths[r] <= [])
  {
    assert Below(nodes, paths, r);
  }

  lemma CycleNotRooted(nodes: Nodes, paths: PathMap, r: nat, k: nat, g: string, paths1: PathMap)
    requires Agree(nodes) && Rooted(nodes, paths) && 0 !in nodes && r in nodes && r != ROOT && k in nodes && k != r
    requires nodes[r].parent in nodes && paths[r] <= paths[k]
    ensures !Rooted(Move(nodes, r, k, g), paths1)
  {
    hide Agree;
    var after := Move(nodes, r, k, g);
    if Rooted(after, paths1) {
      CycleDepth(nodes, paths, r, k, g, paths1, k);
      NotDeeper(after, paths1, r, k);
    }
  }

  lemma NotDeeper(nodes: Nodes, paths: PathMap, r: nat, k: nat)
    requires Rooted(nodes, paths) && r in nodes && r != ROOT && nodes[r].parent == k && k in paths
    ensures |paths[k]| < |paths[r]|
  {
    assert Below(nodes, paths, r);
  }

  lemma LookupZero(nodes: Nodes, d: nat, s: string)
    requires d in nodes
    ensures Lookup(nodes, d, s).1 != 0 ==> Lookup(nodes, d, s).0 == 0
  {
  }

  lemma PlanMade(nodes: Nodes, paths: PathMap, a: seq<string>, b: seq<string>, r: nat, k: nat, q: nat)
    requires r in nodes && k in nodes && r in paths && k in paths && r != ROOT && q != ROOT && r != k
    requires paths[r] == a && paths[k] == Parent(b) && Descend(nodes, ROOT, Parent(b)) == (0, k)
    requires q == Lookup(nodes, k, NameOf(b)).1
    ensures Planned(nodes, paths, a, b, r, k, q)
  {
  }

  lemma MoveSameKeys(nodes: Nodes, r: nat, k: nat, g: string)
    requires r in nodes && k in nodes
    ensures Move(nodes, r, k, g).Keys == nodes.Keys
  {
  }

  /** The tree after a rename, exactly. */
  lemma {:induction false} RenameOutcome(nodes: Nodes, paths: PathMap, a: seq<string>, b: seq<string>, r: nat, k: nat, q: nat, code: nat)
    requires Agree(nodes) && Rooted(nodes, paths) && 0 !in nodes && Plain(b) && r != q
    requires Planned(nodes, paths, a, b, r, k, q) && code == RelocateError(nodes, r, k, NameOf(b))
    ensures code == TYPE_ERROR ==> !Agree(TakeOut(nodes, r, NameOf(b)))
    ensures code == 0 ==>
      var after := Move(nodes, r, k, NameOf(b));
      Agree(after) && Rooted(after, Moved(paths, a, b)) <==> q == 0 && nodes[k].kind.Dir? && !(a <= Parent(b))
  {
    hide Agree, Rooted, Move, TakeOut, Moved, Plain, Descend;
    var g := NameOf(b);
    RootedKeys(nodes, paths);
    ParentOf(nodes, paths, r);
    TakenOutDisagrees(nodes, r, g);
    if code == 0 {
      if !nodes[k].kind.Dir? {
        BelowFileDisagrees(nodes, r, k, g);
      } else if g in nodes[k].entries {
        LookupListed(nodes, k, g);
        ReplacedDisagrees(nodes, r, k, g);
      } else if q == 0 {
        NamedTarget(nodes, b, k);
        LastIsPlain(b);
        MoveAgrees(nodes, r, k, g);
        if a <= Parent(b) {
          CycleNotRooted(nodes, paths, r, k, g, Moved(paths, a, b));
        } else {
          MoveRooted(nodes, paths, r, k, g);
          assert Parent(b) + [g] == b;
        }
      }
    }
  }

  lemma NamedTarget(nodes: Nodes, b: seq<string>, k: nat)
    requires Agree(nodes) && Descend(nodes, ROOT, Parent(b)) == (0, k) && k in nodes && Lookup(nodes, k, NameOf(b)).1 == 0
    ensures b != []
  {
    RootAnswers(nodes);
  }
}
