/**
  Runs of file system operations: what any list of them does, and when it keeps the tree.
 */
module FileRuns {
  import opened NodeTable
  import opened Paths
  import opened TreeSpec
  import opened FileTree

  // ---------------------------------------------------------------- the name __proto__

  lemma {:induction false} RmdirAt(nodes: Nodes, paths: PathMap, cwd: string, d: nat)
    requires Agree(nodes) && Rooted(nodes, paths) && 0 !in nodes && d in nodes && d != ROOT
    ensures RmdirError(nodes, paths, cwd, paths[d]) ==
      if !nodes[d].kind.Dir? then NOT_DIR
      else if Absolute(paths[d]) == cwd then BUSY
      else if Occupied(nodes[d]) then NOT_EMPTY else 0
  {
    hide Agree, Descend, Lookup, Occupied;
    ParentOf(nodes, paths, d);
    BelowAt(nodes, paths, d);
    var p, x := nodes[d].parent, nodes[d];
    LivePath(nodes, paths, p);
    LookupListed(nodes, p, x.name);
    assert Parent(paths[p] + [x.name]) == paths[p];
  }

  lemma BelowAt(nodes: Nodes, paths: PathMap, n: nat)
    requires Rooted(nodes, paths) && n in nodes && n != ROOT
    ensures Below(nodes, paths, n)
  {
  }

  /**
    A file made in an empty directory and unlinked again leaves no trace, and the directory can be
    removed; but for the name `__proto__`, after which its removal fails for ever as if it were not empty.
   */
  lemma {:induction false} MadeAndUnlinked(nodes: Nodes, paths: PathMap, cwd: string, d: nat, s: string, n: nat)
    requires Agree(nodes) && Rooted(nodes, paths) && 0 !in nodes && d in nodes && d != ROOT && n !in nodes && n != 0
    requires nodes[d].kind.Dir? && !Occupied(nodes[d]) && Absolute(paths[d]) != cwd && PlainName(s)
    ensures var after := Delete(Insert(nodes, d, s, n, File(false)), n);
      && RmdirError(nodes, paths, cwd, paths[d]) == 0
      && RmdirError(after, paths, cwd, paths[d]) == (if s == PROTO then NOT_EMPTY else 0)
      && (s != PROTO ==> after == nodes)
      && d in after && after[d].entries == map[] && after[d].proto == (s == PROTO)
  {
    hide Agree, Rooted, RmdirError, PlainName;
    var made := Insert(nodes, d, s, n, File(false));
    var after := Delete(made, n);
    RootedKeys(nodes, paths);
    var paths1 := paths[n := paths[d] + [s]];
    RmdirAt(nodes, paths, cwd, d);
    InsertKeeps(nodes, paths, d, s, n, File(false));
    FileIsEmpty(made, n);
    DeleteKeeps(made, paths1, n);
    assert paths1 - {n} == paths;
    assert map[][s := n] - {s} == map[];
    assert after == nodes[d := nodes[d].(proto := s == PROTO)];
    RmdirAt(after, paths, cwd, d);
  }

  // ---------------------------------------------------------------- operations on the nodes

  datatype Operation =
    | Create(path: seq<string>)
    | MakeDir(path: seq<string>)
    | Unlink(path: seq<string>)
    | Rmdir(path: seq<string>)
    | Truncate(path: seq<string>, length: int)
    | Rename(from: seq<string>, to: seq<string>)

  predicate PlainOperation(op: Operation) {
    if op.Rename? then Plain(op.from) && Plain(op.to) else Plain(op.path)
  }

  /** The nodes, their paths, and the next id. */
  datatype Tree = Tree(nodes: Nodes, paths: PathMap, ids: nat)

  function Made(st: Tree, path: seq<string>, kind: Kind): (nat, Tree) {
    var code, d := MakeError(st.nodes, path), Descend(st.nodes, ROOT, Parent(path)).1;
    if code != 0 || d !in st.nodes || d !in st.paths || st.ids in st.nodes then (code, st)
    else (0, Tree(Insert(st.nodes, d, NameOf(path), st.ids, kind), st.paths[st.ids := st.paths[d] + [NameOf(path)]], st.ids + 1))
  }

  function Removed(st: Tree, path: seq<string>, code: nat): (nat, Tree) {
    var n := Descend(st.nodes, ROOT, path).1;
    if code != 0 then (code, st) else (0, Tree(Delete(st.nodes, n), st.paths - {n}, st.ids))
  }

  function Renamed(st: Tree, cwd: string, a: seq<string>, b: seq<string>): (nat, Tree) {
    var plan := RenamePlan(st.nodes, st.paths, cwd, a, b);
    var code := RenameError(st.nodes, plan, NameOf(b));
    if !Changes(plan, code) then (code, st)
    else (code, Tree(Move(st.nodes, plan.r, plan.k, NameOf(b)), Moved(st.paths, a, b), st.ids))
  }

  /** The error code of an operation, and the tree behind it. */
  function Apply(st: Tree, cwd: string, op: Operation): (nat, Tree) {
    match op
    case Create(path) => Made(st, path, File(false))
    case MakeDir(path) => Made(st, path, Dir)
    case Unlink(path) => Removed(st, path, UnlinkError(st.nodes, path))
    case Rmdir(path) => Removed(st, path, RmdirError(st.nodes, st.paths, cwd, path))
    case Truncate(path, length) =>
      var code := TruncateError(st.nodes, path, length);
      (code, if code != 0 then st else st.(nodes := Refill(st.nodes, Descend(st.nodes, ROOT, path).1, length > 0)))
    case Rename(a, b) => Renamed(st, cwd, a, b)
  }

  /** A rename that would break the tree. */
  predicate Exceptional(st: Tree, cwd: string, op: Operation) {
    op.Rename? &&
    var plan := RenamePlan(st.nodes, st.paths, cwd, op.from, op.to);
    var code := RenameError(st.nodes, plan, NameOf(op.to));
    Changes(plan, code) && !KeepsTree(st.nodes, plan, code, op.from, op.to)
  }

  function ApplyAll(st: Tree, cwd: string, ops: seq<Operation>): Tree {
    if |ops| == 0 then st else Apply(ApplyAll(st, cwd, ops[..|ops| - 1]), cwd, ops[|ops| - 1]).1
  }

  function Codes(st: Tree, cwd: string, ops: seq<Operation>): seq<nat> {
    if |ops| == 0 then []
    else
      var before := ops[..|ops| - 1];
      Codes(st, cwd, before) + [Apply(ApplyAll(st, cwd, before), cwd, ops[|ops| - 1]).0]
  }

  /** No rename is exceptional whose target is free, in a directory, and has no component with a leading dot. */
  lemma OrdinaryIsNotExceptional(st: Tree, cwd: string, a: seq<string>, b: seq<string>)
    requires Plain(a) && Plain(b) && forall i :: 0 <= i < |b| ==> !StartsWithDot(b[i])
    requires var k := Descend(st.nodes, ROOT, Parent(b)).1;
      k in st.nodes ==> st.nodes[k].kind.Dir? && Lookup(st.nodes, k, NameOf(b)).0 != 0
    ensures !Exceptional(st, cwd, Rename(a, b))
  {
    hide Relative, Descend, Plain;
    OrdinaryNamesStayOutside(a, b, cwd);
  }

  // ---------------------------------------------------------------- runs

  ghost function TreeOf(fs: FileSystem): Tree
    reads fs, fs.table
  {
    Tree(fs.Shape(), fs.paths, fs.ids)
  }

  /** Before the call: whether a rename would break the tree. */
  method IsExceptional(fs: FileSystem, op: Operation) returns (b: bool)
    requires fs.Valid() && IsAbsolute(fs.cwd) && PlainOperation(op)
    ensures b == Exceptional(TreeOf(fs), fs.cwd, op)
  {
    hide Agree, Rooted, Plain, RenamePlan, Planned, Occupied, Lookup;
    if !op.Rename? {
      return false;
    }
    var code, r, k, q := fs.PlanRename(op.from, op.to);
    if code != 0 || r == q {
      return false;
    }
    PlannedIn(fs.Shape(), fs.paths, op.from, op.to, r, k, q);
    var nodes := fs.table.nodes;
    StripIn(nodes, r);
    StripIn(nodes, k);
    StripIn(nodes, q);
    if nodes[r].kind.Dir? && q in nodes && Occupied(nodes[q]) {
      OccupiedStrip(nodes, q);
      return false;
    }
    OccupiedStrip(nodes, q);
    b := q != 0 || !nodes[k].kind.Dir? || op.from <= Parent(op.to);
  }

  lemma OccupiedStrip(nodes: Nodes, q: nat)
    ensures q in nodes ==> Occupied(Strip(nodes)[q]) == Occupied(nodes[q])
  {
  }

  lemma PlannedIn(nodes: Nodes, paths: PathMap, a: seq<string>, b: seq<string>, r: nat, k: nat, q: nat)
    requires Planned(nodes, paths, a, b, r, k, q)
    ensures r in nodes && k in nodes && q == Lookup(nodes, k, NameOf(b)).1
  {
  }

  method PerformOne(fs: FileSystem, op: Operation) returns (code: nat)
    requires fs.Valid() && IsAbsolute(fs.cwd) && PlainOperation(op) && !Exceptional(TreeOf(fs), fs.cwd, op)
    modifies fs, fs.table
    ensures fs.Valid() && (code, TreeOf(fs)) == Apply(old(TreeOf(fs)), fs.cwd, op)
  {
    hide Agree, Rooted, Plain, RenamePlan, RenameError, MakeError, UnlinkError, RmdirError, TruncateError, Descend, Lookup, Insert, Delete, Move, Moved, Refill;
    ghost var st := TreeOf(fs);
    match op
    case Create(path) =>
      MadeIn(st, path, fs);
      code := fs.Make(path, File(false));
    case MakeDir(path) =>
      MadeIn(st, path, fs);
      code := fs.Make(path, Dir);
    case Unlink(path) =>
      ghost var n;
      code, n := fs.Unlink(path);
      if code == 0 {
        FoundBy(st.nodes, st.paths, path, n);
      }
    case Rmdir(path) =>
      ghost var n;
      code, n := fs.Rmdir(path);
      if code == 0 {
        FoundBy(st.nodes, st.paths, path, n);
      }
    case Truncate(path, length) =>
      code := fs.Truncate(path, length);
    case Rename(a, b) =>
      ghost var plan;
      code, plan := fs.Rename(a, b);
  }

  lemma FoundBy(nodes: Nodes, paths: PathMap, path: seq<string>, n: nat)
    requires Agree(nodes) && Rooted(nodes, paths) && 0 !in nodes && n in paths && paths[n] == path
    ensures Descend(nodes, ROOT, path).1 == n
  {
    LivePath(nodes, paths, n);
  }

  lemma MadeIn(st: Tree, path: seq<string>, fs: FileSystem)
    requires fs.Valid() && st == TreeOf(fs) && Plain(path)
    ensures st.ids !in st.nodes
    ensures MakeError(st.nodes, path) == 0 ==>
      var d := Descend(st.nodes, ROOT, Parent(path)).1;
      d in st.nodes && d in st.paths
  {
    hide Agree, Descend, Plain;
    RootedKeys(st.nodes, st.paths);
  }

  /**
    Any list of operations is performed up to the first exceptional rename, if there is one. All
    the way the file system is valid: the table answers as the directories do, the nodes are a tree,
    and every node is found by its own path. The codes and the nodes are those of the operations on the maps.
   */
  method Perform(fs: FileSystem, ops: seq<Operation>) returns (codes: seq<nat>)
    requires fs.Valid() && IsAbsolute(fs.cwd) && forall i :: 0 <= i < |ops| ==> PlainOperation(ops[i])
    modifies fs, fs.table
    ensures fs.Valid() && |codes| <= |ops|
    ensures TreeOf(fs) == ApplyAll(old(TreeOf(fs)), fs.cwd, ops[..|codes|])
    ensures codes == Codes(old(TreeOf(fs)), fs.cwd, ops[..|codes|])
    ensures |codes| < |ops| ==> Exceptional(TreeOf(fs), fs.cwd, ops[|codes|])
    ensures forall i :: 0 <= i < |codes| ==> !Exceptional(ApplyAll(old(TreeOf(fs)), fs.cwd, ops[..i]), fs.cwd, ops[i])
    ensures forall n :: n in fs.paths ==> Descend(fs.Shape(), ROOT, fs.paths[n]) == (0, n)
  {
    hide Apply, Exceptional, Agree, Rooted, Descend;
    ghost var st := TreeOf(fs);
    codes := [];
    var done := 0;
    while done < |ops|
      invariant 0 <= done <= |ops| && |codes| == done && fs.Valid()
      invariant TreeOf(fs) == ApplyAll(st, fs.cwd, ops[..done]) && codes == Codes(st, fs.cwd, ops[..done])
      invariant forall i :: 0 <= i < done ==> !Exceptional(ApplyAll(st, fs.cwd, ops[..i]), fs.cwd, ops[i])
    {
      var stop := IsExceptional(fs, ops[done]);
      if stop {
        break;
      }
      assert ops[..done + 1][..done] == ops[..done];
      var code := PerformOne(fs, ops[done]);
      codes := codes + [code];
      done := done + 1;
    }
    forall n | n in fs.paths
      ensures Descend(fs.Shape(), ROOT, fs.paths[n]) == (0, n)
    {
      LivePath(fs.Shape(), fs.paths, n);
    }
  }
}
