/**
  The file system as its callers see it: a map from paths to what is there. The operations on
  nodes, names and directory maps do to this view what one would expect of them, with exactly
  these error codes, in any run without an exceptional rename.
 */
module PathView {
  import opened NodeTable
  import opened Paths
  import opened TreeSpec
  import opened FileTree
  import opened FileRuns

  type Path = seq<string>

  /** A file, with contents or without, or a directory; `proto` says whether the name `__proto__` was ever written in it. */
  datatype Place = Place(kind: Kind, proto: bool)

  type View = map<Path, Place>

  /** The root is a directory, and everything else is in one. */
  ghost predicate Closed(v: View) {
    && [] in v && v[[]].kind.Dir?
    && forall p {:trigger p in v} :: p in v && p != [] ==> Parent(p) in v && v[Parent(p)].kind.Dir?
  }

  // ---------------------------------------------------------------- error codes

  /** The first component that is not found decides: it is missing from a directory, or looked for in a file. */
  function WalkCode(v: View, p: Path): (code: nat)
    ensures code == 0 || code == NO_ENTRY || code == ACCESS
    decreases |p|
  {
    if p in v then 0
    else if p == [] then NO_ENTRY
    else if Parent(p) in v then (if v[Parent(p)].kind.Dir? then NO_ENTRY else ACCESS)
    else WalkCode(v, Parent(p))
  }

  function MakeCode(v: View, p: Path): nat {
    if p in v then EXISTS
    else if WalkCode(v, Parent(p)) != 0 then WalkCode(v, Parent(p))
    else if Parent(p) in v && v[Parent(p)].kind.Dir? then 0
    else NOT_PERMITTED
  }

  function UnlinkCode(v: View, p: Path): nat {
    if p !in v then WalkCode(v, p) else if v[p].kind.Dir? then IS_DIR else 0
  }

  /** Whether the directory at `p` looks occupied: something is in it, or was ever called `__proto__`. */
  predicate Busy(v: View, p: Path) {
    p in v && (v[p].proto || exists c :: c in v && c != [] && Parent(c) == p)
  }

  function RmdirCode(v: View, cwd: string, p: Path): nat {
    if p !in v then WalkCode(v, p)
    else if !v[p].kind.Dir? then NOT_DIR
    else if p == [] || Absolute(p) == cwd then BUSY
    else if Busy(v, p) then NOT_EMPTY
    else 0
  }

  function TruncateCode(v: View, p: Path, length: int): nat {
    if length < 0 then INVALID
    else if p !in v then WalkCode(v, p)
    else if v[p].kind.Dir? then IS_DIR
    else 0
  }

  /** Whether `b` is seen to be `a` or below it: a leading dot hides that. */
  predicate SeenInside(a: Path, b: Path) {
    a <= b && (|a| == |b| || !StartsWithDot(b[|a|]))
  }

  /** Whether what is at `p` may be moved or replaced, as a directory or as a file. */
  function ReplaceCode(v: View, cwd: string, p: Path, asDir: bool): nat
    requires p in v
  {
    if !v[p].kind.Dir? then (if asDir then NOT_DIR else 0)
    else if !asDir then IS_DIR
    else if p == [] || Absolute(p) == cwd then BUSY
    else 0
  }

  function RenameCode(v: View, cwd: string, a: Path, b: Path): nat {
    if WalkCode(v, Parent(a)) != 0 then WalkCode(v, Parent(a))
    else if WalkCode(v, Parent(b)) != 0 then WalkCode(v, Parent(b))
    else if a !in v || Parent(b) !in v then WalkCode(v, a)
    else if SeenInside(a, Parent(b)) then INVALID
    else if SeenInside(b, Parent(a)) then NOT_EMPTY
    else if a == b then 0
    else
      var asDir := v[a].kind.Dir?;
      if ReplaceCode(v, cwd, a, asDir) != 0 then ReplaceCode(v, cwd, a, asDir)
      else if b in v && ReplaceCode(v, cwd, b, asDir) != 0 then ReplaceCode(v, cwd, b, asDir)
      else if asDir && b in v && Busy(v, b) then NOT_EMPTY
      else if v[Parent(b)].kind == File(false) then TYPE_ERROR
      else 0
  }

  // ---------------------------------------------------------------- what changes

  /** Something new or moved at `p`: its name is written in the directory. */
  function NameWritten(v: View, p: Path): View {
    if p != [] && NameOf(p) == PROTO && Parent(p) in v then v[Parent(p) := v[Parent(p)].(proto := true)] else v
  }

  function MadeView(v: View, p: Path, kind: Kind): View {
    NameWritten(v, p)[p := Place(kind, false)]
  }

  /** Where a path is after `a` has become `b`. */
  function Carried(a: Path, b: Path, p: Path): Path {
    if a <= p then b + p[|a|..] else p
  }

  lemma CarriedApart(a: Path, b: Path, p: Path, q: Path)
    requires !(b <= p) && !(b <= q) && Carried(a, b, p) == Carried(a, b, q)
    ensures p == q
  {
    if a <= p && a <= q {
      assert (b + p[|a|..])[|b|..] == p[|a|..] && (b + q[|a|..])[|b|..] == q[|a|..];
      assert a + p[|a|..] == p && a + q[|a|..] == q;
    }
  }

  function CarriedView(v: View, a: Path, b: Path): View
    requires forall p :: p in v ==> !(b <= p)
  {
    assert forall p, q :: p in v && q in v && Carried(a, b, p) == Carried(a, b, q) ==> p == q by {
      forall p, q | p in v && q in v && Carried(a, b, p) == Carried(a, b, q)
        ensures p == q
      {
        CarriedApart(a, b, p, q);
      }
    }
    map p | p in v :: Carried(a, b, p) := v[p]
  }

  /** Everything under `a` is now under `b`, where nothing was. */
  function RenamedView(v: View, a: Path, b: Path): View
    requires forall p :: p in v ==> !(b <= p)
  {
    NameWritten(CarriedView(v, a, b), b)
  }

  // ---------------------------------------------------------------- the view of a tree

  function PlaceOf(nodes: Nodes, n: nat): Place {
    if n in nodes then Place(nodes[n].kind, nodes[n].proto) else Place(Dir, false)
  }

  function ViewOf(nodes: Nodes, paths: PathMap): View {
    map p | p in paths.Values :: PlaceOf(nodes, Descend(nodes, ROOT, p).1)
  }

  /** The nodes are a tree, and the view is exactly their paths with what is at each. */
  lemma ViewAt(nodes: Nodes, paths: PathMap, n: nat)
    requires Agree(nodes) && Rooted(nodes, paths) && 0 !in nodes && n in nodes
    ensures n in paths && paths[n] in ViewOf(nodes, paths) && ViewOf(nodes, paths)[paths[n]] == Place(nodes[n].kind, nodes[n].proto)
    ensures Plain(paths[n]) && Descend(nodes, ROOT, paths[n]) == (0, n)
  {
    hide Agree, Descend, Plain;
    LivePath(nodes, paths, n);
    assert paths[n] in paths.Values;
  }

  lemma ViewIs(nodes: Nodes, paths: PathMap, v: View)
    requires Agree(nodes) && Rooted(nodes, paths) && 0 !in nodes
    requires forall n :: n in nodes ==> n in paths && paths[n] in v && v[paths[n]] == Place(nodes[n].kind, nodes[n].proto)
    requires forall p :: p in v ==> p in paths.Values
    ensures v == ViewOf(nodes, paths)
  {
    hide Agree, Descend, Plain;
    var w := ViewOf(nodes, paths);
    RootedKeys(nodes, paths);
    hide Rooted;
    forall p | p in paths.Values
      ensures p in v && v[p] == w[p]
    {
      var n :| n in paths && paths[n] == p;
      LivePath(nodes, paths, n);
      assert n in nodes;
    }
    assert forall p :: p in w <==> p in v;
  }

  /** A path is in the view exactly when the walk along it succeeds. */
  lemma InView(nodes: Nodes, paths: PathMap, p: Path)
    requires Agree(nodes) && Rooted(nodes, paths) && 0 !in nodes && Plain(p)
    ensures p in ViewOf(nodes, paths) <==> Descend(nodes, ROOT, p).0 == 0
    ensures p in ViewOf(nodes, paths) ==>
      var n := Descend(nodes, ROOT, p).1;
      n in nodes && n in paths && paths[n] == p && ViewOf(nodes, paths)[p] == Place(nodes[n].kind, nodes[n].proto)
  {
    hide Agree, Descend, Plain;
    RootedKeys(nodes, paths);
    var (code, n) := Descend(nodes, ROOT, p);
    FoundIffPath(nodes, paths, p, code, n);
    if code == 0 {
      FoundNode(nodes, paths, p, n);
      ViewAt(nodes, paths, n);
    }
  }

  lemma FoundNode(nodes: Nodes, paths: PathMap, p: Path, n: nat)
    requires Agree(nodes) && Rooted(nodes, paths) && 0 !in nodes && Plain(p) && Descend(nodes, ROOT, p) == (0, n)
    ensures n in nodes && n in paths && paths[n] == p
  {
    hide Agree, Descend, Plain;
    DescendIffPath(nodes, paths, p, n);
  }

  lemma ViewClosed(nodes: Nodes, paths: PathMap)
    requires Agree(nodes) && Rooted(nodes, paths) && 0 !in nodes
    ensures Closed(ViewOf(nodes, paths))
  {
    hide Agree, Descend, Plain, Placed, Listed;
    var v := ViewOf(nodes, paths);
    RootAt(nodes, paths);
    ViewAt(nodes, paths, ROOT);
    RootedKeys(nodes, paths);
    forall p | p in v && p != []
      ensures Parent(p) in v && v[Parent(p)].kind.Dir?
    {
      var n :| n in paths && paths[n] == p;
      assert n != ROOT;
      BelowAt(nodes, paths, n);
      ParentIsDir(nodes, paths, n);
      ViewAt(nodes, paths, nodes[n].parent);
    }
  }

  lemma RootAt(nodes: Nodes, paths: PathMap)
    requires Agree(nodes) && Rooted(nodes, paths)
    ensures ROOT in nodes && nodes[ROOT].kind.Dir? && ROOT in paths && paths[ROOT] == []
  {
  }

  lemma ParentIsDir(nodes: Nodes, paths: PathMap, n: nat)
    requires Agree(nodes) && Rooted(nodes, paths) && n in nodes && n != ROOT
    ensures nodes[n].parent in nodes && nodes[nodes[n].parent].kind.Dir?
    ensures n in paths && nodes[n].parent in paths && paths[n] == paths[nodes[n].parent] + [nodes[n].name]
    ensures nodes[n].name in nodes[nodes[n].parent].entries && nodes[nodes[n].parent].entries[nodes[n].name] == n
  {
    assert Placed(nodes, n) && Below(nodes, paths, n);
    assert Listed(nodes, nodes[n].parent, nodes[n].name);
  }

  // ---------------------------------------------------------------- the codes are those of the view

  lemma {:induction false} WalkAgrees(nodes: Nodes, paths: PathMap, p: Path)
    requires Agree(nodes) && Rooted(nodes, paths) && 0 !in nodes && Plain(p)
    ensures Descend(nodes, ROOT, p).0 == WalkCode(ViewOf(nodes, paths), p)
    decreases |p|
  {
    hide Agree, Rooted, Descend, Plain, ViewOf;
    InView(nodes, paths, p);
    RootAt(nodes, paths);
    if p == [] {
      DescendNone(nodes);
    } else if p !in ViewOf(nodes, paths) {
      ParentPlain(p);
      InView(nodes, paths, Parent(p));
      WalkAgrees(nodes, paths, Parent(p));
      DescendSnoc(nodes, ROOT, Parent(p), NameOf(p));
      assert Parent(p) + [NameOf(p)] == p;
      var n := Descend(nodes, ROOT, Parent(p)).1;
      if Parent(p) in ViewOf(nodes, paths) && Lookup(nodes, n, NameOf(p)).0 == 0 {
        LookupLive(nodes, n, NameOf(p));
        DescendHere(nodes, Lookup(nodes, n, NameOf(p)).1);
      }
    }
  }

  /** What the last lookup of a path finds. */
  lemma LastLookup(nodes: Nodes, paths: PathMap, p: Path, d: nat)
    requires Agree(nodes) && Rooted(nodes, paths) && 0 !in nodes && Plain(p) && Descend(nodes, ROOT, Parent(p)) == (0, d)
    ensures d in nodes && Parent(p) in ViewOf(nodes, paths) && ViewOf(nodes, paths)[Parent(p)] == Place(nodes[d].kind, nodes[d].proto)
    ensures var v := ViewOf(nodes, paths);
      var (code, n) := Lookup(nodes, d, NameOf(p));
      && code == WalkCode(v, p) && (code == 0 <==> p in v)
      && (code == 0 ==> n in nodes && v[p] == Place(nodes[n].kind, nodes[n].proto) && Descend(nodes, ROOT, p) == (0, n) && n in paths && paths[n] == p)
  {
    hide Agree, Rooted, Descend, Plain, ViewOf;
    ParentPlain(p);
    InView(nodes, paths, Parent(p));
    InView(nodes, paths, p);
    WalkAgrees(nodes, paths, p);
    RootAt(nodes, paths);
    if p == [] {
      RootAnswers(nodes);
      DescendNone(nodes);
    } else {
      DescendSnoc(nodes, ROOT, Parent(p), NameOf(p));
      assert Parent(p) + [NameOf(p)] == p;
      if Lookup(nodes, d, NameOf(p)).0 == 0 {
        LookupLive(nodes, d, NameOf(p));
        DescendHere(nodes, Lookup(nodes, d, NameOf(p)).1);
      }
    }
  }

  /** Where the parent is missing, so is the path. */
  lemma ParentMissing(v: View, p: Path)
    requires Closed(v) && WalkCode(v, Parent(p)) != 0
    ensures p !in v && WalkCode(v, p) == WalkCode(v, Parent(p))
  {
  }

  lemma MakeAgrees(nodes: Nodes, paths: PathMap, p: Path)
    requires Agree(nodes) && Rooted(nodes, paths) && 0 !in nodes && Plain(p)
    ensures MakeError(nodes, p) == MakeCode(ViewOf(nodes, paths), p)
  {
    hide Agree, Rooted, Descend, Plain, ViewOf, Lookup, WalkCode;
    ParentPlain(p);
    ViewClosed(nodes, paths);
    WalkAgrees(nodes, paths, Parent(p));
    var (code, d) := Descend(nodes, ROOT, Parent(p));
    if code == 0 {
      LastLookup(nodes, paths, p, d);
    } else {
      ParentMissing(ViewOf(nodes, paths), p);
    }
  }

  /**
    For any path string: nothing is made at the empty one; the parent of the place it resolves to is
    looked for first, and then a path that ends in no name is refused, whatever is there.
   */
  lemma MakeAtAgrees(nodes: Nodes, paths: PathMap, cwd: string, path: string)
    requires Agree(nodes) && Rooted(nodes, paths) && 0 !in nodes && IsAbsolute(cwd)
    ensures var v, p := ViewOf(nodes, paths), Resolved([cwd, path], cwd);
      MakeErrorAt(nodes, cwd, path) ==
        if path == "" then INVALID
        else if WalkCode(v, Parent(p)) != 0 then WalkCode(v, Parent(p))
        else if Base(path) in ["", ".", ".."] then INVALID
        else MakeCode(v, p)
  {
    hide Agree, Rooted, Descend, Plain, ViewOf, Lookup, WalkCode, MakeCode, MakeError, Resolved, Base;
    var p := Resolved([cwd, path], cwd);
    ResolvedPlain([cwd, path], cwd);
    ParentPlain(p);
    WalkAgrees(nodes, paths, Parent(p));
    MakeAgrees(nodes, paths, p);
  }

  lemma UnlinkAgrees(nodes: Nodes, paths: PathMap, p: Path)
    requires Agree(nodes) && Rooted(nodes, paths) && 0 !in nodes && Plain(p)
    ensures UnlinkError(nodes, p) == UnlinkCode(ViewOf(nodes, paths), p)
  {
    hide Agree, Rooted, Descend, Plain, ViewOf, Lookup, WalkCode;
    ParentPlain(p);
    ViewClosed(nodes, paths);
    WalkAgrees(nodes, paths, Parent(p));
    var (code, d) := Descend(nodes, ROOT, Parent(p));
    if code == 0 {
      LastLookup(nodes, paths, p, d);
    } else {
      ParentMissing(ViewOf(nodes, paths), p);
    }
  }

  lemma BusyIsOccupied(nodes: Nodes, paths: PathMap, n: nat)
    requires Agree(nodes) && Rooted(nodes, paths) && 0 !in nodes && n in nodes && nodes[n].kind.Dir?
    ensures n in paths && Busy(ViewOf(nodes, paths), paths[n]) == Occupied(nodes[n])
  {
    hide Agree, Rooted, ViewOf, Descend, Plain;
    ViewAt(nodes, paths, n);
    var v, p := ViewOf(nodes, paths), paths[n];
    if nodes[n].entries != map[] {
      var s :| s in nodes[n].entries;
      EntryPath(nodes, paths, n, s);
      ViewAt(nodes, paths, nodes[n].entries[s]);
      assert Parent(p + [s]) == p;
      assert p + [s] in v;
    }
    if exists c :: c in v && c != [] && Parent(c) == p {
      var c :| c in v && c != [] && Parent(c) == p;
      ChildEntry(nodes, paths, n, c);
    }
  }

  lemma EntryPath(nodes: Nodes, paths: PathMap, n: nat, s: string)
    requires Agree(nodes) && Rooted(nodes, paths) && 0 !in nodes && n in nodes && s in nodes[n].entries
    ensures var m := nodes[n].entries[s];
      m in nodes && m in paths && n in paths && paths[m] == paths[n] + [s]
  {
    assert Listed(nodes, n, s);
    assert Below(nodes, paths, nodes[n].entries[s]);
  }

  lemma ChildEntry(nodes: Nodes, paths: PathMap, n: nat, c: Path)
    requires Agree(nodes) && Rooted(nodes, paths) && 0 !in nodes && n in nodes && n in paths
    requires c in ViewOf(nodes, paths) && c != [] && Parent(c) == paths[n]
    ensures nodes[n].entries != map[]
  {
    hide Agree, Descend;
    RootAt(nodes, paths);
    RootedKeys(nodes, paths);
    hide Rooted;
    var m :| m in paths && paths[m] == c;
    ParentIsDir(nodes, paths, m);
    var d := nodes[m].parent;
    assert Parent(paths[d] + [nodes[m].name]) == paths[d];
    PathsDiffer(nodes, paths, d, n);
  }

  lemma RmdirAgrees(nodes: Nodes, paths: PathMap, cwd: string, p: Path)
    requires Agree(nodes) && Rooted(nodes, paths) && 0 !in nodes && Plain(p)
    ensures RmdirError(nodes, paths, cwd, p) == RmdirCode(ViewOf(nodes, paths), cwd, p)
  {
    hide Agree, Rooted, Descend, Plain, ViewOf, Lookup, WalkCode, Busy, Occupied;
    ParentPlain(p);
    ViewClosed(nodes, paths);
    WalkAgrees(nodes, paths, Parent(p));
    var (code, d) := Descend(nodes, ROOT, Parent(p));
    if code == 0 {
      LastLookup(nodes, paths, p, d);
      var (found, n) := Lookup(nodes, d, NameOf(p));
      if found == 0 {
        OwnParent(nodes, paths, n);
        if nodes[n].kind.Dir? {
          BusyIsOccupied(nodes, paths, n);
        }
      }
    } else {
      ParentMissing(ViewOf(nodes, paths), p);
    }
  }

  /** Only the root is its own parent, and only it has the empty path. */
  lemma OwnParent(nodes: Nodes, paths: PathMap, n: nat)
    requires Agree(nodes) && Rooted(nodes, paths) && n in nodes
    ensures n in paths && (nodes[n].parent == n <==> n == ROOT) && (n == ROOT <==> paths[n] == [])
  {
    if n != ROOT {
      assert Below(nodes, paths, n);
    }
  }

  lemma TruncateAgrees(nodes: Nodes, paths: PathMap, p: Path, length: int)
    requires Agree(nodes) && Rooted(nodes, paths) && 0 !in nodes && Plain(p)
    ensures TruncateError(nodes, p, length) == TruncateCode(ViewOf(nodes, paths), p, length)
  {
    hide Agree, Rooted, Descend, Plain, ViewOf, Lookup, WalkCode;
    WalkAgrees(nodes, paths, p);
    InView(nodes, paths, p);
  }

  lemma ReplaceAgrees(nodes: Nodes, paths: PathMap, cwd: string, n: nat, asDir: bool)
    requires Agree(nodes) && Rooted(nodes, paths) && 0 !in nodes && n in nodes
    ensures n in paths && paths[n] in ViewOf(nodes, paths)
    ensures DeleteError(nodes, paths, cwd, n, asDir) == ReplaceCode(ViewOf(nodes, paths), cwd, paths[n], asDir)
  {
    hide Agree, Rooted, Descend, Plain, ViewOf;
    ViewAt(nodes, paths, n);
    OwnParent(nodes, paths, n);
  }

  lemma SeenInsideIs(a: Path, b: Path, cwd: string)
    requires Plain(a) && Plain(b)
    ensures StartsWithDot(Relative(Absolute(a), Absolute(b), cwd)) <==> !SeenInside(a, b)
  {
    hide Relative, Plain;
    DescendantCheck(a, b, cwd);
  }

  /** The plan of a rename, seen from outside. */
  lemma PlanAgrees(nodes: Nodes, paths: PathMap, cwd: string, a: Path, b: Path)
    requires Agree(nodes) && Rooted(nodes, paths) && 0 !in nodes && Plain(a) && Plain(b)
    ensures var v, plan := ViewOf(nodes, paths), RenamePlan(nodes, paths, cwd, a, b);
      && RenameError(nodes, plan, NameOf(b)) == RenameCode(v, cwd, a, b)
      && (plan.code == 0 ==>
            && a in v && Parent(b) in v && plan.r in nodes && plan.k in nodes
            && plan.r in paths && paths[plan.r] == a && plan.k in paths && paths[plan.k] == Parent(b)
            && v[a].kind == nodes[plan.r].kind && v[Parent(b)].kind == nodes[plan.k].kind
            && (plan.r == plan.q <==> a == b) && (plan.q == 0 <==> b !in v)
            && plan.q == Lookup(nodes, plan.k, NameOf(b)).1)
      && plan.code != TYPE_ERROR
  {
    hide Agree, Rooted, Descend, Plain, ViewOf, Lookup, WalkCode, Busy, Occupied, Relative, SeenInside, DeleteError;
    var v := ViewOf(nodes, paths);
    ParentPlain(a);
    ParentPlain(b);
    ViewClosed(nodes, paths);
    WalkAgrees(nodes, paths, Parent(a));
    WalkAgrees(nodes, paths, Parent(b));
    SeenInsideIs(a, Parent(b), cwd);
    SeenInsideIs(b, Parent(a), cwd);
    var (ca, m) := Descend(nodes, ROOT, Parent(a));
    var (cb, k) := Descend(nodes, ROOT, Parent(b));
    if ca == 0 && cb == 0 {
      LastLookup(nodes, paths, a, m);
      LastLookup(nodes, paths, b, k);
      FoundNode(nodes, paths, Parent(b), k);
      LookupEnds(nodes, k, NameOf(b));
      var r, q := Lookup(nodes, m, NameOf(a)).1, Lookup(nodes, k, NameOf(b)).1;
      if a in v {
        ReplaceAgrees(nodes, paths, cwd, r, v[a].kind.Dir?);
        if b in v {
          ReplaceAgrees(nodes, paths, cwd, q, v[a].kind.Dir?);
          SamePath(nodes, paths, r, q);
          if nodes[q].kind.Dir? {
            BusyIsOccupied(nodes, paths, q);
          }
        }
      }
    }
  }

  lemma LookupEnds(nodes: Nodes, k: nat, s: string)
    requires k in nodes
    ensures Lookup(nodes, k, s).1 != 0 <==> Lookup(nodes, k, s).0 == 0
  {
  }

  lemma SamePath(nodes: Nodes, paths: PathMap, r: nat, q: nat)
    requires Agree(nodes) && Rooted(nodes, paths) && 0 !in nodes && r in nodes && q in nodes
    ensures r in paths && q in paths && (paths[r] == paths[q] <==> r == q)
  {
    hide Agree;
    if paths[r] == paths[q] {
      PathsDiffer(nodes, paths, r, q);
    }
  }

  // ---------------------------------------------------------------- the changes are those of the view

  lemma SnocSplits(x: Path, s: string, y: Path, t: string)
    requires x + [s] == y + [t]
    ensures x == y && s == t
  {
    assert (x + [s])[..|x|] == x && (y + [t])[..|y|] == y;
    assert (x + [s])[|x|] == s && (y + [t])[|y|] == t;
  }

  lemma FreePath(nodes: Nodes, paths: PathMap, d: nat, s: string, m: nat)
    requires Agree(nodes) && Rooted(nodes, paths) && 0 !in nodes && d in nodes && m in nodes && s !in nodes[d].entries
    ensures d in paths && m in paths && paths[m] != paths[d] + [s]
  {
    hide Agree, Rooted;
    RootAt(nodes, paths);
    RootedKeys(nodes, paths);
    if m != ROOT && paths[m] == paths[d] + [s] {
      ParentIsDir(nodes, paths, m);
      SnocSplits(paths[nodes[m].parent], nodes[m].name, paths[d], s);
      SamePath(nodes, paths, nodes[m].parent, d);
    }
  }

  /** A new node is what was asked for, at its path; all else is as it was, but for the mark that `__proto__` leaves. */
  lemma MadeShows(nodes: Nodes, paths: PathMap, d: nat, s: string, n: nat, kind: Kind)
    requires Agree(nodes) && Rooted(nodes, paths) && 0 !in nodes && d in nodes && nodes[d].kind.Dir?
    requires PlainName(s) && s !in nodes[d].entries && n !in nodes && n != 0
    ensures d in paths
    ensures ViewOf(Insert(nodes, d, s, n, kind), paths[n := paths[d] + [s]]) == MadeView(ViewOf(nodes, paths), paths[d] + [s], kind)
  {
    hide Agree, Rooted, Descend, Plain, PlainName, ViewOf;
    InsertKeeps(nodes, paths, d, s, n, kind);
    RootedKeys(nodes, paths);
    ViewAt(nodes, paths, d);
    var p, v := paths[d] + [s], ViewOf(nodes, paths);
    var after, paths1 := Insert(nodes, d, s, n, kind), paths[n := p];
    var w := MadeView(v, p, kind);
    assert Parent(p) == paths[d] && NameOf(p) == s;
    forall m | m in after
      ensures m in paths1 && paths1[m] in w && w[paths1[m]] == Place(after[m].kind, after[m].proto)
    {
      if m != n {
        ViewAt(nodes, paths, m);
        FreePath(nodes, paths, d, s, m);
        SamePath(nodes, paths, m, d);
      }
    }
    assert n in paths1 && paths1[n] == p;
    forall q | q in w
      ensures q in paths1.Values
    {
      if q != p {
        var m := ViewOwner(nodes, paths, q);
        assert m in paths1 && paths1[m] == q;
      }
    }
    ViewIs(after, paths1, w);
  }

  lemma ViewOwner(nodes: Nodes, paths: PathMap, p: Path) returns (n: nat)
    requires p in ViewOf(nodes, paths)
    ensures n in paths && paths[n] == p
  {
    n :| n in paths && paths[n] == p;
  }

  /** A removed node is gone, and nothing else changes. */
  lemma RemovedShows(nodes: Nodes, paths: PathMap, n: nat)
    requires Agree(nodes) && Rooted(nodes, paths) && 0 !in nodes && n in nodes && n != ROOT && nodes[n].entries == map[]
    ensures n in paths && ViewOf(Delete(nodes, n), paths - {n}) == ViewOf(nodes, paths) - {paths[n]}
  {
    hide Agree, Rooted, Descend, Plain, ViewOf;
    DeleteKeeps(nodes, paths, n);
    RootedKeys(nodes, paths);
    var after, paths1 := Delete(nodes, n), paths - {n};
    var w := ViewOf(nodes, paths) - {paths[n]};
    forall m | m in after
      ensures m in paths1 && paths1[m] in w && w[paths1[m]] == Place(after[m].kind, after[m].proto)
    {
      ViewAt(nodes, paths, m);
      SamePath(nodes, paths, m, n);
    }
    forall q | q in w
      ensures q in paths1.Values
    {
      var m := ViewOwner(nodes, paths, q);
      assert m in paths1 && paths1[m] == q;
    }
    ViewIs(after, paths1, w);
  }

  /** A truncated file has contents or has none, and nothing else changes. */
  lemma RefilledShows(nodes: Nodes, paths: PathMap, n: nat, filled: bool)
    requires Agree(nodes) && Rooted(nodes, paths) && 0 !in nodes && n in nodes && nodes[n].kind.File?
    ensures n in paths && paths[n] in ViewOf(nodes, paths)
    ensures var v := ViewOf(nodes, paths);
      ViewOf(Refill(nodes, n, filled), paths) == v[paths[n] := v[paths[n]].(kind := File(filled))]
  {
    hide Agree, Rooted, Descend, Plain, ViewOf;
    RefillKeeps(nodes, paths, n, filled);
    RootedKeys(nodes, paths);
    ViewAt(nodes, paths, n);
    var after := Refill(nodes, n, filled);
    var v := ViewOf(nodes, paths);
    var w := v[paths[n] := v[paths[n]].(kind := File(filled))];
    forall m | m in after
      ensures m in paths && paths[m] in w && w[paths[m]] == Place(after[m].kind, after[m].proto)
    {
      ViewAt(nodes, paths, m);
      SamePath(nodes, paths, m, n);
    }
    forall q | q in w
      ensures q in paths.Values
    {
      var m := ViewOwner(nodes, paths, q);
    }
    ViewIs(after, paths, w);
  }

  /** Where a path is free, everything below it is. */
  lemma {:induction false} NothingBelow(v: View, b: Path, p: Path)
    requires Closed(v) && b !in v && p in v
    ensures !(b <= p)
    decreases |p|
  {
    if b <= p {
      assert p != [] && p != b;
      assert b <= Parent(p);
      NothingBelow(v, b, Parent(p));
    }
  }

  /** An ordinary rename carries everything under the old path to the new one, and nothing else changes. */
  lemma MovedShows(nodes: Nodes, paths: PathMap, r: nat, k: nat, g: string)
    requires Agree(nodes) && Rooted(nodes, paths) && 0 !in nodes && r in nodes && r != ROOT && k in nodes && k != r
    requires nodes[k].kind.Dir? && PlainName(g) && g !in nodes[k].entries && r in paths && k in paths && !(paths[r] <= paths[k])
    ensures var v, a, b := ViewOf(nodes, paths), paths[r], paths[k] + [g];
      && (forall p :: p in v ==> !(b <= p))
      && ViewOf(Move(nodes, r, k, g), Moved(paths, a, b)) == RenamedView(v, a, b)
  {
    hide Agree, Rooted, Descend, Plain, PlainName, ViewOf, Closed;
    MoveAgrees(nodes, r, k, g);
    ParentOf(nodes, paths, r);
    MoveRooted(nodes, paths, r, k, g);
    RootedKeys(nodes, paths);
    MoveSameKeys(nodes, r, k, g);
    ViewClosed(nodes, paths);
    var v, a, b := ViewOf(nodes, paths), paths[r], paths[k] + [g];
    var after, paths1 := Move(nodes, r, k, g), Moved(paths, a, b);
    if b in v {
      var m := ViewOwner(nodes, paths, b);
      FreePath(nodes, paths, k, g, m);
    }
    forall p | p in v
      ensures !(b <= p)
    {
      NothingBelow(v, b, p);
    }
    var w := RenamedView(v, a, b);
    assert Parent(b) == paths[k] && NameOf(b) == g;
    forall m | m in after
      ensures m in paths1 && paths1[m] in w && w[paths1[m]] == Place(after[m].kind, after[m].proto)
    {
      ViewAt(nodes, paths, m);
      ViewAt(nodes, paths, k);
      MovedPlace(nodes, r, k, g, m);
      CarriedPlace(v, a, b, paths[m]);
      SamePath(nodes, paths, m, k);
    }
    forall q | q in w
      ensures q in paths1.Values
    {
      var p := CarriedFrom(v, a, b, q);
      var m := ViewOwner(nodes, paths, p);
      assert m in paths1 && paths1[m] == q;
    }
    ViewIs(after, paths1, w);
  }

  lemma MovedPlace(nodes: Nodes, r: nat, k: nat, g: string, m: nat)
    requires r in nodes && k in nodes && m in nodes && k != r && nodes[k].kind.Dir? && nodes[r].parent in nodes && nodes[r].parent != r
    ensures m in Move(nodes, r, k, g)
    ensures var x := Move(nodes, r, k, g)[m];
      x.kind == nodes[m].kind && x.proto == (nodes[m].proto || (m == k && g == PROTO))
  {
  }

  lemma CarriedAt(v: View, a: Path, b: Path, p: Path)
    requires (forall q :: q in v ==> !(b <= q)) && p in v
    ensures Carried(a, b, p) in CarriedView(v, a, b) && CarriedView(v, a, b)[Carried(a, b, p)] == v[p]
  {
    hide Carried;
    forall q | q in v && Carried(a, b, q) == Carried(a, b, p)
      ensures q == p
    {
      CarriedApart(a, b, p, q);
    }
  }

  /** What was at `p` is where `p` was carried. */
  lemma CarriedPlace(v: View, a: Path, b: Path, p: Path)
    requires (forall q :: q in v ==> !(b <= q)) && p in v && b != [] && Parent(b) in v && !(a <= Parent(b))
    ensures var w := RenamedView(v, a, b);
      && Carried(a, b, p) in w
      && w[Carried(a, b, p)] == Place(v[p].kind, v[p].proto || (p == Parent(b) && NameOf(b) == PROTO))
  {
    hide CarriedView;
    CarriedAt(v, a, b, p);
    CarriedAt(v, a, b, Parent(b));
    if Carried(a, b, p) == Carried(a, b, Parent(b)) {
      CarriedApart(a, b, p, Parent(b));
    }
  }

  lemma CarriedFrom(v: View, a: Path, b: Path, q: Path) returns (p: Path)
    requires (forall p :: p in v ==> !(b <= p)) && q in RenamedView(v, a, b)
    ensures p in v && Carried(a, b, p) == q
  {
    p :| p in v && Carried(a, b, p) == q;
  }

  // ---------------------------------------------------------------- operations and runs

  /** A rename that replaces something, puts it below a file or below itself. */
  predicate ExceptionalHere(v: View, cwd: string, op: Operation) {
    op.Rename? && op.from != op.to &&
    var code := RenameCode(v, cwd, op.from, op.to);
    && (code == 0 || code == TYPE_ERROR)
    && !(code == 0 && op.to !in v && Parent(op.to) in v && v[Parent(op.to)].kind.Dir? && !(op.from <= Parent(op.to)))
  }

  /** An operation's error code, and the view behind it unless it is an exceptional rename. */
  function Effect(v: View, cwd: string, op: Operation): (nat, View) {
    match op
    case Create(p) => (MakeCode(v, p), if MakeCode(v, p) == 0 then MadeView(v, p, File(false)) else v)
    case MakeDir(p) => (MakeCode(v, p), if MakeCode(v, p) == 0 then MadeView(v, p, Dir) else v)
    case Unlink(p) => (UnlinkCode(v, p), if UnlinkCode(v, p) == 0 then v - {p} else v)
    case Rmdir(p) => (RmdirCode(v, cwd, p), if RmdirCode(v, cwd, p) == 0 then v - {p} else v)
    case Truncate(p, length) =>
      (TruncateCode(v, p, length), if TruncateCode(v, p, length) == 0 && p in v then v[p := v[p].(kind := File(length > 0))] else v)
    case Rename(a, b) =>
      (RenameCode(v, cwd, a, b),
       if RenameCode(v, cwd, a, b) == 0 && a != b && forall p :: p in v ==> !(b <= p) then RenamedView(v, a, b) else v)
  }

  ghost predicate SoundTree(st: Tree) {
    Agree(st.nodes) && Rooted(st.nodes, st.paths) && 0 !in st.nodes && forall n :: n in st.nodes ==> n < st.ids
  }

  function Seen(st: Tree): View {
    ViewOf(st.nodes, st.paths)
  }

  lemma MadeEffect(st: Tree, p: Path, kind: Kind)
    requires SoundTree(st) && Plain(p)
    ensures var (code, after) := Made(st, p, kind);
      && code == MakeCode(Seen(st), p) && SoundTree(after)
      && Seen(after) == if code == 0 then MadeView(Seen(st), p, kind) else Seen(st)
  {
    hide Agree, Rooted, Descend, Plain, ViewOf, Lookup, WalkCode, MakeCode, MadeView;
    MakeAgrees(st.nodes, st.paths, p);
    RootAt(st.nodes, st.paths);
    if MakeError(st.nodes, p) == 0 {
      var d := Descend(st.nodes, ROOT, Parent(p)).1;
      ParentPlain(p);
      FoundNode(st.nodes, st.paths, Parent(p), d);
      FreeName(st.nodes, d, NameOf(p));
      MakeName(st.nodes, p);
      InsertKeeps(st.nodes, st.paths, d, NameOf(p), st.ids, kind);
      MadeShows(st.nodes, st.paths, d, NameOf(p), st.ids, kind);
      NotTheRoot(st.nodes, p);
      assert Parent(p) + [NameOf(p)] == p;
    }
  }

  lemma NotTheRoot(nodes: Nodes, p: Path)
    requires Agree(nodes) && MakeError(nodes, p) == 0
    ensures p != []
  {
    RootAnswers(nodes);
    if p == [] {
      DescendNone(nodes);
    }
  }

  lemma RemovedEffect(st: Tree, p: Path, n: nat)
    requires SoundTree(st) && Plain(p) && n in st.nodes && n in st.paths && st.paths[n] == p && n != ROOT && st.nodes[n].entries == map[]
    ensures var after := Tree(Delete(st.nodes, n), st.paths - {n}, st.ids);
      SoundTree(after) && Seen(after) == Seen(st) - {p}
  {
    hide Agree, Rooted, ViewOf, Plain;
    DeleteKeeps(st.nodes, st.paths, n);
    RemovedShows(st.nodes, st.paths, n);
  }

  lemma UnlinkedEffect(st: Tree, p: Path)
    requires SoundTree(st) && Plain(p)
    ensures var (code, after) := Removed(st, p, UnlinkError(st.nodes, p));
      code == UnlinkCode(Seen(st), p) && SoundTree(after) && Seen(after) == if code == 0 then Seen(st) - {p} else Seen(st)
  {
    hide Agree, Rooted, Descend, Plain, ViewOf, WalkCode, UnlinkError;
    UnlinkAgrees(st.nodes, st.paths, p);
    InView(st.nodes, st.paths, p);
    WalkAgrees(st.nodes, st.paths, p);
    var n := Descend(st.nodes, ROOT, p).1;
    if UnlinkError(st.nodes, p) == 0 {
      FileIsEmpty(st.nodes, n);
      RemovedEffect(st, p, n);
    }
  }

  lemma RmdirEffect(st: Tree, cwd: string, p: Path)
    requires SoundTree(st) && Plain(p)
    ensures var (code, after) := Removed(st, p, RmdirError(st.nodes, st.paths, cwd, p));
      code == RmdirCode(Seen(st), cwd, p) && SoundTree(after) && Seen(after) == if code == 0 then Seen(st) - {p} else Seen(st)
  {
    hide Agree, Rooted, Descend, Plain, ViewOf, WalkCode, RmdirError, Busy;
    RmdirAgrees(st.nodes, st.paths, cwd, p);
    InView(st.nodes, st.paths, p);
    WalkAgrees(st.nodes, st.paths, p);
    var n := Descend(st.nodes, ROOT, p).1;
    if RmdirError(st.nodes, st.paths, cwd, p) == 0 {
      OwnParent(st.nodes, st.paths, n);
      BusyIsOccupied(st.nodes, st.paths, n);
      RemovedEffect(st, p, n);
    }
  }

  lemma TruncatedEffect(st: Tree, cwd: string, p: Path, length: int)
    requires SoundTree(st) && Plain(p)
    ensures var (code, after) := Apply(st, cwd, Truncate(p, length));
      SoundTree(after) && (code, Seen(after)) == Effect(Seen(st), cwd, Truncate(p, length))
  {
    hide Agree, Rooted, Descend, Plain, ViewOf, WalkCode, TruncateError;
    TruncateAgrees(st.nodes, st.paths, p, length);
    InView(st.nodes, st.paths, p);
    WalkAgrees(st.nodes, st.paths, p);
    var n := Descend(st.nodes, ROOT, p).1;
    if TruncateError(st.nodes, p, length) == 0 {
      RefillKeeps(st.nodes, st.paths, n, length > 0);
      RefilledShows(st.nodes, st.paths, n, length > 0);
    }
  }

  lemma RenameKept(st: Tree, a: Path, b: Path, r: nat, k: nat)
    requires SoundTree(st) && Plain(a) && Plain(b) && r in st.nodes && k in st.nodes && r in st.paths && k in st.paths
    requires st.paths[r] == a && st.paths[k] == Parent(b) && st.nodes[k].kind.Dir? && b !in Seen(st) && !(a <= Parent(b))
    requires Lookup(st.nodes, k, NameOf(b)).1 == 0
    ensures var after := Tree(Move(st.nodes, r, k, NameOf(b)), Moved(st.paths, a, b), st.ids);
      && SoundTree(after) && (forall p :: p in Seen(st) ==> !(b <= p))
      && Seen(after) == RenamedView(Seen(st), a, b)
  {
    hide Agree, Rooted, Descend, Plain, ViewOf, Lookup, RenamedView, Moved, Move;
    ViewClosed(st.nodes, st.paths);
    RootAt(st.nodes, st.paths);
    assert b != [];
    LastIsPlain(b);
    assert Parent(b) + [NameOf(b)] == b;
    LookupEnds(st.nodes, k, NameOf(b));
    FreeName(st.nodes, k, NameOf(b));
    ParentOf(st.nodes, st.paths, r);
    MoveAgrees(st.nodes, r, k, NameOf(b));
    MoveRooted(st.nodes, st.paths, r, k, NameOf(b));
    MoveSameKeys(st.nodes, r, k, NameOf(b));
    MovedShows(st.nodes, st.paths, r, k, NameOf(b));
  }

  lemma RenamedEffect(st: Tree, cwd: string, a: Path, b: Path)
    requires SoundTree(st) && Plain(a) && Plain(b)
    ensures Exceptional(st, cwd, Rename(a, b)) <==> ExceptionalHere(Seen(st), cwd, Rename(a, b))
    ensures !Exceptional(st, cwd, Rename(a, b)) ==>
      var (code, after) := Apply(st, cwd, Rename(a, b));
      SoundTree(after) && (code, Seen(after)) == Effect(Seen(st), cwd, Rename(a, b))
  {
    hide Agree, Rooted, Descend, Plain, ViewOf, WalkCode, RenamePlan, RelocateError, RenameCode, RenamedView, Moved, Move;
    PlanAgrees(st.nodes, st.paths, cwd, a, b);
    var plan := RenamePlan(st.nodes, st.paths, cwd, a, b);
    var code := RenameError(st.nodes, plan, NameOf(b));
    if Changes(plan, code) && KeepsTree(st.nodes, plan, code, a, b) {
      RenameKept(st, a, b, plan.r, plan.k);
    }
  }

  /** An operation does to the view what `Effect` says, unless it is an exceptional rename, which the view tells as well. */
  lemma {:induction false} EffectAgrees(st: Tree, cwd: string, op: Operation)
    requires SoundTree(st) && PlainOperation(op)
    ensures Exceptional(st, cwd, op) <==> ExceptionalHere(Seen(st), cwd, op)
    ensures !Exceptional(st, cwd, op) ==>
      var (code, after) := Apply(st, cwd, op);
      SoundTree(after) && (code, Seen(after)) == Effect(Seen(st), cwd, op)
  {
    hide SoundTree, Plain, Seen, Made, Removed, MakeCode, UnlinkCode, RmdirCode, TruncateCode, RenameCode, MadeView, RenamedView;
    match op
    case Create(p) => MadeEffect(st, p, File(false));
    case MakeDir(p) => MadeEffect(st, p, Dir);
    case Unlink(p) => UnlinkedEffect(st, p);
    case Rmdir(p) => RmdirEffect(st, cwd, p);
    case Truncate(p, length) => TruncatedEffect(st, cwd, p, length);
    case Rename(a, b) => RenamedEffect(st, cwd, a, b);
  }

  function EffectOfAll(v: View, cwd: string, ops: seq<Operation>): View {
    if |ops| == 0 then v else Effect(EffectOfAll(v, cwd, ops[..|ops| - 1]), cwd, ops[|ops| - 1]).1
  }

  function CodesSeen(v: View, cwd: string, ops: seq<Operation>): seq<nat> {
    if |ops| == 0 then []
    else
      var before := ops[..|ops| - 1];
      CodesSeen(v, cwd, before) + [Effect(EffectOfAll(v, cwd, before), cwd, ops[|ops| - 1]).0]
  }

  /** Whole runs: the codes and what is where at the end follow from the view alone. */
  lemma {:induction false} RunsAgree(st: Tree, cwd: string, ops: seq<Operation>)
    requires SoundTree(st) && forall i :: 0 <= i < |ops| ==> PlainOperation(ops[i])
    requires forall i :: 0 <= i < |ops| ==> !Exceptional(ApplyAll(st, cwd, ops[..i]), cwd, ops[i])
    ensures SoundTree(ApplyAll(st, cwd, ops))
    ensures Seen(ApplyAll(st, cwd, ops)) == EffectOfAll(Seen(st), cwd, ops) && Codes(st, cwd, ops) == CodesSeen(Seen(st), cwd, ops)
    decreases |ops|
  {
    hide SoundTree, Seen, Apply, Effect, Exceptional, PlainOperation;
    if |ops| > 0 {
      var before := ops[..|ops| - 1];
      forall i | 0 <= i < |before|
        ensures before[i] == ops[i] && before[..i] == ops[..i]
      {
      }
      RunsAgree(st, cwd, before);
      EffectAgrees(ApplyAll(st, cwd, before), cwd, ops[|ops| - 1]);
    }
  }

  ghost function Visible(fs: FileSystem): View
    reads fs, fs.table
  {
    Seen(TreeOf(fs))
  }

  /**
    The file system itself, hash table and all: any list of operations, up to the first exceptional
    rename, has the codes and the effects that the view says.
   */
  method Run(fs: FileSystem, ops: seq<Operation>) returns (codes: seq<nat>)
    requires fs.Valid() && IsAbsolute(fs.cwd) && forall i :: 0 <= i < |ops| ==> PlainOperation(ops[i])
    modifies fs, fs.table
    ensures fs.Valid() && |codes| <= |ops|
    ensures codes == CodesSeen(old(Visible(fs)), fs.cwd, ops[..|codes|])
    ensures Visible(fs) == EffectOfAll(old(Visible(fs)), fs.cwd, ops[..|codes|])
    ensures |codes| < |ops| ==> ExceptionalHere(Visible(fs), fs.cwd, ops[|codes|])
  {
    hide Apply, Exceptional, Agree, Rooted, Descend, ExceptionalHere, ViewOf, PlainOperation, EffectOfAll, CodesSeen, ApplyAll, Codes;
    ghost var st := TreeOf(fs);
    SoundNow(fs);
    codes := Perform(fs, ops);
    ghost var done := ops[..|codes|];
    assert forall i :: 0 <= i < |done| ==> done[..i] == ops[..i];
    RunsAgree(st, fs.cwd, done);
    SoundNow(fs);
    if |codes| < |ops| {
      EffectAgrees(TreeOf(fs), fs.cwd, ops[|codes|]);
    }
  }

  lemma SoundNow(fs: FileSystem)
    requires fs.Valid()
    ensures SoundTree(TreeOf(fs))
  {
    hide Agree, Rooted;
  }

  // ---------------------------------------------------------------- what follows for callers

  /** A new path has nothing below it. */
  lemma NewIsEmpty(v: View, p: Path, kind: Kind)
    requires Closed(v) && MakeCode(v, p) == 0
    ensures p in MadeView(v, p, kind) && MadeView(v, p, kind)[p] == Place(kind, false) && !Busy(MadeView(v, p, kind), p)
    ensures p != [] && Parent(p) in v && Parent(p) != p
  {
    var w := MadeView(v, p, kind);
    forall c | c in w && c != [] && c != p
      ensures Parent(c) != p
    {
      assert c in v;
      if Parent(c) == p {
        NothingBelow(v, p, c);
      }
    }
  }

  /**
    What was made is of the kind asked for: a file can be unlinked and not removed as a directory,
    a directory the other way round, unless it is the working directory. Either way all is as it
    was before, but for the mark that the name `__proto__` leaves in the directory.
   */
  lemma MakeThenRemove(v: View, cwd: string, p: Path)
    requires Closed(v) && MakeCode(v, p) == 0
    ensures var file, dir := Effect(v, cwd, Create(p)).1, Effect(v, cwd, MakeDir(p)).1;
      && Effect(file, cwd, Unlink(p)) == (0, NameWritten(v, p)) && Effect(file, cwd, Rmdir(p)) == (NOT_DIR, file)
      && Effect(dir, cwd, Unlink(p)) == (IS_DIR, dir)
      && Effect(dir, cwd, Rmdir(p)) == if Absolute(p) == cwd then (BUSY, dir) else (0, NameWritten(v, p))
    ensures NameOf(p) != PROTO ==> NameWritten(v, p) == v
  {
    hide MakeCode, Busy;
    NewIsEmpty(v, p, File(false));
    NewIsEmpty(v, p, Dir);
    NewIsFree(v, p);
    assert MadeView(v, p, File(false)) - {p} == NameWritten(v, p) == MadeView(v, p, Dir) - {p};
  }

  lemma NewIsFree(v: View, p: Path)
    requires MakeCode(v, p) == 0
    ensures p !in v
  {
  }
}
