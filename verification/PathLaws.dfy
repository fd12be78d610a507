/** What path strings mean: laws that the path functions obey on all strings. */
module PathLaws {
  import opened Paths

  // ---------------------------------------------------------------- splitting

  predicate SlashFree(parts: seq<string>) {
    |parts| > 0 && forall i :: 0 <= i < |parts| ==> '/' !in parts[i]
  }

  lemma {:induction false} JoinOfSplit(s: string)
    ensures SlashFree(Split(s)) && Join(Split(s)) == s
    decreases |s|
  {
    SplitNames(s);
    if |s| > 0 {
      JoinOfSplit(s[1..]);
      var others := Split(s[1..]);
      if s[0] == '/' {
        assert ([""] + others)[1..] == others;
        assert s == "/" + s[1..];
      } else {
        var parts := [[s[0]] + others[0]] + others[1..];
        assert parts[1..] == others[1..];
        JoinHead([s[0]], others);
        assert s == [s[0]] + s[1..];
      }
    }
  }

  lemma JoinHead(x: string, parts: seq<string>)
    requires |parts| > 0
    ensures Join([x + parts[0]] + parts[1..]) == x + Join(parts)
  {
    hide Join;
    var l := [x + parts[0]] + parts[1..];
    assert l[1..] == parts[1..] && l[0] == x + parts[0];
    JoinStep(l);
    JoinStep(parts);
    if |parts| > 1 {
      Regroup(x, parts[0], Join(parts[1..]));
    }
  }

  lemma JoinStep(parts: seq<string>)
    requires |parts| > 0
    ensures Join(parts) == if |parts| == 1 then parts[0] else parts[0] + "/" + Join(parts[1..])
  {
  }

  lemma Regroup(x: string, y: string, z: string)
    ensures (x + y) + "/" + z == x + (y + "/" + z)
  {
  }

  lemma {:induction false} SplitOfJoin(parts: seq<string>)
    requires SlashFree(parts)
    ensures Split(Join(parts)) == parts
    decreases |parts|
  {
    SplitName(parts[0]);
    if |parts| == 1 {
      assert parts == [parts[0]];
    } else {
      assert SlashFree(parts[1..]);
      SplitConcat(parts[0], Join(parts[1..]));
      SplitOfJoin(parts[1..]);
      assert [parts[0]] + parts[1..] == parts;
    }
  }

  /** The parts of a string are the only strings without slashes that joined give it back. */
  lemma SplitIs(s: string, parts: seq<string>)
    ensures parts == Split(s) <==> SlashFree(parts) && Join(parts) == s
  {
    hide Split, Join;
    JoinOfSplit(s);
    if SlashFree(parts) {
      SplitOfJoin(parts);
    }
  }

  // ---------------------------------------------------------------- normal forms

  lemma WalkOne(at: Climb, part: string)
    ensures Walk(at, [part]) == Visit(at, part)
  {
    assert [part][..0] == [];
    assert Walk(at, []) == at;
  }

  /** A part in the middle of a path. */
  lemma Middle(x: seq<string>, mid: seq<string>, y: seq<string>)
    ensures Walk(START, x + mid + y) == Walk(Walk(Walk(START, x), mid), y)
    ensures Walk(START, x + y) == Walk(Walk(START, x), y)
  {
    hide Walk;
    WalkConcat(START, x + mid, y);
    WalkConcat(START, x, mid);
    WalkConcat(START, x, y);
  }

  /** "." means nothing, ".." undoes the name before it and leads nowhere from the root, and names stand for themselves. */
  lemma NormalLaws(x: seq<string>, name: string, y: seq<string>, above: bool)
    requires name != "." && name != ".."
    ensures Normal(x + ["."] + y, above) == Normal(x + y, above)
    ensures Normal(x + [name, ".."] + y, above) == Normal(x + y, above)
    ensures Normal([".."] + y, false) == Normal(y, false)
    ensures Plain(y) ==> Normal(y, above) == y && Normal([".."] + y, true) == [".."] + y
  {
    hide Walk, Plain;
    Middle(x, ["."], y);
    WalkOne(Walk(START, x), ".");
    Middle(x, [name, ".."], y);
    NameAndUp(Walk(START, x), name);
    WalkConcat(START, [".."], y);
    WalkOne(START, "..");
    WalkShift(Climb([], 1), y);
    assert Drop(Climb([], 1), Walk(START, y).ups).stack == [];
    if Plain(y) {
      WalkDown(START, y);
      WalkDown(Climb([], 1), y);
      assert Ups(1) == [".."];
      assert [] + y == y;
    }
  }

  lemma NameAndUp(at: Climb, name: string)
    requires name != "." && name != ".."
    ensures Walk(at, [name, ".."]) == at
  {
    WalkOne(at, name);
    assert [name, ".."][..1] == [name];
    assert (at.stack + [name])[..|at.stack|] == at.stack;
  }

  /** A normalised path is absolute if the path was, and ends in a slash if the path did or nothing is left of an absolute one. */
  lemma NormalizeKeeps(s: string)
    ensures IsAbsolute(Normalize(s)) <==> IsAbsolute(s)
    ensures EndsInSlash(Normalize(s)) <==> EndsInSlash(s) || (IsAbsolute(s) && Normal(Components(s), false) == [])
    ensures Normalize(s) != ""
    ensures Normal(Components(Normalize(s)), !IsAbsolute(s)) == Normal(Components(s), !IsAbsolute(s))
  {
    hide Components, Normal, Join;
    var above := !IsAbsolute(s);
    var parts := Normal(Components(s), above);
    ComponentsAreNames(s);
    NormalNames(Components(s), above);
    NormalIdempotent(Components(s), above);
    ComponentsOfJoin(parts);
    JoinShape(parts);
    EmptyJoin();
    DotComponents();
    var body := Join(parts);
    if |parts| == 0 {
      assert body == "";
      ComponentsOfJoin([]);
      assert "/" + "" == "/" && "." + "/" == "./" && "" + "." == "." && "" + "./" == "./";
      if above {
        assert Normalize(s) == if EndsInSlash(s) then "./" else ".";
      } else {
        assert Normalize(s) == "/";
      }
    } else {
      assert "/" + (body + "/") == "/" + body + "/";
      NamedEnds(s, body);
      assert "" + body == body && body + "" == body && "" + body + "/" == body + "/";
      assert Components(Normalize(s)) == parts;
    }
  }

  lemma NamedEnds(s: string, body: string)
    requires body != "" && !EndsInSlash(body) && !IsAbsolute(body) && body == Join(Normal(Components(s), !IsAbsolute(s)))
    ensures Normalize(s) == (if IsAbsolute(s) then "/" else "") + body + (if EndsInSlash(s) then "/" else "")
    ensures IsAbsolute(Normalize(s)) <==> IsAbsolute(s)
    ensures EndsInSlash(Normalize(s)) <==> EndsInSlash(s)
  {
    hide Components, Normal, Join;
  }

  // ---------------------------------------------------------------- resolving

  lemma {:induction false} GatherMore(args: seq<string>, p: string, cwd: string, c: nat, a: string)
    requires c <= |args|
    ensures Gather(args + [p], cwd, c, a) == Gather(args, cwd, c, a)
    decreases c
  {
    if c > 0 {
      assert (args + [p])[c - 1] == args[c - 1];
      if args[c - 1] != "" && !IsAbsolute(args[c - 1]) {
        GatherMore(args, p, cwd, c - 1, args[c - 1] + "/" + a);
      }
    }
  }

  lemma {:induction false} GatherSuffix(args: seq<string>, cwd: string, c: nat, a: string, suffix: string)
    requires c <= |args|
    ensures Gather(args, cwd, c, a + suffix) ==
      match Gather(args, cwd, c, a) case Empty => Empty case Gathered(path) => Gathered(path + suffix)
    decreases c
  {
    var arg := if c > 0 then args[c - 1] else cwd;
    assert arg + "/" + (a + suffix) == (arg + "/" + a) + suffix;
    if arg != "" && c > 0 && !IsAbsolute(arg) {
      GatherSuffix(args, cwd, c - 1, arg + "/" + a, suffix);
    }
  }

  /** Every path that is gathered ends where the last argument is followed by a slash. */
  lemma {:induction false} GatherEnds(args: seq<string>, cwd: string, c: nat, a: string)
    requires c <= |args| && (a == "" || EndsInSlash(a))
    ensures var g := Gather(args, cwd, c, a); g.Gathered? ==> EndsInSlash(g.path)
    decreases c
  {
    var arg := if c > 0 then args[c - 1] else cwd;
    if arg != "" && c > 0 && !IsAbsolute(arg) {
      GatherEnds(args, cwd, c - 1, arg + "/" + a);
    }
  }

  /**
    Resolving is changing directory, argument by argument: an absolute path starts at the root,
    a relative one at the place that the arguments before it resolve to, from the working directory at first.
   */
  lemma ResolveStep(args: seq<string>, p: string, cwd: string)
    requires p != "" && Gather(args, cwd, |args|, "").Gathered?
    ensures Resolved(args + [p], cwd) ==
      Walk(Climb(if IsAbsolute(p) then [] else Resolved(args, cwd), 0), Components(p)).stack
  {
    hide Components, Walk, Drop;
    var all := args + [p];
    assert all[|args|] == p;
    var g := Gather(args, cwd, |args|, "");
    NoMore(p);
    if IsAbsolute(p) {
      assert Gather(all, cwd, |all|, "") == Gathered(p + "/" + "");
    } else {
      GatherMore(args, p, cwd, |args|, p + "/" + "");
      GatherSuffix(args, cwd, |args|, "", p + "/" + "");
      assert "" + (p + "/" + "") == p + "/" + "";
      GatherEnds(args, cwd, |args|, "");
      var path := g.path;
      var x := path[..|path| - 1];
      assert path == x + "/" && path + (p + "/" + "") == x + "/" + (p + "/" + "");
      ComponentsConcat(x, p + "/" + "");
      ComponentsConcat(x, "");
      NoParts();
      assert x + "/" + "" == path;
      assert Components(x) + [] == Components(x);
      WalkConcat(START, Components(path), Components(p));
      SameStack(Walk(START, Components(path)), Components(p));
    }
  }

  lemma NoMore(p: string)
    ensures Components(p + "/" + "") == Components(p)
  {
    hide Components;
    ComponentsConcat(p, "");
    NoParts();
    assert Components(p) + [] == Components(p);
  }

  lemma NoParts()
    ensures Components("") == []
  {
  }

  /** How far above its start a walk has been does not matter to where it goes. */
  lemma SameStack(at: Climb, parts: seq<string>)
    ensures Walk(at, parts).stack == Walk(Climb(at.stack, 0), parts).stack
  {
    hide Walk;
    WalkShift(at, parts);
    WalkShift(Climb(at.stack, 0), parts);
  }

  /** Without arguments the working directory is resolved; an empty argument resolves to nothing at all. */
  lemma ResolveEnds(args: seq<string>, cwd: string)
    requires IsAbsolute(cwd)
    ensures Resolved([], cwd) == Normal(Components(cwd), false)
    ensures Resolve(args + [""], cwd) == "" && Resolve([], cwd) != ""
  {
    hide Components, Normal, Join;
    assert (args + [""])[|args|] == "";
    NoMore(cwd);
    assert Gather([], cwd, 0, "") == Gathered(cwd + "/" + "");
  }
}
