/**
  Path strings of the in-memory file system: splitting, normalising, resolving and
  relative paths (`Pb`, `Qb`, `Vb` and `Wb` in the minified source).
 */
module Paths {

  // ---------------------------------------------------------------- splitting and joining

  /** s.split("/"). */
  function Split(s: string): (parts: seq<string>)
    ensures |parts| >= 1
  {
    if |s| == 0 then [""]
    else
      var others := Split(s[1..]);
      if s[0] == '/' then [""] + others else [[s[0]] + others[0]] + others[1..]
  }

  function NonEmpty(parts: seq<string>): (r: seq<string>)
    ensures forall i :: 0 <= i < |r| ==> r[i] != ""
  {
    if |parts| == 0 then []
    else if parts[0] == "" then NonEmpty(parts[1..])
    else [parts[0]] + NonEmpty(parts[1..])
  }

  /** The non-empty components of a path. */
  function Components(s: string): (r: seq<string>)
    ensures forall i :: 0 <= i < |r| ==> r[i] != ""
  {
    NonEmpty(Split(s))
  }

  /** parts.join("/"). */
  function Join(parts: seq<string>): string {
    if |parts| == 0 then ""
    else if |parts| == 1 then parts[0]
    else parts[0] + "/" + Join(parts[1..])
  }

  predicate IsName(s: string) {
    s != "" && '/' !in s
  }

  lemma {:induction false} SplitConcat(x: string, y: string)
    ensures Split(x + "/" + y) == Split(x) + Split(y)
    decreases |x|
  {
    var s := x + "/" + y;
    if |x| == 0 {
      assert s == "/" + y;
      assert s[1..] == y;
    } else {
      assert s[1..] == x[1..] + "/" + y;
      SplitConcat(x[1..], y);
    }
  }

  lemma {:induction false} NonEmptyConcat(a: seq<string>, b: seq<string>)
    ensures NonEmpty(a + b) == NonEmpty(a) + NonEmpty(b)
  {
    if |a| == 0 {
      assert a + b == b;
    } else {
      assert (a + b)[1..] == a[1..] + b;
      NonEmptyConcat(a[1..], b);
    }
  }

  lemma ComponentsConcat(x: string, y: string)
    ensures Components(x + "/" + y) == Components(x) + Components(y)
  {
    SplitConcat(x, y);
    NonEmptyConcat(Split(x), Split(y));
  }

  lemma {:induction false} SplitName(s: string)
    requires '/' !in s
    ensures Split(s) == [s]
  {
    if |s| > 0 {
      SplitName(s[1..]);
      assert [s[0]] + s[1..] == s;
    }
  }

  lemma {:induction false} SplitNames(s: string)
    ensures forall i :: 0 <= i < |Split(s)| ==> '/' !in Split(s)[i]
  {
    if |s| > 0 {
      SplitNames(s[1..]);
    }
  }

  lemma {:induction false} NonEmptyNames(parts: seq<string>)
    requires forall i :: 0 <= i < |parts| ==> '/' !in parts[i]
    ensures forall i :: 0 <= i < |NonEmpty(parts)| ==> IsName(NonEmpty(parts)[i])
  {
    if |parts| > 0 {
      NonEmptyNames(parts[1..]);
    }
  }

  lemma ComponentsAreNames(s: string)
    ensures forall i :: 0 <= i < |Components(s)| ==> IsName(Components(s)[i])
  {
    SplitNames(s);
    NonEmptyNames(Split(s));
  }

  predicate Names(parts: seq<string>) {
    forall i :: 0 <= i < |parts| ==> IsName(parts[i])
  }

  lemma {:induction false} SplitJoin(parts: seq<string>)
    requires Names(parts)
    ensures Split(Join(parts)) == if |parts| == 0 then [""] else parts
  {
    if |parts| == 1 {
      SplitName(parts[0]);
    } else if |parts| > 1 {
      SplitConcat(parts[0], Join(parts[1..]));
      SplitName(parts[0]);
      SplitJoin(parts[1..]);
    }
  }

  lemma {:induction false} NonEmptyOfNames(parts: seq<string>)
    requires Names(parts)
    ensures NonEmpty(parts) == parts
  {
    if |parts| > 0 {
      assert IsName(parts[0]);
      NonEmptyOfNames(parts[1..]);
    }
  }

  /** Joining names and splitting again gives the names back. */
  lemma ComponentsOfJoin(parts: seq<string>)
    requires Names(parts)
    ensures Components(Join(parts)) == parts
    ensures Components("/" + Join(parts)) == parts && Components(Join(parts) + "/") == parts
    ensures Components("/" + Join(parts) + "/") == parts
  {
    SplitJoin(parts);
    NonEmptyOfNames(parts);
    var j := Join(parts);
    ComponentsConcat("", j);
    ComponentsConcat(j, "");
    ComponentsConcat("/" + j, "");
    assert "" + "/" + j == "/" + j;
    assert j + "/" + "" == j + "/";
    assert "/" + j + "/" + "" == "/" + j + "/";
  }

  // ---------------------------------------------------------------- evaluating components

  /** The components below the starting point, and how far above it the path has climbed. */
  datatype Climb = Climb(stack: seq<string>, ups: nat)

  function Visit(at: Climb, part: string): Climb {
    if part == "." then at
    else if part != ".." then at.(stack := at.stack + [part])
    else if |at.stack| > 0 then at.(stack := at.stack[..|at.stack| - 1])
    else at.(ups := at.ups + 1)
  }

  /** What the components mean, read from left to right. */
  function Walk(at: Climb, parts: seq<string>): Climb
    decreases |parts|
  {
    if |parts| == 0 then at
    else Visit(Walk(at, parts[..|parts| - 1]), parts[|parts| - 1])
  }

  const START := Climb([], 0)

  function Ups(n: nat): (r: seq<string>)
    ensures |r| == n && forall i :: 0 <= i < n ==> r[i] == ".."
  {
    seq(n, _ => "..")
  }

  /** The normal form of a component list. */
  function Normal(parts: seq<string>, aboveRoot: bool): seq<string> {
    var at := Walk(START, parts);
    if aboveRoot then Ups(at.ups) + at.stack else at.stack
  }

  /** The backward scan with its count of pending "..", from the last component to the first. */
  function Scan(parts: seq<string>, pending: nat): Climb
    decreases |parts|
  {
    if |parts| == 0 then Climb([], pending)
    else
      var e := parts[|parts| - 1];
      var before := parts[..|parts| - 1];
      if e == "." then Scan(before, pending)
      else if e == ".." then Scan(before, pending + 1)
      else if pending > 0 then Scan(before, pending - 1)
      else
        var r := Scan(before, 0);
        r.(stack := r.stack + [e])
  }

  /** `n` levels up from where a walk ended. */
  function Drop(at: Climb, n: nat): Climb {
    if n <= |at.stack| then at.(stack := at.stack[..|at.stack| - n])
    else Climb([], at.ups + (n - |at.stack|))
  }

  lemma DropPush(at: Climb, e: string, pending: nat)
    ensures Drop(at.(stack := at.stack + [e]), pending) ==
      if pending > 0 then Drop(at, pending - 1) else Climb(Drop(at, 0).stack + [e], Drop(at, 0).ups)
  {
    var s := at.stack;
    if pending == 0 {
      assert s[..|s|] == s && (s + [e])[..|s| + 1] == s + [e];
    } else if pending <= |s| + 1 {
      assert (s + [e])[..|s| + 1 - pending] == s[..|s| - (pending - 1)];
    }
  }

  lemma DropPop(at: Climb, pending: nat)
    ensures Drop(if |at.stack| > 0 then at.(stack := at.stack[..|at.stack| - 1]) else at.(ups := at.ups + 1), pending)
         == Drop(at, pending + 1)
  {
    var s := at.stack;
    if pending < |s| {
      assert s[..|s| - 1][..|s| - 1 - pending] == s[..|s| - (pending + 1)];
    }
  }

  /** What one more component does to the levels that are pending, as the scan counts them. */
  lemma DropVisit(at: Climb, e: string, pending: nat)
    ensures Drop(Visit(at, e), pending) ==
      if e == "." then Drop(at, pending)
      else if e == ".." then Drop(at, pending + 1)
      else if pending > 0 then Drop(at, pending - 1)
      else Climb(Drop(at, 0).stack + [e], Drop(at, 0).ups)
  {
    hide Drop;
    DropPop(at, pending);
    DropPush(at, e, pending);
  }

  /** Scanning backwards with a counter is walking forwards with a stack. */
  lemma {:induction false} ScanIsWalk(parts: seq<string>, pending: nat)
    ensures Scan(parts, pending) == Drop(Walk(START, parts), pending)
    decreases |parts|
  {
    hide Visit;
    if |parts| > 0 {
      hide Drop;
      var e := parts[|parts| - 1];
      var before := parts[..|parts| - 1];
      DropVisit(Walk(START, before), e, pending);
      if e == "." {
        ScanIsWalk(before, pending);
      } else if e == ".." {
        ScanIsWalk(before, pending + 1);
      } else if pending > 0 {
        ScanIsWalk(before, pending - 1);
      } else {
        ScanIsWalk(before, 0);
      }
    }
  }

  lemma ScanStep(parts: seq<string>, d: nat, pending: nat)
    requires 0 < d <= |parts|
    ensures var e := parts[d - 1];
      Scan(parts[..d], pending) ==
      if e == "." then Scan(parts[..d - 1], pending)
      else if e == ".." then Scan(parts[..d - 1], pending + 1)
      else if pending > 0 then Scan(parts[..d - 1], pending - 1)
      else Climb(Scan(parts[..d - 1], 0).stack + [e], Scan(parts[..d - 1], 0).ups)
  {
    assert parts[..d][..d - 1] == parts[..d - 1];
  }

  lemma ScanAll(parts: seq<string>)
    ensures Scan(parts, 0) == Walk(START, parts)
  {
    ScanIsWalk(parts, 0);
    var stack := Walk(START, parts).stack;
    assert stack[..|stack|] == stack;
  }

  /** The backward loop of `Pb`: components are spliced out of the list in place. */
  method SpliceBackward(parts: seq<string>) returns (a: seq<string>, pending: nat)
    ensures Climb(a, pending) == Walk(START, parts)
  {
    hide Scan, Walk;
    a := parts;
    pending := 0;
    var d := |parts|;
    assert parts[..d] == parts && a[d..] == [] && a[..d] == a;
    ScanAll(parts);
    ghost var whole := Scan(parts, 0);
    assert whole.stack + [] == whole.stack;
    while d > 0
      invariant 0 <= d <= |a| && d <= |parts| && a[..d] == parts[..d]
      invariant whole == Climb(Scan(parts[..d], pending).stack + a[d..], Scan(parts[..d], pending).ups)
      decreases d
    {
      ScanStep(parts, d, pending);
      d := d - 1;
      var e := a[d];
      assert e == a[..d + 1][d] == parts[..d + 1][d];
      ghost var tail := a[d + 1..];
      assert a[..d] == a[..d + 1][..d] == parts[..d];
      if e == "." || e == ".." || pending > 0 {
        var spliced := a[..d] + a[d + 1..];
        assert spliced[..d] == a[..d] && spliced[d..] == tail;
        a := spliced;
        if e == ".." {
          pending := pending + 1;
        } else if e != "." {
          pending := pending - 1;
        }
      } else {
        assert a[d..] == [e] + tail;
        assert (Scan(parts[..d], 0).stack + [e]) + tail == Scan(parts[..d], 0).stack + ([e] + tail);
      }
    }
    ScanNothing(parts[..0], pending);
    assert [] + a[0..] == a;
  }

  lemma ScanNothing(parts: seq<string>, pending: nat)
    requires |parts| == 0
    ensures Scan(parts, pending) == Climb([], pending)
  {
  }

  /** `Pb`: a backward scan with a counter of pending "..", the rest of which goes in front. */
  method NormalizeArray(parts: seq<string>, aboveRoot: bool) returns (a: seq<string>)
    ensures a == Normal(parts, aboveRoot)
  {
    hide Walk;
    var pending: nat;
    a, pending := SpliceBackward(parts);
    if aboveRoot {
      ghost var below, total := a, pending;
      assert Ups(0) + below == below;
      while pending > 0
        invariant pending <= total
        invariant a == Ups(total - pending) + below
        decreases pending
      {
        assert [".."] + Ups(total - pending) == Ups(total - pending + 1);
        assert [".."] + (Ups(total - pending) + below) == ([".."] + Ups(total - pending)) + below;
        a := [".."] + a;
        pending := pending - 1;
      }
    }
  }

  // ---------------------------------------------------------------- normal forms

  /** A list in normal form below a directory: proper names only. */
  predicate Plain(parts: seq<string>) {
    forall i :: 0 <= i < |parts| ==> IsName(parts[i]) && parts[i] != "." && parts[i] != ".."
  }

  lemma {:induction false} WalkPlain(at: Climb, parts: seq<string>)
    requires Names(parts) && Plain(at.stack)
    ensures Plain(Walk(at, parts).stack)
    decreases |parts|
  {
    if |parts| > 0 {
      WalkPlain(at, parts[..|parts| - 1]);
    }
  }

  lemma {:induction false} WalkConcat(at: Climb, a: seq<string>, b: seq<string>)
    ensures Walk(at, a + b) == Walk(Walk(at, a), b)
    decreases |b|
  {
    if |b| == 0 {
      assert a + b == a;
    } else {
      assert (a + b)[..|a + b| - 1] == a + b[..|b| - 1];
      WalkConcat(at, a, b[..|b| - 1]);
    }
  }

  /** Walking down plain names stacks them up. */
  lemma {:induction false} WalkDown(at: Climb, parts: seq<string>)
    requires Plain(parts)
    ensures Walk(at, parts) == at.(stack := at.stack + parts)
    decreases |parts|
  {
    if |parts| == 0 {
      assert at.stack + parts == at.stack;
    } else {
      WalkDown(at, parts[..|parts| - 1]);
      assert at.stack + parts == (at.stack + parts[..|parts| - 1]) + [parts[|parts| - 1]];
    }
  }

  /** Walking up drops levels. */
  lemma {:induction false} WalkUp(at: Climb, n: nat)
    ensures Walk(at, Ups(n)) == Drop(at, n)
    decreases n
  {
    if n == 0 {
      assert at.stack[..|at.stack|] == at.stack;
    } else {
      assert Ups(n)[..n - 1] == Ups(n - 1);
      WalkUp(at, n - 1);
      if n <= |at.stack| {
        assert at.stack[..|at.stack| - (n - 1)][..|at.stack| - n] == at.stack[..|at.stack| - n];
      }
    }
  }

  lemma NormalNames(parts: seq<string>, aboveRoot: bool)
    requires Names(parts)
    ensures Names(Normal(parts, aboveRoot)) && (!aboveRoot ==> Plain(Normal(parts, aboveRoot)))
  {
    WalkPlain(START, parts);
    var at := Walk(START, parts);
    var r := Normal(parts, aboveRoot);
    forall i | 0 <= i < |r|
      ensures IsName(r[i])
    {
      if aboveRoot && i < at.ups {
        assert r[i] == "..";
      }
    }
  }

  /** Normalising a normal form changes nothing. */
  lemma NormalIdempotent(parts: seq<string>, aboveRoot: bool)
    requires Names(parts)
    ensures Normal(Normal(parts, aboveRoot), aboveRoot) == Normal(parts, aboveRoot)
  {
    hide Walk;
    WalkPlain(START, parts);
    var at := Walk(START, parts);
    WalkUp(START, at.ups);
    WalkDown(Climb([], at.ups), at.stack);
    WalkDown(START, at.stack);
    WalkConcat(START, Ups(at.ups), at.stack);
    assert [] + at.stack == at.stack;
  }

  // ---------------------------------------------------------------- path strings

  predicate IsAbsolute(s: string) {
    |s| > 0 && s[0] == '/'
  }

  predicate EndsInSlash(s: string) {
    |s| > 0 && s[|s| - 1] == '/'
  }

  /** `Qb`. */
  function Normalize(s: string): string {
    var body := Join(Normal(Components(s), !IsAbsolute(s)));
    var named := if body == "" && !IsAbsolute(s) then "." else body;
    var closed := if named != "" && EndsInSlash(s) then named + "/" else named;
    (if IsAbsolute(s) then "/" else "") + closed
  }

  lemma {:induction false} JoinShape(parts: seq<string>)
    requires Names(parts)
    ensures |parts| > 0 ==> Join(parts) != "" && !IsAbsolute(Join(parts)) && !EndsInSlash(Join(parts))
  {
    if |parts| > 0 {
      var p := parts[0];
      assert IsName(p) && p[0] in p && p[|p| - 1] in p;
      if |parts| > 1 {
        JoinShape(parts[1..]);
        var j := Join(parts[1..]);
        assert Join(parts)[0] == p[0];
        assert Join(parts)[|Join(parts)| - 1] == j[|j| - 1];
      }
    }
  }

  lemma DotComponents()
    ensures Components(".") == ["."] && Components("./") == ["."] && Normal(["."], true) == []
  {
    SplitName(".");
    ComponentsConcat(".", "");
    assert "." + "/" + "" == "./";
    assert Split("") == [""];
    assert NonEmpty(["."] ) == ["."] + NonEmpty([]);
    assert ["."][..0] == [];
    assert Walk(START, ["."]) == Visit(Walk(START, []), ".");
    assert Ups(0) + [] == [];
  }

  /** Normalising a path twice is normalising it once. */
  lemma NormalizeIdempotent(s: string)
    ensures Normalize(Normalize(s)) == Normalize(s)
  {
    hide Components, Normal, Join;
    var above := !IsAbsolute(s);
    var parts := Normal(Components(s), above);
    ComponentsAreNames(s);
    NormalNames(Components(s), above);
    NormalIdempotent(Components(s), above);
    ComponentsOfJoin(parts);
    JoinShape(parts);
    EmptyJoin();
    DotComponents();
    var body := Join(parts);
    if |parts| == 0 {
      if above {
        assert Normalize(s) == "." || Normalize(s) == "./";
      } else {
        assert Normalize(s) == "/";
        assert Components("/" + body) == parts;
        assert "/" + body == "/";
      }
    } else {
      var n := Normalize(s);
      assert n == (if above then "" else "/") + (if EndsInSlash(s) then body + "/" else body);
      assert n == body || n == body + "/" || n == "/" + body || n == "/" + body + "/";
      assert Components(n) == parts;
      assert IsAbsolute(n) == !above;
      assert EndsInSlash(n) == EndsInSlash(s);
    }
  }

  lemma EmptyJoin()
    ensures Join([]) == ""
  {
  }

  // ---------------------------------------------------------------- the last component

  /** The name that a path ends in: of the root "/", empty above it, and "." or ".." for a place not named. */
  function Base(s: string): string {
    var parts := Normal(Components(s), !IsAbsolute(s));
    if s == "/" then "/"
    else if |parts| > 0 then parts[|parts| - 1]
    else if IsAbsolute(s) then "" else "."
  }

  function Unslashed(s: string): string {
    if EndsInSlash(s) then s[..|s| - 1] else s
  }

  /** `Sb`: what follows the last slash of the normalised path. */
  method BaseName(s: string) returns (r: string)
    ensures r == Base(s)
  {
    hide Base, Normalize, Unslashed, Split;
    if s == "/" {
      RootBase();
      return "/";
    }
    r := AfterLastSlash(Unslashed(Normalize(s)));
    LastOfNormal(s);
  }

  lemma RootBase()
    ensures Base("/") == "/"
  {
    hide Components, Normal;
  }

  method AfterLastSlash(t: string) returns (r: string)
    ensures r == Split(t)[|Split(t)| - 1]
  {
    hide Split;
    var b := |t|;
    while b > 0 && t[b - 1] != '/'
      invariant 0 <= b <= |t| && forall i :: b <= i < |t| ==> t[i] != '/'
    {
      b := b - 1;
    }
    r := t[b..];
    LastSplit(t, b);
  }

  lemma LastSplit(t: string, b: nat)
    requires b <= |t| && (b == 0 || t[b - 1] == '/') && forall i :: b <= i < |t| ==> t[i] != '/'
    ensures Split(t)[|Split(t)| - 1] == t[b..]
  {
    hide Split;
    SplitName(t[b..]);
    if b == 0 {
      assert t[b..] == t;
    } else {
      assert t == t[..b - 1] + "/" + t[b..];
      SplitConcat(t[..b - 1], t[b..]);
    }
  }

  lemma UnslashedIs(x: string)
    requires x != "" && !EndsInSlash(x)
    ensures Unslashed(x) == x && Unslashed(x + "/") == x
  {
    assert (x + "/")[..|x|] == x;
  }

  /** The normalised path without a slash at its end splits into its components. */
  lemma LastOfNormal(s: string)
    requires s != "/"
    ensures var t := Unslashed(Normalize(s));
      Split(t)[|Split(t)| - 1] == Base(s)
  {
    hide Components, Normal, Join, Split, Unslashed, Normalize;
    var above := !IsAbsolute(s);
    var parts := Normal(Components(s), above);
    ComponentsAreNames(s);
    NormalNames(Components(s), above);
    SplitJoin(parts);
    if |parts| == 0 {
      NothingNormal(s);
    } else {
      JoinShape(parts);
      NormalShape(s, Join(parts));
      SlashFirst(Join(parts));
      assert "" + Join(parts) == Join(parts);
    }
  }

  lemma NormalShape(s: string, body: string)
    requires body == Join(Normal(Components(s), !IsAbsolute(s))) && body != "" && !EndsInSlash(body)
    ensures Unslashed(Normalize(s)) == (if IsAbsolute(s) then "/" else "") + body
  {
    hide Components, Normal, Join, Unslashed;
    var x := (if IsAbsolute(s) then "/" else "") + body;
    assert x[|x| - 1] == body[|body| - 1];
    assert Normalize(s) == if EndsInSlash(s) then x + "/" else x;
    UnslashedIs(x);
  }

  lemma SlashFirst(body: string)
    ensures Split("/" + body)[|Split("/" + body)| - 1] == Split(body)[|Split(body)| - 1]
  {
    hide Split;
    assert "" + "/" + body == "/" + body;
    SplitConcat("", body);
  }

  lemma NothingNormal(s: string)
    requires |Normal(Components(s), !IsAbsolute(s))| == 0
    ensures Unslashed(Normalize(s)) == if IsAbsolute(s) then "" else "."
    ensures Split("") == [""] && Split(".") == ["."]
  {
    hide Components, Normal;
    EmptyJoin();
    SplitName(".");
  }

  /** A walk from elsewhere ends in the components that it has left, below where its ".." lead. */
  lemma {:induction false} WalkShift(at: Climb, parts: seq<string>)
    ensures var w := Walk(START, parts);
      Walk(at, parts).stack == Drop(at, w.ups).stack + w.stack
    decreases |parts|
  {
    if |parts| > 0 {
      var before := parts[..|parts| - 1];
      WalkShift(at, before);
      var w := Walk(START, before);
      var base := Drop(at, w.ups).stack;
      if parts[|parts| - 1] == ".." && |w.stack| > 0 {
        assert (base + w.stack)[..|base + w.stack| - 1] == base + w.stack[..|w.stack| - 1];
      } else if parts[|parts| - 1] == ".." {
        assert base + [] == base;
      } else if parts[|parts| - 1] != "." {
        assert (base + w.stack) + [parts[|parts| - 1]] == base + (w.stack + [parts[|parts| - 1]]);
      }
    } else {
      assert at.stack[..|at.stack|] == at.stack;
      assert at.stack + [] == at.stack;
    }
  }

  // ---------------------------------------------------------------- resolving

  datatype Gathered = Empty | Gathered(path: string)

  /** The arguments of `Vb` joined from the last to the first absolute one, or to the working directory. */
  function Gather(args: seq<string>, cwd: string, c: nat, a: string): Gathered
    requires c <= |args|
    decreases c
  {
    var arg := if c > 0 then args[c - 1] else cwd;
    if arg == "" then Empty
    else if c == 0 || IsAbsolute(arg) then Gathered(arg + "/" + a)
    else Gather(args, cwd, c - 1, arg + "/" + a)
  }

  /** The directories that the arguments lead to. */
  function Resolved(args: seq<string>, cwd: string): seq<string> {
    match Gather(args, cwd, |args|, "")
    case Empty => []
    case Gathered(path) => Normal(Components(path), false)
  }

  function Resolve(args: seq<string>, cwd: string): string {
    if Gather(args, cwd, |args|, "").Empty? then "" else "/" + Join(Resolved(args, cwd))
  }

  /** `Vb`, with an absolute working directory. */
  method ResolvePath(args: seq<string>, cwd: string) returns (r: string)
    requires IsAbsolute(cwd)
    ensures r == Resolve(args, cwd)
  {
    hide Components, Normal, Join;
    var a, b := "", false;
    var c := |args|;
    while -1 < c + 1 && !b
      invariant -1 <= c <= |args|
      invariant !b ==> c >= 0 && Gather(args, cwd, |args|, "") == Gather(args, cwd, c, a)
      invariant b ==> Gather(args, cwd, |args|, "") == Gathered(a)
      decreases c + 1, b
    {
      var arg := if c > 0 then args[c - 1] else cwd;
      if arg == "" {
        return "";
      }
      a := arg + "/" + a;
      b := IsAbsolute(arg);
      c := c - 1;
    }
    var parts := NormalizeArray(Components(a), !b);
    r := (if b then "/" else "") + Join(parts);
    if r == "" {
      r := ".";
    }
  }

  predicate Unnamed(name: string) {
    name == "" || name == "." || name == ".."
  }

  /** A path that ends in a name resolves to a place with that name. */
  lemma ResolvedEndsInBase(path: string, cwd: string)
    requires IsAbsolute(cwd) && path != "/" && !Unnamed(Base(path))
    ensures var parts := Resolved([cwd, path], cwd);
      |parts| > 0 && parts[|parts| - 1] == Base(path)
  {
    hide Components, Join, Drop;
    var comps := Components(path);
    var w := Walk(START, comps);
    assert |w.stack| > 0 && w.stack[|w.stack| - 1] == Base(path);
    NoComponents();
    ComponentsConcat(path, "");
    assert comps + [] == comps;
    if IsAbsolute(path) {
      assert Gather([cwd, path], cwd, 2, "") == Gathered(path + "/" + "");
    } else {
      assert path != "";
      assert Gather([cwd, path], cwd, 1, path + "/" + "") == Gathered(cwd + "/" + (path + "/" + ""));
      ComponentsConcat(cwd, path + "/" + "");
      WalkConcat(START, Components(cwd), comps);
      WalkShift(Walk(START, Components(cwd)), comps);
    }
  }

  // ---------------------------------------------------------------- relative paths

  /** The length of the longest common prefix. */
  function Common(a: seq<string>, b: seq<string>): (e: nat)
    ensures e <= |a| && e <= |b| && a[..e] == b[..e]
    ensures e < |a| && e < |b| ==> a[e] != b[e]
  {
    if |a| == 0 || |b| == 0 || a[0] != b[0] then 0
    else
      var e := 1 + Common(a[1..], b[1..]);
      assert a[..e] == [a[0]] + a[1..][..e - 1] && b[..e] == [b[0]] + b[1..][..e - 1];
      e
  }

  /** Up out of `a` to the common directory, then down to `b`. */
  function Route(a: seq<string>, b: seq<string>): seq<string> {
    var e := Common(a, b);
    Ups(|a| - e) + b[e..]
  }

  function Relative(from: string, to: string, cwd: string): string {
    Join(Route(Resolved([from], cwd), Resolved([to], cwd)))
  }

  /** The local helper of `Wb`: empty components are cut off both ends. */
  method Trim(k: seq<string>) returns (r: seq<string>)
    requires k == [""] || (|k| > 0 && forall i :: 0 <= i < |k| ==> k[i] != "")
    ensures r == if k == [""] then [] else k
  {
    var m := 0;
    while m < |k| && k[m] == ""
      invariant m <= |k| && (m > 0 ==> k == [""])
    {
      m := m + 1;
    }
    var last := |k| - 1;
    while 0 <= last && k[last] == ""
      invariant -1 <= last < |k| && (last < |k| - 1 ==> k == [""])
      decreases last + 1
    {
      last := last - 1;
    }
    r := if m > last then [] else k[m..last - m + 1];
  }

  /** `Wb`. */
  method RelativePath(from: string, to: string, cwd: string) returns (r: string)
    requires IsAbsolute(cwd)
    ensures r == Relative(from, to, cwd)
  {
    hide Normal, Components, Gather, Common;
    var a := ResolvedParts(from, cwd);
    var b := ResolvedParts(to, cwd);
    var d := if |a| < |b| then |a| else |b|;
    var e, g := d, 0;
    while g < d && e == d
      invariant 0 <= g <= d && 0 <= e <= d && (e == d || (e == g - 1 && a[e] != b[e]))
      invariant forall k :: 0 <= k < g && k < e ==> a[k] == b[k]
      decreases d - g
    {
      if a[g] != b[g] {
        e := g;
      }
      g := g + 1;
    }
    CommonIs(a, b, e);
    var route: seq<string> := [];
    g := e;
    while g < |a|
      invariant e <= g <= |a| && route == Ups(g - e)
    {
      assert Ups(g - e) + [".."] == Ups(g - e + 1);
      route := route + [".."];
      g := g + 1;
    }
    route := route + b[e..];
    r := Join(route);
  }

  lemma CommonIs(a: seq<string>, b: seq<string>, e: nat)
    requires e <= |a| && e <= |b| && forall k :: 0 <= k < e ==> a[k] == b[k]
    requires e == |a| || e == |b| || a[e] != b[e]
    ensures e == Common(a, b)
  {
    var c := Common(a, b);
    assert forall k :: 0 <= k < c ==> a[k] == a[..c][k] == b[..c][k] == b[k];
  }

  /** The components of a resolved path, as `Wb` finds them again by splitting it. */
  method ResolvedParts(path: string, cwd: string) returns (parts: seq<string>)
    requires IsAbsolute(cwd)
    ensures parts == Resolved([path], cwd)
  {
    hide Normal, Components, Gather;
    var resolved := ResolvePath([path], cwd);
    var tail := if |resolved| > 0 then resolved[1..] else "";
    ResolvedPlain([path], cwd);
    assert tail == Join(Resolved([path], cwd)) by {
      EmptyJoin();
      assert Gather([path], cwd, 1, "").Empty? ==> Resolved([path], cwd) == [];
      assert ("/" + Join(Resolved([path], cwd)))[1..] == Join(Resolved([path], cwd));
    }
    SplitJoin(Resolved([path], cwd));
    parts := Trim(Split(tail));
  }

  lemma ResolvedPlain(args: seq<string>, cwd: string)
    ensures Plain(Resolved(args, cwd)) && Names(Resolved(args, cwd))
  {
    hide Components, Normal;
    match Gather(args, cwd, |args|, "")
    case Empty =>
    case Gathered(path) =>
      ComponentsAreNames(path);
      NormalNames(Components(path), false);
  }

  /** Following the route from `a` leads to `b`. */
  lemma RouteLeads(a: seq<string>, b: seq<string>, ups: nat)
    requires Plain(a) && Plain(b)
    ensures Walk(Climb(a, ups), Route(a, b)).stack == b
  {
    hide Walk, Common;
    var e := Common(a, b);
    WalkConcat(Climb(a, ups), Ups(|a| - e), b[e..]);
    WalkUp(Climb(a, ups), |a| - e);
    WalkDown(Climb(a[..e], ups), b[e..]);
    assert b[..e] + b[e..] == b;
  }

  lemma RouteNames(a: seq<string>, b: seq<string>)
    requires Plain(b)
    ensures Names(Route(a, b)) && (Route(a, b) == [] <==> a == b)
  {
    hide Common;
    var e := Common(a, b);
    var r := Route(a, b);
    forall i | 0 <= i < |r|
      ensures IsName(r[i])
    {
      if i < |a| - e {
        assert r[i] == "..";
      }
    }
    if r == [] {
      assert a[..e] == a && b[..e] == b;
    }
    if a == b {
      CommonIs(a, b, |a|);
    }
  }

  /** The gathered path of `from` followed by `rel` has the components of both. */
  lemma GatherThen(from: string, rel: string, cwd: string)
    requires from != "" && rel != "" && !IsAbsolute(rel) && IsAbsolute(cwd)
    ensures Gather([from], cwd, 1, "").Gathered? && Gather([from, rel], cwd, 2, "").Gathered?
    ensures Components(Gather([from, rel], cwd, 2, "").path) == Components(Gather([from], cwd, 1, "").path) + Components(rel)
  {
    hide Components;
    var one, two := Gather([from], cwd, 1, ""), Gather([from, rel], cwd, 2, "");
    var relSlash := rel + "/" + "";
    ComponentsConcat(rel, "");
    NoComponents();
    assert two == Gather([from, rel], cwd, 1, relSlash);
    ComponentsConcat(from, "");
    ComponentsConcat(from, relSlash);
    if !IsAbsolute(from) {
      ComponentsConcat(cwd, from + "/" + "");
      ComponentsConcat(cwd, from + "/" + relSlash);
      assert Gather([from], cwd, 0, from + "/" + "") == Gathered(cwd + "/" + (from + "/" + ""));
      assert Gather([from, rel], cwd, 0, from + "/" + relSlash) == Gathered(cwd + "/" + (from + "/" + relSlash));
    }
    assert Components(rel) + [] == Components(rel);
  }

  lemma NoComponents()
    ensures Components("") == []
  {
  }

  /** Between places that both resolve, the relative path leads back unless they are equal. */
  lemma RouteInverts(from: string, to: string, cwd: string)
    requires from != "" && to != "" && IsAbsolute(cwd)
    ensures Resolve([from, Relative(from, to, cwd)], cwd) == Resolve([to], cwd)
       <==> Resolve([from], cwd) != Resolve([to], cwd)
  {
    hide Components, Normal, Join, Walk, Route, Gather;
    var a, b := Resolved([from], cwd), Resolved([to], cwd);
    var rel := Relative(from, to, cwd);
    ResolvedPlain([from], cwd);
    ResolvedPlain([to], cwd);
    RouteNames(a, b);
    JoinShape(Route(a, b));
    EmptyJoin();
    GatherOne(from, cwd);
    GatherOne(to, cwd);
    if a == b {
      GatherEmpty(from, cwd);
    } else {
      SameString(a, b);
      GatherThen(from, rel, cwd);
      ComponentsOfJoin(Route(a, b));
      var at := Walk(START, Components(Gather([from], cwd, 1, "").path));
      WalkOfNormal(Gather([from], cwd, 1, "").path);
      WalkOfNormal(Gather([from, rel], cwd, 2, "").path);
      WalkConcat(START, Components(Gather([from], cwd, 1, "").path), Route(a, b));
      RouteLeads(a, b, at.ups);
      assert Resolved([from, rel], cwd) == b;
    }
  }

  /**
    Resolving the relative path from `from` to `to` against `from` leads to `to` exactly when the
    two are different places: between equal ones the relative path is empty, which does not resolve.
    The empty string is no place: from it nothing else is reached, and it is reached from the root only.
   */
  lemma {:induction false} RelativeInverts(from: string, to: string, cwd: string)
    requires IsAbsolute(cwd)
    ensures Resolve([from, Relative(from, to, cwd)], cwd) == Resolve([to], cwd)
       <==> if to == "" then Resolved([from], cwd) == [] else from != "" && Resolve([from], cwd) != Resolve([to], cwd)
  {
    hide Components, Normal, Join, Route, Resolved;
    var rel := Relative(from, to, cwd);
    var a, b := Resolved([from], cwd), Resolved([to], cwd);
    if from != "" && to != "" {
      RouteInverts(from, to, cwd);
    } else {
      GatherNone(cwd);
      ResolvedPlain([to], cwd);
      RouteNames(a, b);
      JoinShape(Route(a, b));
      EmptyJoin();
      if from == "" {
        GatherStops(rel, cwd);
        if to != "" {
          GatherOne(to, cwd);
        }
      } else if rel == "" {
        GatherEmpty(from, cwd);
      } else {
        GatherThen(from, rel, cwd);
      }
    }
  }

  lemma GatherNone(cwd: string)
    ensures Gather([""], cwd, 1, "") == Empty && Resolved([""], cwd) == []
  {
  }

  lemma GatherStops(rel: string, cwd: string)
    requires !IsAbsolute(rel)
    ensures Gather(["", rel], cwd, 2, "") == Empty
  {
  }

  lemma WalkOfNormal(path: string)
    ensures Normal(Components(path), false) == Walk(START, Components(path)).stack
  {
  }

  lemma GatherOne(path: string, cwd: string)
    requires path != "" && IsAbsolute(cwd)
    ensures Gather([path], cwd, 1, "").Gathered?
  {
  }

  lemma GatherEmpty(from: string, cwd: string)
    ensures Gather([from, ""], cwd, 2, "") == Empty
  {
  }

  lemma SameString(a: seq<string>, b: seq<string>)
    requires Names(a) && Names(b) && a != b
    ensures "/" + Join(a) != "/" + Join(b)
  {
    ComponentsOfJoin(a);
    ComponentsOfJoin(b);
  }
}
