/** Slash-separated paths: `filepath.Clean` and `filepath.Join` with Unix separators, by components. */
module Paths {

  predicate NoSlash(c: string) {
    forall i :: 0 <= i < |c| ==> c[i] != '/'
  }

  /** The components between slashes, empty ones included. */
  function Split(p: string): (comps: seq<string>)
    ensures |comps| > 0
  {
    if |p| == 0 then [""]
    else
      var rest := Split(p[1..]);
      if p[0] == '/' then [""] + rest else [[p[0]] + rest[0]] + rest[1..]
  }

  function JoinSlash(comps: seq<string>): string {
    if |comps| == 0 then ""
    else if |comps| == 1 then comps[0]
    else comps[0] + "/" + JoinSlash(comps[1..])
  }

  predicate IsAbs(p: string) {
    |p| > 0 && p[0] == '/'
  }

  /** One component applied to the components kept so far: empty and "." are dropped, ".." removes its
      predecessor, and is kept only when there is none and the path is relative. */
  function Push(rooted: bool, stack: seq<string>, c: string): seq<string> {
    if c == "" || c == "." then stack
    else if c == ".." then
      if |stack| > 0 && stack[|stack| - 1] != ".." then stack[..|stack| - 1]
      else if rooted then stack
      else stack + [c]
    else stack + [c]
  }

  function Resolve(rooted: bool, stack: seq<string>, comps: seq<string>): seq<string>
    decreases |comps|
  {
    if |comps| == 0 then stack else Resolve(rooted, Push(rooted, stack, comps[0]), comps[1..])
  }

  /** The components of the cleaned path. */
  function Stack(p: string): seq<string> {
    Resolve(IsAbs(p), [], Split(p))
  }

  function Show(rooted: bool, stack: seq<string>): string {
    if rooted then "/" + JoinSlash(stack)
    else if |stack| == 0 then "."
    else JoinSlash(stack)
  }

  function Clean(p: string): string {
    Show(IsAbs(p), Stack(p))
  }

  /** Joining skips empty elements and cleans the result. */
  function Join(dir: string, p: string): string {
    if dir == "" && p == "" then ""
    else if dir == "" then Clean(p)
    else if p == "" then Clean(dir)
    else Clean(dir + "/" + p)
  }

  // ---- Splitting and joining ----

  lemma {:induction false} SplitConcat(a: string, b: string)
    ensures Split(a + "/" + b) == Split(a) + Split(b)
  {
    var p := a + "/" + b;
    if |a| == 0 {
      assert p[1..] == b;
    } else {
      assert p[1..] == a[1..] + "/" + b;
      SplitConcat(a[1..], b);
    }
  }

  lemma {:induction false} SplitNoSlash(c: string)
    requires NoSlash(c)
    ensures Split(c) == [c]
  {
    if |c| > 0 {
      SplitNoSlash(c[1..]);
      assert [c[0]] + c[1..] == c;
    }
  }

  lemma {:induction false} SplitParts(p: string)
    ensures forall c :: c in Split(p) ==> NoSlash(c)
  {
    if |p| > 0 {
      SplitParts(p[1..]);
      var rest := Split(p[1..]);
      assert rest[0] in rest;
      forall c | c in Split(p) ensures NoSlash(c) {
        if p[0] != '/' && c == [p[0]] + rest[0] {
          assert NoSlash(rest[0]);
        } else {
          assert c == "" || c in rest;
        }
      }
    }
  }

  lemma {:induction false} SplitOfJoin(comps: seq<string>)
    requires |comps| > 0 && forall c :: c in comps ==> NoSlash(c)
    ensures Split(JoinSlash(comps)) == comps
  {
    assert comps[0] in comps;
    SplitNoSlash(comps[0]);
    if |comps| > 1 {
      SplitOfJoin(comps[1..]);
      SplitConcat(comps[0], JoinSlash(comps[1..]));
    }
  }

  lemma {:induction false} JoinConcat(a: seq<string>, b: seq<string>)
    requires |a| > 0 && |b| > 0
    ensures JoinSlash(a + b) == JoinSlash(a) + "/" + JoinSlash(b)
  {
    assert (a + b)[1..] == a[1..] + b;
    if |a| > 1 {
      JoinConcat(a[1..], b);
    }
  }

  // ---- Cleaning ----

  lemma {:induction false} ResolveConcat(rooted: bool, stack: seq<string>, a: seq<string>, b: seq<string>)
    ensures Resolve(rooted, stack, a + b) == Resolve(rooted, Resolve(rooted, stack, a), b)
    decreases |a|
  {
    if |a| == 0 {
      assert a + b == b;
    } else {
      assert (a + b)[1..] == a[1..] + b;
      ResolveConcat(rooted, Push(rooted, stack, a[0]), a[1..], b);
    }
  }

  /** Components a cleaned path may have. */
  predicate Proper(c: string) {
    c != "" && c != "." && NoSlash(c)
  }

  /** Only a relative path keeps "..", and only in front. */
  predicate Normal(rooted: bool, stack: seq<string>) {
    && (forall c :: c in stack ==> Proper(c))
    && (forall i :: 0 <= i < |stack| && stack[i] == ".." ==> !rooted && forall j :: 0 <= j < i ==> stack[j] == "..")
  }

  lemma {:induction false} ResolveIsNormal(rooted: bool, stack: seq<string>, comps: seq<string>)
    requires Normal(rooted, stack) && forall c :: c in comps ==> NoSlash(c)
    ensures Normal(rooted, Resolve(rooted, stack, comps))
    decreases |comps|
  {
    if |comps| > 0 {
      PushIsNormal(rooted, stack, comps[0]);
      ResolveIsNormal(rooted, Push(rooted, stack, comps[0]), comps[1..]);
    }
  }

  lemma PushIsNormal(rooted: bool, stack: seq<string>, c: string)
    requires Normal(rooted, stack) && NoSlash(c)
    ensures Normal(rooted, Push(rooted, stack, c))
  {
    var after := Push(rooted, stack, c);
    forall d | d in after ensures Proper(d) {
      assert d in stack || d == c;
    }
    forall i | 0 <= i < |after| && after[i] == ".." ensures !rooted && forall j :: 0 <= j < i ==> after[j] == ".." {
      if i == |stack| && |stack| > 0 {
        assert stack[|stack| - 1] == "..";
      }
    }
  }

  lemma StackIsNormal(p: string)
    ensures Normal(IsAbs(p), Stack(p))
  {
    SplitParts(p);
    ResolveIsNormal(IsAbs(p), [], Split(p));
  }

  /** A normal list of components is not changed by resolving it. */
  lemma {:induction false} ResolveNormal(rooted: bool, stack: seq<string>, comps: seq<string>)
    requires Normal(rooted, stack + comps)
    ensures Resolve(rooted, stack, comps) == stack + comps
    decreases |comps|
  {
    if |comps| > 0 {
      var all := stack + comps;
      assert all[|stack|] == comps[0] && comps[0] in all;
      assert all == (stack + [comps[0]]) + comps[1..];
      if comps[0] == ".." && |stack| > 0 {
        assert all[|stack| - 1] == "..";
      }
      ResolveNormal(rooted, stack + [comps[0]], comps[1..]);
    }
  }

  /** Printing components and parsing them back are inverse. */
  lemma StackOfShow(rooted: bool, stack: seq<string>)
    requires Normal(rooted, stack)
    ensures IsAbs(Show(rooted, stack)) == rooted && Stack(Show(rooted, stack)) == stack
  {
    var p := Show(rooted, stack);
    ResolveNormal(rooted, [], stack);
    assert [] + stack == stack;
    if |stack| == 0 {
      SplitNoSlash(".");
      SplitConcat("", "");
      assert Split("/") == ["", ""] by {
        assert "" + "/" + "" == "/";
      }
      assert Resolve(true, [], ["", ""]) == Resolve(true, [], [""]);
    } else {
      assert stack[0] in stack;
      SplitOfJoin(stack);
      if rooted {
        assert p == "" + "/" + JoinSlash(stack);
        SplitConcat("", JoinSlash(stack));
        assert Split(p)[1..] == stack;
      }
    }
  }

  /** Cleaning keeps the kind and the components, and is idempotent. */
  lemma CleanKeepsStack(p: string)
    ensures IsAbs(Clean(p)) == IsAbs(p) && Stack(Clean(p)) == Stack(p)
    ensures Clean(Clean(p)) == Clean(p)
  {
    StackIsNormal(p);
    StackOfShow(IsAbs(p), Stack(p));
  }

  // ---- Laws of cleaning, on strings ----

  /** What `mid` does between a path and what follows, when it leaves the components so far alone. */
  lemma CleanMiddle(p: string, mid: string, q: string)
    requires var rooted := IsAbs(p + "/");
             Resolve(rooted, Resolve(rooted, [], Split(p)), Split(mid)) == Resolve(rooted, [], Split(p))
    ensures Clean(p + "/" + mid + "/" + q) == Clean(p + "/" + q)
  {
    var rooted, a := IsAbs(p + "/"), Split(p);
    SplitConcat(p, q);
    SplitConcat(p + "/" + mid, q);
    SplitConcat(p, mid);
    ResolveConcat(rooted, [], a + Split(mid), Split(q));
    ResolveConcat(rooted, [], a, Split(mid));
    ResolveConcat(rooted, [], a, Split(q));
  }

  lemma CleanFront(mid: string, q: string)
    requires !IsAbs(mid) && mid != "" && !IsAbs(q) && Resolve(false, [], Split(mid)) == []
    ensures Clean(mid + "/" + q) == Clean(q)
  {
    SplitConcat(mid, q);
    ResolveConcat(false, [], Split(mid), Split(q));
  }

  lemma ResolveOne(rooted: bool, stack: seq<string>, c: string)
    requires NoSlash(c)
    ensures Resolve(rooted, stack, Split(c)) == Push(rooted, stack, c)
  {
    SplitNoSlash(c);
    assert Resolve(rooted, stack, [c]) == Resolve(rooted, Push(rooted, stack, c), []);
  }

  lemma ResolveBack(rooted: bool, stack: seq<string>, c: string)
    requires Proper(c) && c != ".."
    ensures Resolve(rooted, stack, Split(c + "/..")) == stack
  {
    assert c + "/.." == c + "/" + "..";
    SplitConcat(c, "..");
    ResolveConcat(rooted, stack, Split(c), Split(".."));
    ResolveOne(rooted, stack, c);
    ResolveOne(rooted, stack + [c], "..");
  }

  /** Empty and "." components are dropped. */
  lemma CleanDropsNoise(p: string, q: string)
    ensures Clean(p + "//" + q) == Clean(p + "/" + q)
    ensures Clean(p + "/./" + q) == Clean(p + "/" + q)
  {
    var rooted := IsAbs(p + "/");
    ResolveOne(rooted, Resolve(rooted, [], Split(p)), "");
    CleanMiddle(p, "", q);
    assert p + "/" + "" + "/" + q == p + "//" + q;
    ResolveOne(rooted, Resolve(rooted, [], Split(p)), ".");
    CleanMiddle(p, ".", q);
    assert p + "/" + "." + "/" + q == p + "/./" + q;
  }

  /** ... and so is a slash at the end. */
  lemma CleanDropsLastSlash(p: string)
    requires p != ""
    ensures Clean(p + "/") == Clean(p)
  {
    SplitConcat(p, "");
    ResolveConcat(IsAbs(p), [], Split(p), Split(""));
    ResolveOne(IsAbs(p), Stack(p), "");
    assert p + "/" + "" == p + "/";
  }

  /** A component followed by ".." is as good as absent. */
  lemma CleanCancels(p: string, c: string, q: string)
    requires Proper(c) && c != ".."
    ensures Clean(p + "/" + c + "/../" + q) == Clean(p + "/" + q)
  {
    var rooted := IsAbs(p + "/");
    ResolveBack(rooted, Resolve(rooted, [], Split(p)), c);
    CleanMiddle(p, c + "/..", q);
    assert p + "/" + (c + "/..") + "/" + q == p + "/" + c + "/../" + q;
  }

  lemma CleanCancelsLast(p: string, c: string)
    requires p != "" && Proper(c) && c != ".."
    ensures Clean(p + "/" + c + "/..") == Clean(p)
  {
    CleanCancels(p, c, "");
    CleanDropsLastSlash(p + "/" + c + "/..");
    CleanDropsLastSlash(p);
    assert p + "/" + c + "/../" + "" == p + "/" + c + "/.." + "/" && p + "/" + "" == p + "/";
  }

  /** The same at the start of a path: an absolute one, where ".." has nothing to leave, and a relative one. */
  lemma CleanDropsFront(c: string, q: string)
    requires Proper(c) && c != ".."
    ensures Clean("/../" + q) == Clean("/" + q)
    ensures !IsAbs(q) ==> Clean("./" + q) == Clean(q) && Clean(c + "/../" + q) == Clean(q)
  {
    ResolveOne(true, [], "");
    ResolveOne(true, [], "..");
    CleanMiddle("", "..", q);
    assert "" + "/" + ".." + "/" + q == "/../" + q && "" + "/" + q == "/" + q;
    if !IsAbs(q) {
      ResolveOne(false, [], ".");
      CleanFront(".", q);
      assert "." + "/" + q == "./" + q;
      ResolveBack(false, [], c);
      CleanFront(c + "/..", q);
      assert c + "/.." + "/" + q == c + "/../" + q;
    }
  }

  /** What is left alone: components without noise, in which only a relative path begins with "..". With the
      laws above this determines the cleaned form of every path. */
  lemma NormalIsClean(comps: seq<string>)
    requires |comps| > 0 && Normal(false, comps)
    ensures Clean(JoinSlash(comps)) == JoinSlash(comps)
    ensures Normal(true, comps) ==> Clean("/" + JoinSlash(comps)) == "/" + JoinSlash(comps)
    ensures Clean("") == "." && Clean("/") == "/"
  {
    StackOfShow(false, comps);
    if Normal(true, comps) {
      StackOfShow(true, comps);
    }
    StackOfShow(true, []);
    assert Split("") == [""];
  }

  /** The components of a joined path: those of the directory, continued by the second path. */
  lemma StackOfJoin(dir: string, p: string)
    requires dir != ""
    ensures IsAbs(Join(dir, p)) == IsAbs(dir)
    ensures Stack(Join(dir, p)) == Resolve(IsAbs(dir), Stack(dir), Split(p))
    ensures Join(dir, p) == Show(IsAbs(dir), Stack(Join(dir, p)))
  {
    if p == "" {
      CleanKeepsStack(dir);
      assert Split(p) == [""];
    } else {
      var whole := dir + "/" + p;
      SplitConcat(dir, p);
      ResolveConcat(IsAbs(dir), [], Split(dir), Split(p));
      CleanKeepsStack(whole);
    }
  }

  lemma ShowAppended(base: seq<string>, comps: seq<string>)
    requires |base| > 0 && |comps| > 0
    ensures Show(true, base + comps) == Show(true, base) + "/" + JoinSlash(comps)
  {
    JoinConcat(base, comps);
    SlashFirst(JoinSlash(base), "/" + JoinSlash(comps));
    SlashLast(JoinSlash(base), JoinSlash(comps));
  }

  lemma SlashFirst(a: string, b: string)
    ensures "/" + (a + b) == ("/" + a) + b
  {
  }

  lemma SlashLast(a: string, b: string)
    ensures a + "/" + b == a + ("/" + b)
    ensures ("/" + a) + "/" + b == ("/" + a) + ("/" + b)
  {
  }

  /** The components that are kept when no ".." occurs. */
  function Kept(comps: seq<string>): seq<string> {
    if |comps| == 0 then []
    else (if comps[0] == "" || comps[0] == "." then [] else [comps[0]]) + Kept(comps[1..])
  }

  lemma {:induction false} ResolveWithoutDotDot(rooted: bool, stack: seq<string>, comps: seq<string>)
    requires forall c :: c in comps ==> c != ".."
    ensures Resolve(rooted, stack, comps) == stack + Kept(comps)
    decreases |comps|
  {
    if |comps| > 0 {
      assert comps[0] in comps;
      assert forall c :: c in comps[1..] ==> c in comps;
      var pushed := Push(rooted, stack, comps[0]);
      ResolveWithoutDotDot(rooted, pushed, comps[1..]);
      assert pushed + Kept(comps[1..]) == stack + Kept(comps);
    }
  }
}
