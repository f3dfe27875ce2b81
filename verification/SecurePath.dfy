/** The lexical containment check in front of the Git handler. */
module SecurePath {
  import opened Wrappers
  import opened Paths

  /** What resolving the symbolic links of a path gives. */
  datatype Resolution = Real(path: string) | NotExist | Unreadable

  function Abs(cwd: string, p: string): string {
    if IsAbs(p) then Clean(p) else Join(cwd, p)
  }

  predicate HasPrefix(s: string, prefix: string) {
    prefix <= s
  }

  predicate Escapes(clean: string) {
    clean == "." || clean == ".." || HasPrefix(clean, "../")
  }

  predicate Inside(path: string, base: string) {
    path == base || HasPrefix(path, base + "/")
  }

  function SecureRepoPath(resolve: string -> Resolution, cwd: string, reposDir: string, repo: string): Option<string> {
    if repo == "" || IsAbs(repo) then None
    else
      var cleanRepo := Clean(repo);
      if Escapes(cleanRepo) then None
      else
        var baseAbs := Abs(cwd, reposDir);
        match resolve(baseAbs)
        case NotExist => None
        case Unreadable => None
        case Real(baseReal) =>
          var repoAbs := Abs(cwd, Join(baseAbs, cleanRepo));
          if !Inside(repoAbs, baseAbs) then None
          else
            match resolve(repoAbs)
            case Real(repoReal) => if Inside(repoReal, baseReal) then Some(repoAbs) else None
            case NotExist => Some(repoAbs)
            case Unreadable => None
  }

  // ---- Depth ----

  function DepthStep(c: string): int {
    if c == "" || c == "." then 0 else if c == ".." then -1 else 1
  }

  /** Components entered minus components left, after all of `comps`. */
  function FinalDepth(depth: int, comps: seq<string>): int
    decreases |comps|
  {
    if |comps| == 0 then depth else FinalDepth(depth + DepthStep(comps[0]), comps[1..])
  }

  predicate NeverNegative(depth: int, comps: seq<string>)
    decreases |comps|
  {
    depth >= 0 && (|comps| > 0 ==> NeverNegative(depth + DepthStep(comps[0]), comps[1..]))
  }

  /** The path stays inside its start and ends strictly inside it. */
  predicate StaysInside(repo: string) {
    NeverNegative(0, Split(repo)) && FinalDepth(0, Split(repo)) > 0
  }

  predicate HasDotDot(stack: seq<string>) {
    ".." in stack
  }

  /** Once a relative path has left its start, the cleaned path begins with "..". */
  lemma {:induction false} LeftForGood(stack: seq<string>, comps: seq<string>)
    requires |stack| > 0 && stack[0] == ".."
    ensures |Resolve(false, stack, comps)| > 0 && Resolve(false, stack, comps)[0] == ".."
    decreases |comps|
  {
    if |comps| > 0 {
      LeftForGood(Push(false, stack, comps[0]), comps[1..]);
    }
  }

  /** The cleaned components and the running depth: as long as it is not negative the stack holds as many
      proper components; once it is, the cleaned path begins with "..". */
  lemma {:induction false} DepthOfResolve(stack: seq<string>, comps: seq<string>)
    requires !HasDotDot(stack)
    ensures var after := Resolve(false, stack, comps);
            if NeverNegative(|stack|, comps) then !HasDotDot(after) && |after| == FinalDepth(|stack|, comps)
            else |after| > 0 && after[0] == ".."
    decreases |comps|
  {
    if |comps| > 0 {
      var pushed := Push(false, stack, comps[0]);
      if comps[0] == ".." && |stack| == 0 {
        LeftForGood(pushed, comps[1..]);
        assert !NeverNegative(-1, comps[1..]);
      } else {
        if |stack| > 0 {
          assert stack[|stack| - 1] in stack;
        }
        assert !HasDotDot(pushed) && |pushed| == |stack| + DepthStep(comps[0]);
        DepthOfResolve(pushed, comps[1..]);
      }
    }
  }

  /** The three string tests on a cleaned relative path see exactly whether it stays inside. */
  lemma EscapesIff(repo: string)
    requires !IsAbs(repo)
    ensures Escapes(Clean(repo)) <==> !StaysInside(repo)
    ensures StaysInside(repo) ==> |Stack(repo)| > 0 && !HasDotDot(Stack(repo))
  {
    var stack := Stack(repo);
    var clean := Show(false, stack);
    DepthOfResolve([], Split(repo));
    StackIsNormal(repo);
    StackOfShow(false, stack);
    if |stack| > 0 {
      assert stack[0] in stack;
      SplitOfJoin(stack);
      SplitNoSlash(".");
      if stack[0] == ".." {
        DotDotIsVisible(stack);
      }
      if clean == ".." || HasPrefix(clean, "../") {
        DotDotIsFirst(clean);
      }
    }
  }

  lemma DotDotIsFirst(s: string)
    requires s == ".." || HasPrefix(s, "../")
    ensures Split(s)[0] == ".."
  {
    SplitNoSlash("..");
    if s != ".." {
      assert s == ".." + "/" + s[3..];
      SplitConcat("..", s[3..]);
    }
  }

  lemma DotDotIsVisible(stack: seq<string>)
    requires |stack| > 0 && stack[0] == ".."
    ensures JoinSlash(stack) == ".." || HasPrefix(JoinSlash(stack), "../")
  {
    if |stack| > 1 {
      assert JoinSlash(stack)[..3] == "../";
    }
  }

  // ---- The prefix test ----

  /** Below a directory other than the root the prefix test holds; at the root it never does, because the
      root already ends in a slash. */
  lemma InsideIff(base: seq<string>, below: seq<string>)
    requires Normal(true, base + below) && |below| > 0
    ensures Inside(Show(true, base + below), Show(true, base)) <==> |base| > 0
  {
    var path, dir := Show(true, base + below), Show(true, base);
    if |base| > 0 {
      JoinConcat(base, below);
      assert path == dir + "/" + JoinSlash(below);
    } else {
      assert base + below == below && below[0] in below;
      assert JoinSlash(below)[0] == below[0][0] != '/';
      assert dir + "/" == "//" && path[1] == below[0][0];
    }
  }

  lemma NormalConcat(base: seq<string>, below: seq<string>)
    requires Normal(true, base) && Normal(false, below) && !HasDotDot(below)
    ensures Normal(true, base + below)
  {
    forall c | c in base + below ensures Proper(c) && c != ".." {
      assert c in base || c in below;
    }
    assert forall i :: 0 <= i < |base + below| ==> (base + below)[i] in base + below;
  }

  /** Every base this function computes is absolute and clean. */
  lemma BaseIsClean(cwd: string, reposDir: string)
    requires IsAbs(cwd)
    ensures var base := Abs(cwd, reposDir);
            base != "" && IsAbs(base) && Normal(true, Stack(base)) && base == Show(true, Stack(base))
  {
    if IsAbs(reposDir) {
      CleanKeepsStack(reposDir);
      StackIsNormal(reposDir);
    } else {
      StackOfJoin(cwd, reposDir);
    }
    StackIsNormal(Abs(cwd, reposDir));
  }

  /** The absolute path of a repository that stays inside: the base's components, then its own. */
  lemma RepoAbs(cwd: string, base: string, repo: string)
    requires IsAbs(base) && base == Show(true, Stack(base)) && !IsAbs(repo) && StaysInside(repo)
    ensures Abs(cwd, Join(base, Clean(repo))) == Show(true, Stack(base) + Stack(repo))
    ensures Normal(true, Stack(base) + Stack(repo))
  {
    var stack := Stack(repo);
    EscapesIff(repo);
    StackIsNormal(base);
    StackIsNormal(repo);
    NormalConcat(Stack(base), stack);
    SplitOfJoin(stack);
    StackOfJoin(base, Clean(repo));
    ResolveNormal(true, Stack(base), stack);
    CleanKeepsStack(Join(base, Clean(repo)));
  }

  /** With symbolic links resolved as themselves. */
  ghost predicate NoLinks(resolve: string -> Resolution) {
    forall p :: resolve(p) == Real(p) || resolve(p) == NotExist
  }

  /** Lexical containment: below an existing base the check succeeds exactly for nonempty relative paths
      whose running depth never goes negative and ends positive, except that it rejects everything when
      the base is the root; the result is the base's components followed by the cleaned ones. So below
      any other base the prefix test never rejects. */
  lemma LexicalContainment(resolve: string -> Resolution, cwd: string, reposDir: string, repo: string)
    requires NoLinks(resolve) && IsAbs(cwd) && resolve(Abs(cwd, reposDir)).Real?
    ensures var r, base := SecureRepoPath(resolve, cwd, reposDir, repo), Abs(cwd, reposDir);
            && (r.Some? <==> repo != "" && !IsAbs(repo) && StaysInside(repo) && base != "/")
            && (r.Some? ==> r.value == Show(true, Stack(base) + Stack(repo)))
  {
    var base := Abs(cwd, reposDir);
    BaseIsClean(cwd, reposDir);
    if repo != "" && !IsAbs(repo) {
      EscapesIff(repo);
      if StaysInside(repo) {
        RepoAbs(cwd, base, repo);
        InsideIff(Stack(base), Stack(repo));
        RootIsEmpty(Stack(base));
        assert resolve(base) == Real(base);
      }
    }
  }

  lemma RootIsEmpty(stack: seq<string>)
    requires Normal(true, stack)
    ensures Show(true, stack) == "/" <==> |stack| == 0
  {
    StackOfShow(true, stack);
    StackOfShow(true, []);
  }

  // ---- What the check accepts, on strings ----

  /** Rewriting a repository path the way a file system reads it changes neither the decision nor the path,
      whatever the links: a component followed by "..", an empty one and "." are as good as absent. */
  lemma RewritingChangesNothing(resolve: string -> Resolution, cwd: string, reposDir: string,
                                p: string, c: string, q: string)
    requires Proper(c) && c != ".."
    ensures var r := SecureRepoPath(resolve, cwd, reposDir, p + "/" + q);
            && SecureRepoPath(resolve, cwd, reposDir, p + "/" + c + "/../" + q) == r
            && SecureRepoPath(resolve, cwd, reposDir, p + "//" + q) == r
            && SecureRepoPath(resolve, cwd, reposDir, p + "/./" + q) == r
  {
    CleanCancels(p, c, q);
    CleanDropsNoise(p, q);
  }

  lemma RewritingTheFront(resolve: string -> Resolution, cwd: string, reposDir: string, c: string, q: string)
    requires Proper(c) && c != ".." && !IsAbs(q)
    ensures var r := SecureRepoPath(resolve, cwd, reposDir, q);
            && SecureRepoPath(resolve, cwd, reposDir, c + "/../" + q) == r
            && SecureRepoPath(resolve, cwd, reposDir, "./" + q) == r
  {
    CleanDropsFront(c, q);
    NormalIsClean([c]);
  }

  /** Refused whatever follows, and wherever the base is: absolute paths and paths that leave first. With the
      rewritings and the plain paths this determines the decision on every path. */
  lemma LeavingIsRefused(resolve: string -> Resolution, cwd: string, reposDir: string, q: string)
    ensures SecureRepoPath(resolve, cwd, reposDir, "../" + q) == None
    ensures SecureRepoPath(resolve, cwd, reposDir, "/" + q) == None
    ensures forall p :: p in ["", ".", ".."] ==> SecureRepoPath(resolve, cwd, reposDir, p) == None
  {
    EscapesIff("../" + q);
    SplitNoSlash("..");
    SplitConcat("..", q);
    assert ".." + "/" + q == "../" + q;
    assert !NeverNegative(-1, Split(q)) && !NeverNegative(0, [".."] + Split(q));
    EscapesIff("..");
    assert !NeverNegative(-1, []) && !NeverNegative(0, [".."]);
    EscapesIff(".");
    SplitNoSlash(".");
    assert FinalDepth(0, ["."]) == FinalDepth(0, []);
  }

  /** Below an existing base other than the root a plain path is appended to it. */
  lemma PlainPathIsAppended(resolve: string -> Resolution, cwd: string, reposDir: string, comps: seq<string>)
    requires IsAbs(cwd) && |comps| > 0 && forall c :: c in comps ==> Proper(c) && c != ".."
    requires var base := Abs(cwd, reposDir);
             && base != "/" && resolve(base) == Real(base)
             && (resolve(base + "/" + JoinSlash(comps)) == Real(base + "/" + JoinSlash(comps))
                 || resolve(base + "/" + JoinSlash(comps)) == NotExist)
    ensures SecureRepoPath(resolve, cwd, reposDir, JoinSlash(comps))
            == Some(Abs(cwd, reposDir) + "/" + JoinSlash(comps))
  {
    var base, repo := Abs(cwd, reposDir), JoinSlash(comps);
    BaseIsClean(cwd, reposDir);
    PlainIsInside(comps);
    EscapesIff(repo);
    RepoAbs(cwd, base, repo);
    RootIsEmpty(Stack(base));
    InsideIff(Stack(base), comps);
    ShowAppended(Stack(base), comps);
  }

  lemma PlainIsInside(comps: seq<string>)
    requires |comps| > 0 && forall c :: c in comps ==> Proper(c) && c != ".."
    ensures JoinSlash(comps) != "" && !IsAbs(JoinSlash(comps))
    ensures StaysInside(JoinSlash(comps)) && Stack(JoinSlash(comps)) == comps
  {
    assert comps[0] in comps && JoinSlash(comps)[0] == comps[0][0];
    assert forall i :: 0 <= i < |comps| ==> comps[i] in comps;
    SplitOfJoin(comps);
    StackOfShow(false, comps);
    DepthOfResolve([], comps);
    PlainDepth(0, comps);
  }

  lemma {:induction false} PlainDepth(depth: nat, comps: seq<string>)
    requires forall c :: c in comps ==> Proper(c) && c != ".."
    ensures NeverNegative(depth, comps) && FinalDepth(depth, comps) == depth + |comps|
    decreases |comps|
  {
    if |comps| > 0 {
      assert comps[0] in comps && forall c :: c in comps[1..] ==> c in comps;
      PlainDepth(depth + 1, comps[1..]);
    }
  }

  /** The base itself: an absolute plain directory is taken as it is, a relative one below the working
      directory. */
  lemma PlainBase(work: seq<string>, comps: seq<string>)
    requires |work| > 0 && forall c :: c in work ==> Proper(c) && c != ".."
    requires |comps| > 0 && forall c :: c in comps ==> Proper(c) && c != ".."
    ensures var cwd := "/" + JoinSlash(work);
            && Abs(cwd, "/" + JoinSlash(comps)) == "/" + JoinSlash(comps)
            && Abs(cwd, JoinSlash(comps)) == cwd + "/" + JoinSlash(comps)
  {
    var cwd, all := "/" + JoinSlash(work), work + comps;
    assert forall c :: c in all ==> Proper(c) && c != "..";
    PlainIsNormal(comps);
    PlainIsNormal(all);
    NormalIsClean(comps);
    NormalIsClean(all);
    JoinConcat(work, comps);
    PlainIsInside(comps);
    assert "/" + (JoinSlash(work) + "/" + JoinSlash(comps)) == cwd + "/" + JoinSlash(comps);
  }

  lemma PlainIsNormal(comps: seq<string>)
    requires forall c :: c in comps ==> Proper(c) && c != ".."
    ensures Normal(true, comps) && Normal(false, comps)
  {
    assert forall i :: 0 <= i < |comps| ==> comps[i] in comps;
  }

  // ---- Symbolic links ----

  /** On clean absolute paths the prefix test is the prefix relation on components, except at the root. */
  lemma InsideIffPrefix(path: seq<string>, base: seq<string>)
    requires Normal(true, path) && Normal(true, base)
    ensures Inside(Show(true, path), Show(true, base)) <==> path == base || (base <= path && |base| > 0)
  {
    var p, b := Show(true, path), Show(true, base);
    StackOfShow(true, path);
    StackOfShow(true, base);
    if base <= path && |base| < |path| {
      var below := path[|base|..];
      assert path == base + below;
      InsideIff(base, below);
    } else {
      assert p == b <==> path == base;
      if HasPrefix(p, b + "/") {
        RestOfPrefix(path, base);
      }
    }
  }

  lemma RestOfPrefix(path: seq<string>, base: seq<string>)
    requires Normal(true, path) && Normal(true, base) && HasPrefix(Show(true, path), Show(true, base) + "/")
    ensures base <= path
  {
    if |base| > 0 && |path| > 0 {
      var p, b := JoinSlash(path), JoinSlash(base);
      assert "/" + p == Show(true, path) && "/" + b == Show(true, base);
      var rest := p[|b| + 1..];
      assert ("/" + p)[..|b| + 2] == "/" + b + "/";
      assert ("/" + p)[1..|b| + 2] == p[..|b| + 1];
      assert p[..|b| + 1] == b + "/";
      assert p == b + "/" + rest;
      SplitConcat(b, rest);
      assert forall c :: c in path ==> NoSlash(c);
      assert forall c :: c in base ==> NoSlash(c);
      SplitOfJoin(path);
      SplitOfJoin(base);
    }
  }

  /** Resolving links gives clean absolute paths. */
  ghost predicate ResolvesCleanly(resolve: string -> Resolution) {
    forall p :: resolve(p).Real? ==> ResolvedPath(resolve(p).path)
  }

  predicate ResolvedPath(q: string) {
    IsAbs(q) && Clean(q) == q
  }

  /** What the links of an accepted path may do: the base exists; the repository does not, or really is the
      base's target or below it, component by component. */
  predicate LinksStayInside(base: Resolution, repo: Resolution) {
    && base.Real?
    && (repo.NotExist?
        || (repo.Real?
            && (Stack(repo.path) == Stack(base.path)
                || (Stack(base.path) <= Stack(repo.path) && base.path != "/"))))
  }

  /** Containment with symbolic links, however they resolve: the check succeeds exactly for paths that stay
      inside lexically and whose links do; the result is the path before resolving. */
  lemma Containment(resolve: string -> Resolution, cwd: string, reposDir: string, repo: string)
    requires ResolvesCleanly(resolve) && IsAbs(cwd)
    ensures var r, base := SecureRepoPath(resolve, cwd, reposDir, repo), Abs(cwd, reposDir);
            var path := Show(true, Stack(base) + Stack(repo));
            r == if repo != "" && !IsAbs(repo) && StaysInside(repo) && base != "/"
                    && LinksStayInside(resolve(base), resolve(path))
                 then Some(path) else None
  {
    var base := Abs(cwd, reposDir);
    BaseIsClean(cwd, reposDir);
    if repo != "" && !IsAbs(repo) {
      EscapesIff(repo);
      if StaysInside(repo) {
        RepoAbs(cwd, base, repo);
        InsideIff(Stack(base), Stack(repo));
        RootIsEmpty(Stack(base));
        var path := Show(true, Stack(base) + Stack(repo));
        if resolve(base).Real? && resolve(path).Real? {
          ResolvedInside(resolve(path).path, resolve(base).path);
        }
      }
    }
  }

  lemma ResolvedInside(path: string, base: string)
    requires ResolvedPath(path) && ResolvedPath(base)
    ensures Inside(path, base) <==> Stack(path) == Stack(base) || (Stack(base) <= Stack(path) && base != "/")
  {
    StackIsNormal(path);
    StackIsNormal(base);
    RootIsEmpty(Stack(base));
    InsideIffPrefix(Stack(path), Stack(base));
  }
}
