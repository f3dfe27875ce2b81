/** Repository names and where on disk they lead. */
module RepoPaths {
  import opened Paths

  /** The naming rule: a letter or digit, then letters, digits, dots, underscores and hyphens. */
  predicate IsAlnum(c: char) {
    'a' <= c <= 'z' || 'A' <= c <= 'Z' || '0' <= c <= '9'
  }

  predicate ValidRepoName(name: string) {
    && |name| > 0 && IsAlnum(name[0])
    && forall i :: 0 <= i < |name| ==> IsAlnum(name[i]) || name[i] in "._-"
  }

  /** Leftmost, non-overlapping removal of "..". */
  function RemoveDots(s: string): string {
    if |s| == 0 then ""
    else if |s| >= 2 && s[0] == '.' && s[1] == '.' then RemoveDots(s[2..])
    else [s[0]] + RemoveDots(s[1..])
  }

  function TrimPrefix(s: string): string {
    if |s| > 0 && s[0] == '/' then s[1..] else s
  }

  function TrimLeft(s: string): string {
    if |s| > 0 && s[0] == '/' then TrimLeft(s[1..]) else s
  }

  function TrimRight(s: string): string {
    if |s| > 0 && s[|s| - 1] == '/' then TrimRight(s[..|s| - 1]) else s
  }

  function Sanitized(path: string): string {
    TrimRight(TrimLeft(RemoveDots(TrimPrefix(path))))
  }

  method SanitizeRepoPath(path: string) returns (r: string)
    ensures r == Sanitized(path) && NoDotDot(r) && NoEdgeSlash(r)
  {
    r := TrimPrefix(path);
    r := RemoveDots(r);
    r := TrimRight(TrimLeft(r));
    SanitizedIsSound(path);
  }

  method BuildRepoPath(base: string, components: seq<string>) returns (path: string)
    ensures path == JoinSlash([base] + seq(|components|, i requires 0 <= i < |components| => Sanitized(components[i])))
  {
    var parts := [base];
    for i := 0 to |components|
      invariant parts == [base] + seq(i, k requires 0 <= k < i => Sanitized(components[k]))
    {
      var c := SanitizeRepoPath(components[i]);
      parts := parts + [c];
    }
    path := JoinSlash(parts);
  }

  function RepoPath(reposDir: string, name: string): string {
    Join(reposDir, Sanitized(name))
  }

  // ---- Sanitising ----

  predicate NoDotDot(s: string) {
    forall i :: 0 <= i < |s| - 1 ==> !(s[i] == '.' && s[i + 1] == '.')
  }

  predicate NoEdgeSlash(s: string) {
    |s| > 0 ==> s[0] != '/' && s[|s| - 1] != '/'
  }

  lemma {:induction false} RemoveDotsIsSound(s: string)
    ensures NoDotDot(RemoveDots(s))
    ensures |s| > 0 && s[0] != '.' ==> |RemoveDots(s)| > 0 && RemoveDots(s)[0] == s[0]
    ensures s == "." ==> RemoveDots(s) == s
  {
    if |s| > 0 {
      if |s| >= 2 && s[0] == '.' && s[1] == '.' {
        RemoveDotsIsSound(s[2..]);
      } else {
        RemoveDotsIsSound(s[1..]);
      }
    }
  }

  lemma {:induction false} NothingToRemove(s: string)
    requires NoDotDot(s)
    ensures RemoveDots(s) == s
  {
    if |s| > 0 {
      assert s == [s[0]] + s[1..];
      if |s| >= 2 {
        assert !(s[0] == '.' && s[0 + 1] == '.');
      }
      NothingToRemove(s[1..]);
    }
  }

  lemma {:induction false} TrimLeftIsSound(s: string)
    ensures |TrimLeft(s)| > 0 ==> TrimLeft(s)[0] != '/'
    ensures NoDotDot(s) ==> NoDotDot(TrimLeft(s))
  {
    if |s| > 0 && s[0] == '/' {
      assert NoDotDot(s) ==> NoDotDot(s[1..]);
      TrimLeftIsSound(s[1..]);
    }
  }

  lemma {:induction false} TrimRightIsSound(s: string)
    ensures var r := TrimRight(s);
            && r <= s && (|r| > 0 ==> r[|r| - 1] != '/')
            && (NoDotDot(s) ==> NoDotDot(r))
  {
    if |s| > 0 && s[|s| - 1] == '/' {
      TrimRightIsSound(s[..|s| - 1]);
    }
  }

  /** For every string the result has no ".." and no slash at either end. */
  lemma SanitizedIsSound(path: string)
    ensures NoDotDot(Sanitized(path)) && NoEdgeSlash(Sanitized(path))
  {
    var s := RemoveDots(TrimPrefix(path));
    RemoveDotsIsSound(TrimPrefix(path));
    TrimLeftIsSound(s);
    TrimRightIsSound(TrimLeft(s));
  }

  lemma CleanNamesAreFixed(s: string)
    requires NoDotDot(s) && NoEdgeSlash(s)
    ensures Sanitized(s) == s
  {
    NothingToRemove(s);
  }

  /** Exactly the strings with those two properties are left alone; so a second application changes
      nothing. */
  lemma SanitizedIffClean(s: string)
    ensures Sanitized(s) == s <==> NoDotDot(s) && NoEdgeSlash(s)
    ensures Sanitized(Sanitized(s)) == Sanitized(s)
  {
    SanitizedIsSound(s);
    if NoDotDot(s) && NoEdgeSlash(s) {
      CleanNamesAreFixed(s);
    }
    CleanNamesAreFixed(Sanitized(s));
  }

  /** Which ".." go: the leftmost one, and then those of what follows it. With the names that are left alone
      this determines the result. */
  lemma {:induction false} RemoveDotsLeftmost(before: string, rest: string)
    requires NoDotDot(before) && (|before| > 0 ==> before[|before| - 1] != '.')
    ensures RemoveDots(before + ".." + rest) == before + RemoveDots(rest)
  {
    var s := before + ".." + rest;
    if |before| == 0 {
      assert s == ".." + rest && s[2..] == rest;
    } else {
      assert s[1..] == before[1..] + ".." + rest && s[0] == before[0];
      if before[0] == '.' {
        assert before[0 + 1] != '.';
      }
      RemoveDotsLeftmost(before[1..], rest);
    }
  }

  function Slashes(n: nat): (s: string)
    ensures |s| == n && forall i :: 0 <= i < n ==> s[i] == '/'
  {
    seq(n, i => '/')
  }

  lemma {:induction false} TrimLeftStrips(s: string) returns (n: nat)
    ensures s == Slashes(n) + TrimLeft(s)
  {
    n := 0;
    if |s| > 0 && s[0] == '/' {
      var m := TrimLeftStrips(s[1..]);
      n := m + 1;
      assert s == [s[0]] + s[1..];
    }
  }

  lemma {:induction false} TrimRightStrips(s: string) returns (n: nat)
    ensures s == TrimRight(s) + Slashes(n)
  {
    n := 0;
    if |s| > 0 && s[|s| - 1] == '/' {
      var m := TrimRightStrips(s[..|s| - 1]);
      n := m + 1;
      assert s == s[..|s| - 1] + [s[|s| - 1]];
    }
  }

  /** What sanitising does: it removes the ".." and then nothing but slashes at the ends. The slash that is
      cut off first makes no difference. */
  lemma SanitizedStrips(path: string) returns (front: nat, back: nat)
    ensures RemoveDots(path) == Slashes(front) + Sanitized(path) + Slashes(back)
  {
    var dotless := RemoveDots(TrimPrefix(path));
    var cut := TrimPrefixStrips(path);
    var left := TrimLeftStrips(dotless);
    back := TrimRightStrips(TrimLeft(dotless));
    front := cut + left;
    SlashesAdd(cut, left, Sanitized(path) + Slashes(back));
    Regroup(Slashes(front), Sanitized(path), Slashes(back));
  }

  lemma TrimPrefixStrips(path: string) returns (n: nat)
    ensures RemoveDots(path) == Slashes(n) + RemoveDots(TrimPrefix(path))
  {
    n := if |path| > 0 && path[0] == '/' then 1 else 0;
    if n == 1 {
      assert Slashes(1) == [path[0]];
    } else {
      assert Slashes(0) == [];
    }
  }

  lemma SlashesAdd(a: nat, b: nat, rest: string)
    ensures Slashes(a + b) + rest == Slashes(a) + (Slashes(b) + rest)
  {
  }

  lemma Regroup(a: string, b: string, c: string)
    ensures (a + b) + c == a + (b + c)
  {
  }

  const SMALL: string := "abcdefghijklm" + "nopqrstuvwxyz"
  const CAPITAL: string := "ABCDEFGHIJKLM" + "NOPQRSTUVWXYZ"
  const DIGITS: string := "0123456789"

  lemma SmallIff(c: char)
    ensures c in SMALL <==> 'a' <= c <= 'z'
  {
    if 'a' <= c <= 'z' {
      assert SMALL[c as int - 'a' as int] == c;
    }
  }

  lemma CapitalIff(c: char)
    ensures c in CAPITAL <==> 'A' <= c <= 'Z'
  {
    if 'A' <= c <= 'Z' {
      assert CAPITAL[c as int - 'A' as int] == c;
    }
  }

  lemma DigitIff(c: char)
    ensures c in DIGITS <==> '0' <= c <= '9'
  {
    if '0' <= c <= '9' {
      assert DIGITS[c as int - '0' as int] == c;
    }
  }

  predicate InWord(c: char) {
    c in SMALL || c in CAPITAL || c in DIGITS
  }

  /** The valid names, by the characters they may contain. */
  lemma ValidNameIff(name: string)
    ensures ValidRepoName(name) <==>
              && |name| > 0 && InWord(name[0])
              && forall i :: 0 <= i < |name| ==> InWord(name[i]) || name[i] in "._-"
  {
    forall i | 0 <= i < |name|
      ensures InWord(name[i]) <==> IsAlnum(name[i])
    {
      SmallIff(name[i]);
      CapitalIff(name[i]);
      DigitIff(name[i]);
    }
  }

  // ---- Containment ----

  lemma {:induction false} ComponentsWithoutDotDot(s: string)
    requires NoDotDot(s)
    ensures forall c :: c in Split(s) ==> NoDotDot(c)
    ensures var c := Split(s)[0]; |c| <= |s| && s[..|c|] == c
  {
    if |s| > 0 {
      assert NoDotDot(s[1..]);
      ComponentsWithoutDotDot(s[1..]);
      var rest := Split(s[1..]);
      assert rest[0] in rest;
      if s[0] != '/' {
        var c := [s[0]] + rest[0];
        assert s[..|c|] == c;
        forall i | 0 <= i < |c| - 1 ensures !(c[i] == '.' && c[i + 1] == '.') {
          assert c[i] == s[i] && c[i + 1] == s[i + 1];
        }
      }
    }
  }

  /** The repository path is the root's components, followed by those of the sanitised name: it stays at
      or below the root, for every name and every root. */
  lemma RepoPathIsContained(reposDir: string, name: string)
    ensures var path, kept := RepoPath(reposDir, name), Kept(Split(Sanitized(name)));
            && (path != "" ==> path == Show(IsAbs(reposDir), Stack(reposDir) + kept))
            && (path == "" <==> reposDir == "" && Sanitized(name) == "")
            && Stack(path) == Stack(reposDir) + kept
            && (forall c :: c in kept ==> Proper(c) && c != "..")
  {
    var s := Sanitized(name);
    SanitizedIsSound(name);
    ComponentsWithoutDotDot(s);
    assert !NoDotDot("..") by {
      assert ".."[0] == '.' && ".."[0 + 1] == '.';
    }
    ResolveWithoutDotDot(IsAbs(reposDir), Stack(reposDir), Split(s));
    SplitParts(s);
    KeptIsProper(Split(s));
    if reposDir == "" {
      assert Stack(reposDir) == [] by {
        assert Split("") == [""];
      }
      CleanKeepsStack(s);
      ShowIsNotEmpty(s);
    } else {
      StackOfJoin(reposDir, s);
      ShowIsNotEmpty(reposDir);
      ShowIsNotEmpty(reposDir + "/" + s);
    }
  }

  lemma ShowIsNotEmpty(p: string)
    ensures Clean(p) != ""
  {
    StackIsNormal(p);
    if |Stack(p)| > 0 {
      assert Stack(p)[0] in Stack(p);
    }
  }

  lemma {:induction false} KeptIsProper(comps: seq<string>)
    requires forall c :: c in comps ==> NoSlash(c) && c != ".."
    ensures forall c :: c in Kept(comps) ==> Proper(c) && c != ".."
  {
    if |comps| > 0 {
      assert comps[0] in comps && forall c :: c in comps[1..] ==> c in comps;
      KeptIsProper(comps[1..]);
    }
  }

  // ---- Which names share a directory ----

  lemma {:induction false} RemoveDotsKeepsChars(s: string)
    ensures forall i :: 0 <= i < |RemoveDots(s)| ==> RemoveDots(s)[i] in s
  {
    if |s| > 0 {
      RemoveDotsKeepsChars(if |s| >= 2 && s[0] == '.' && s[1] == '.' then s[2..] else s[1..]);
    }
  }

  /** A valid name becomes one proper component. */
  lemma ValidNameIsComponent(name: string)
    requires ValidRepoName(name)
    ensures Sanitized(name) == RemoveDots(name)
    ensures Proper(Sanitized(name)) && Sanitized(name) != ".." && Kept(Split(Sanitized(name))) == [Sanitized(name)]
  {
    var s := RemoveDots(name);
    assert forall i :: 0 <= i < |name| ==> name[i] != '/';
    RemoveDotsIsSound(name);
    RemoveDotsKeepsChars(name);
    assert NoSlash(s) && |s| > 0 && s[0] == name[0];
    SplitNoSlash(s);
    assert Kept([s]) == [s] + Kept([]);
  }

  /** Below a clean absolute directory other than the root, a valid name leads to its own directory there. */
  lemma RepoPathOfName(reposDir: string, name: string)
    requires IsAbs(reposDir) && Clean(reposDir) == reposDir && reposDir != "/" && ValidRepoName(name)
    ensures RepoPath(reposDir, name) == reposDir + "/" + RemoveDots(name)
  {
    ValidNameIsComponent(name);
    RepoPathIsContained(reposDir, name);
    ShowAppended(Stack(reposDir), [Sanitized(name)]);
  }

  /** Two valid names share a directory exactly when they agree after removing "..". */
  lemma SharedPathIff(reposDir: string, name: string, other: string)
    requires ValidRepoName(name) && ValidRepoName(other)
    ensures RepoPath(reposDir, name) == RepoPath(reposDir, other) <==> RemoveDots(name) == RemoveDots(other)
  {
    ValidNameIsComponent(name);
    ValidNameIsComponent(other);
    RepoPathIsContained(reposDir, name);
    RepoPathIsContained(reposDir, other);
    var base := Stack(reposDir);
    if RepoPath(reposDir, name) == RepoPath(reposDir, other) {
      assert (base + [Sanitized(name)])[|base|] == (base + [Sanitized(other)])[|base|];
    }
  }

  /** So the path determines the name among valid names without "..". */
  lemma RepoPathIsInjective(reposDir: string, name: string, other: string)
    requires ValidRepoName(name) && ValidRepoName(other) && NoDotDot(name) && NoDotDot(other)
    requires RepoPath(reposDir, name) == RepoPath(reposDir, other)
    ensures name == other
  {
    SharedPathIff(reposDir, name, other);
    NothingToRemove(name);
    NothingToRemove(other);
  }

  /** Two different valid names with one directory. */
  lemma NamesCanCollide(reposDir: string)
    ensures ValidRepoName("a..b") && ValidRepoName("ab") && RepoPath(reposDir, "a..b") == RepoPath(reposDir, "ab")
  {
    var name := "a..b";
    assert RemoveDots(name) == ['a'] + RemoveDots(name[1..]);
    assert name[1..][2..] == "b" && name[1..][0] == '.' && name[1..][1] == '.';
    assert RemoveDots("b") == "b";
    NothingToRemove("ab");
    SharedPathIff(reposDir, name, "ab");
  }
}
