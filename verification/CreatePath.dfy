/** Creating a path name by name (libs/utility/fileutility.cpp:146-185) over a model of the directory tree. */
module CreatePath {
  import opened CText
  import opened Options
  import opened Paths
  import opened Split

  // ---------------------------------------------------------------- The directory tree

  /** A directory: the names on the way to it from the root. */
  type Dir = seq<seq<char>>

  function Parent(d: Dir): Dir
    requires d != []
  {
    d[..|d| - 1]
  }

  /** The root exists, and every directory is in one that exists. */
  predicate IsTree(dirs: set<Dir>) { [] in dirs && forall d :: d in dirs && d != [] ==> Parent(d) in dirs }

  /** To the system only '/' separates names, and a path that does not begin with one starts at cwd. */
  function Resolve(cwd: Dir, path: seq<char>): Dir {
    (if path != [] && path[0] == '/' then [] else cwd) + Tokens(path, '/')
  }

  datatype Errno = NOERROR | ENOENT | EEXIST | EACCES

  class FileSystem {
    var dirs: set<Dir>
    var errno: Errno
    const cwd: Dir
    /** Where nothing can be created: a file is in the way, or permission is missing. */
    const denied: set<Dir>

    ghost predicate Valid()
      reads this
    {
      IsTree(dirs) && cwd in dirs
    }

    constructor (dirs: set<Dir>, cwd: Dir, denied: set<Dir>)
      requires IsTree(dirs) && cwd in dirs
      ensures Valid() && this.dirs == dirs && this.cwd == cwd && this.denied == denied && errno == NOERROR
    {
      this.dirs, this.cwd, this.denied, errno := dirs, cwd, denied, NOERROR;
    }

    method FolderExists(path: seq<char>) returns (ok: bool)
      ensures ok <==> path != [] && Resolve(cwd, path) in dirs
    {
      ok := path != [] && Resolve(cwd, path) in dirs;
    }

    /** mkdir. */
    method Create(path: seq<char>) returns (ok: bool)
      requires Valid()
      modifies this
      ensures Valid()
      ensures var d := Resolve(cwd, path);
              if path == [] then !ok && errno == ENOENT
              else if d in old(dirs) then !ok && errno == EEXIST
              else if d == [] || Parent(d) !in old(dirs) then !ok && errno == ENOENT
              else if d in denied then !ok && errno == EACCES
              else ok && errno == old(errno)
      ensures dirs == if ok then old(dirs) + {Resolve(cwd, path)} else old(dirs)
    {
      ok := false;
      var d := Resolve(cwd, path);
      if path == [] {
        errno := ENOENT;
      } else if d in dirs {
        errno := EEXIST;
      } else if d == [] || Parent(d) !in dirs {
        errno := ENOENT;
      } else if d in denied {
        errno := EACCES;
      } else {
        dirs := dirs + {d};
        ok := true;
      }
    }

    /** Cuts the working copy at k and reads it. */
    static method Truncate(workingPath: array<char>, path: seq<char>, k: nat) returns (name: seq<char>)
      requires k <= |path| < workingPath.Length && workingPath[..|path|] == path && NUL !in path
      modifies workingPath
      ensures name == path[..k] && workingPath[..] == old(workingPath[..])[k := NUL]
    {
      hide CString;
      workingPath[k] := NUL;
      assert workingPath[..][k] == NUL && workingPath[..][..k] == path[..k];
      CStringIs(workingPath[..], k);
      name := ReadString(workingPath);
    }

    /** Null and relative paths are turned down; a path has to fit the 256-byte working copy. */
    method CreatePath(folder: Option<seq<char>>) returns (ok: bool)
      requires Valid() && (folder.Some? ==> NUL !in folder.value && |folder.value| < PATH_BUFFER)
      modifies this
      ensures Valid()
      ensures (ok, dirs) == Creation(cwd, denied, old(dirs), folder)
      ensures errno == if ok || !Creatable(folder) then old(errno) else EACCES
    {
      hide CString, Resolve, IsTree, Made, FirstRefused, Refused, NoneRefused, Creation;
      CreationIs(cwd, denied, dirs, folder);
      if folder.None? || folder.value == [] || !IsSeparator(folder.value[0]) { return false; }
      var path := folder.value;
      var workingPath := new char[PATH_BUFFER];
      StrCpy(workingPath, path);
      ghost var copy := workingPath[..];
      assert copy[..|path|] == path && copy[|path|] == NUL;
      var currentPath := 0;
      ok := true;
      MadeNone(cwd, denied, dirs, path);
      while ok && currentPath < |path|
        invariant Valid() && currentPath <= |path| && (ok ==> NoneRefused(cwd, denied, old(dirs), path, currentPath))
        invariant workingPath[..] == copy
        invariant ok ==> dirs == old(dirs) + Made(cwd, path, currentPath) && errno == old(errno)
        invariant !ok ==> 0 < currentPath && FirstRefused(cwd, denied, old(dirs), path, 1) == currentPath
        invariant !ok ==> dirs == old(dirs) + Made(cwd, path, currentPath - 1) && errno == EACCES
        decreases ok, |path| - currentPath
      {
        ghost var before := currentPath;
        currentPath := currentPath + 1;
        while currentPath < |path| && !IsSeparator(path[currentPath])
          invariant before < currentPath <= |path|
          invariant forall k :: before < k < currentPath ==> !NameEnds(path, k)
        {
          currentPath := currentPath + 1;
        }
        var name := Truncate(workingPath, path, currentPath);
        MadeNext(cwd, path, before, currentPath);
        RefusedNext(cwd, denied, old(dirs), path, before, currentPath);
        var there := FolderExists(name);
        if !there {
          ParentMade(cwd, dirs, path, currentPath);
          ok := Create(name);
          if !ok { FirstRefusedIs(cwd, denied, old(dirs), path, currentPath); }
        }
        workingPath[currentPath] := if currentPath < |path| then path[currentPath] else NUL;
        assert workingPath[currentPath] == copy[currentPath];
      }
      if ok { FirstRefusedIs(cwd, denied, old(dirs), path, |path| + 1); }
    }
  }

  // ---------------------------------------------------------------- What is created

  predicate Creatable(folder: Option<seq<char>>) {
    folder.Some? && folder.value != [] && IsSeparator(folder.value[0])
  }

  /** Null, empty and relative paths are turned down and change nothing. */
  lemma CreatableIff(cwd: Dir, denied: set<Dir>, dirs: set<Dir>, folder: Option<seq<char>>)
    ensures Creatable(folder) <==> folder.Some? && folder.value != [] && folder.value[0] in "/\\"
    ensures folder.None? || folder.value == [] || folder.value[0] !in "/\\" ==>
              Creation(cwd, denied, dirs, folder) == (false, dirs)
  {}

  /** The directories named by the prefixes of a path up to length n. */
  function Made(cwd: Dir, path: seq<char>, n: nat): set<Dir>
    requires n <= |path|
  {
    set k | 1 <= k <= n && NameEnds(path, k) :: Resolve(cwd, path[..k])
  }

  /** A prefix names a directory that is missing and cannot be created. */
  predicate Refused(cwd: Dir, denied: set<Dir>, dirs: set<Dir>, path: seq<char>, k: nat)
    requires k <= |path|
  {
    NameEnds(path, k) && Resolve(cwd, path[..k]) in denied - dirs
  }

  predicate NoneRefused(cwd: Dir, denied: set<Dir>, dirs: set<Dir>, path: seq<char>, n: nat)
    requires n <= |path|
  {
    forall k :: 1 <= k <= n ==> !Refused(cwd, denied, dirs, path, k)
  }

  /** The length of the first refused prefix from k on, |path| + 1 when there is none. */
  function FirstRefused(cwd: Dir, denied: set<Dir>, dirs: set<Dir>, path: seq<char>, k: nat): (f: nat)
    requires 1 <= k <= |path| + 1
    ensures k <= f <= |path| + 1 && (f <= |path| ==> Refused(cwd, denied, dirs, path, f))
    ensures forall j :: k <= j < f ==> !Refused(cwd, denied, dirs, path, j)
    decreases |path| + 1 - k
  {
    if k > |path| || Refused(cwd, denied, dirs, path, k) then k else FirstRefused(cwd, denied, dirs, path, k + 1)
  }

  /** The answer, and the directories there are afterwards. */
  function Creation(cwd: Dir, denied: set<Dir>, dirs: set<Dir>, folder: Option<seq<char>>): (bool, set<Dir>) {
    if !Creatable(folder) then (false, dirs)
    else
      var f := FirstRefused(cwd, denied, dirs, folder.value, 1);
      (f > |folder.value|, dirs + Made(cwd, folder.value, f - 1))
  }

  lemma CreationIs(cwd: Dir, denied: set<Dir>, dirs: set<Dir>, folder: Option<seq<char>>)
    ensures Creation(cwd, denied, dirs, folder)
            == if !Creatable(folder) then (false, dirs)
               else
                 var f := FirstRefused(cwd, denied, dirs, folder.value, 1);
                 (f > |folder.value|, dirs + Made(cwd, folder.value, f - 1))
  {
    hide FirstRefused, Made;
  }

  lemma FirstRefusedIs(cwd: Dir, denied: set<Dir>, dirs: set<Dir>, path: seq<char>, k: nat)
    requires 1 <= k <= |path| + 1 && NoneRefused(cwd, denied, dirs, path, k - 1)
    requires k <= |path| ==> Refused(cwd, denied, dirs, path, k)
    ensures FirstRefused(cwd, denied, dirs, path, 1) == k
  {
    hide Refused;
  }

  lemma MadeNone(cwd: Dir, denied: set<Dir>, dirs: set<Dir>, path: seq<char>)
    ensures Made(cwd, path, 0) == {} && NoneRefused(cwd, denied, dirs, path, 0)
  {}

  lemma MadeNext(cwd: Dir, path: seq<char>, before: nat, k: nat)
    requires before < k <= |path| && NameEnds(path, k) && forall j :: before < j < k ==> !NameEnds(path, j)
    ensures Made(cwd, path, k - 1) == Made(cwd, path, before)
    ensures Made(cwd, path, k) == Made(cwd, path, before) + {Resolve(cwd, path[..k])}
  {
    hide Resolve;
  }

  /** With nothing refused so far, the next name is refused if it is denied and missing still. */
  lemma RefusedNext(cwd: Dir, denied: set<Dir>, dirs: set<Dir>, path: seq<char>, before: nat, k: nat)
    requires before < k <= |path| && NameEnds(path, k) && forall j :: before < j < k ==> !NameEnds(path, j)
    requires NoneRefused(cwd, denied, dirs, path, before)
    ensures NoneRefused(cwd, denied, dirs, path, k - 1)
    ensures Refused(cwd, denied, dirs, path, k) <==> Resolve(cwd, path[..k]) in denied - dirs - Made(cwd, path, before)
    ensures NoneRefused(cwd, denied, dirs, path, k) <==> !Refused(cwd, denied, dirs, path, k)
  {
    hide Resolve, NameEnds;
    forall j | 1 <= j <= before && NameEnds(path, j) ensures Resolve(cwd, path[..j]) !in denied - dirs {
      assert !Refused(cwd, denied, dirs, path, j);
    }
  }

  /** The last '/' before n, -1 when there is none. */
  function LastSlash(s: seq<char>, n: nat): (i: int)
    requires n <= |s|
    ensures -1 <= i < n && (i >= 0 ==> s[i] == '/') && forall k :: i < k < n ==> s[k] != '/'
  {
    if n == 0 then -1 else if s[n - 1] == '/' then n - 1 else LastSlash(s, n - 1)
  }

  /** Where the path before a '/' at j leads; -1 stands for no '/' yet. */
  function Base(cwd: Dir, path: seq<char>, j: int): Dir
    requires -1 <= j < |path|
  {
    if j < 0 then cwd else if j == 0 then [] else Resolve(cwd, path[..j])
  }

  /** Resolving goes on after a '/' with the names there. */
  lemma ResolveFrom(cwd: Dir, path: seq<char>, j: int)
    requires -1 <= j < |path| && path != [] && (if j < 0 then path[0] != '/' else path[j] == '/')
    ensures Resolve(cwd, path) == Base(cwd, path, j) + Tokens(path[j + 1..], '/')
  {
    hide Tokens;
    NoTokens('/');
    if j >= 0 {
      assert path == path[..j] + ['/'] + path[j + 1..];
      TokensAppend(path[..j], '/', path[j + 1..]);
      if j == 0 { assert path[..j] == []; } else { assert path[..j][0] == path[0]; }
    } else {
      assert path[0..] == path;
    }
  }

  /** A path has at most one name after its last '/'. */
  lemma ResolveLast(cwd: Dir, p: seq<char>, j: int)
    requires p != [] && j == LastSlash(p, |p|)
    ensures Resolve(cwd, p) == Base(cwd, p, j) + (if p[j + 1..] == [] then [] else [p[j + 1..]])
  {
    hide Tokens, Resolve, Base;
    TokensOfWord(p[j + 1..], '/');
    ResolveFrom(cwd, p, j);
  }

  /** When a prefix is looked at, the directory it is to be created in is there. */
  lemma ParentMade(cwd: Dir, dirs: set<Dir>, path: seq<char>, k: nat)
    requires 1 <= k <= |path| && IsTree(dirs) && cwd in dirs && Made(cwd, path, k - 1) <= dirs
    ensures var d := Resolve(cwd, path[..k]); d in dirs || (d != [] && Parent(d) in dirs)
  {
    hide Resolve, Base, LastSlash, Made, IsTree;
    var p := path[..k];
    var j := LastSlash(p, k);
    ResolveLast(cwd, p, j);
    assert j >= 0 ==> path[j] == p[j];
    BaseMade(cwd, dirs, path, k, j);
    var base, d := Base(cwd, p, j), Resolve(cwd, p);
    assert d == base || d[..|d| - 1] == base;
  }

  lemma BaseMade(cwd: Dir, dirs: set<Dir>, path: seq<char>, k: nat, j: int)
    requires 1 <= k <= |path| && IsTree(dirs) && cwd in dirs && Made(cwd, path, k - 1) <= dirs
    requires -1 <= j < k && (j >= 0 ==> path[j] == '/')
    ensures Base(cwd, path[..k], j) in dirs
  {
    hide Resolve;
    if j >= 1 {
      assert path[..k][..j] == path[..j];
      assert NameEnds(path, j);
      assert Resolve(cwd, path[..j]) in Made(cwd, path, k - 1);
    }
  }

  // ---------------------------------------------------------------- Theorems

  /** The path is created if and only if no directory on it is both missing and refused. */
  lemma CreationSucceedsIff(cwd: Dir, denied: set<Dir>, dirs: set<Dir>, folder: Option<seq<char>>)
    requires Creatable(folder)
    ensures Creation(cwd, denied, dirs, folder).0
            <==> forall d :: d in Made(cwd, folder.value, |folder.value|) ==> d in dirs || d !in denied
  {
    hide Resolve;
    var path := folder.value;
    var f := FirstRefused(cwd, denied, dirs, path, 1);
    if f > |path| {
      forall d | d in Made(cwd, path, |path|) ensures d in dirs || d !in denied {
        var k :| 1 <= k <= |path| && NameEnds(path, k) && d == Resolve(cwd, path[..k]);
        assert !Refused(cwd, denied, dirs, path, k);
      }
    } else {
      assert Resolve(cwd, path[..f]) in Made(cwd, path, |path|);
    }
  }

  /** Creating again changes nothing and gives the same answer. */
  lemma CreationTwice(cwd: Dir, denied: set<Dir>, dirs: set<Dir>, folder: Option<seq<char>>)
    ensures var (ok, after) := Creation(cwd, denied, dirs, folder);
            Creation(cwd, denied, after, folder) == (ok, after)
  {
    hide Resolve;
    if Creatable(folder) {
      var path := folder.value;
      var f := FirstRefused(cwd, denied, dirs, path, 1);
      var after := dirs + Made(cwd, path, f - 1);
      forall k | 1 <= k < f ensures !Refused(cwd, denied, after, path, k) {
        assert !Refused(cwd, denied, dirs, path, k);
      }
      if f <= |path| {
        forall k | 1 <= k < f && NameEnds(path, k) ensures Resolve(cwd, path[..k]) != Resolve(cwd, path[..f]) {
          assert !Refused(cwd, denied, dirs, path, k);
        }
      }
      FirstRefusedIs(cwd, denied, after, path, f);
    }
  }

  /** After a success every directory on the way to the path is there. */
  lemma AncestorsPresent(cwd: Dir, denied: set<Dir>, dirs: set<Dir>, folder: Option<seq<char>>, i: nat)
    requires Creation(cwd, denied, dirs, folder).0 && IsTree(Creation(cwd, denied, dirs, folder).1)
    requires i <= |Resolve(cwd, folder.value)|
    ensures Resolve(cwd, folder.value)[..i] in Creation(cwd, denied, dirs, folder).1
  {
    hide Resolve, IsTree;
    var path := folder.value;
    assert path[..|path|] == path;
    assert Resolve(cwd, path[..|path|]) in Made(cwd, path, |path|);
    TreeHoldsPrefix(Creation(cwd, denied, dirs, folder).1, Resolve(cwd, path), i);
  }

  lemma {:induction false} TreeHoldsPrefix(dirs: set<Dir>, d: Dir, i: nat)
    requires IsTree(dirs) && d in dirs && i <= |d|
    ensures d[..i] in dirs
  {
    if i == |d| {
      assert d[..i] == d;
    } else {
      TreeHoldsPrefix(dirs, Parent(d), i);
      assert Parent(d)[..i] == d[..i];
    }
  }

  /**
   After a success on a path that no backslash cuts, the directories are those there were and exactly the
   ones on the way to the path.
   */
  lemma CreatesExactly(cwd: Dir, denied: set<Dir>, dirs: set<Dir>, folder: Option<seq<char>>, d: Dir)
    requires Creation(cwd, denied, dirs, folder).0 && IsTree(Creation(cwd, denied, dirs, folder).1)
    requires forall p :: 1 <= p < |folder.value| ==> !CutsName(folder.value, p)
    ensures d in Creation(cwd, denied, dirs, folder).1 <==> d in dirs || d <= Resolve(cwd, folder.value)
  {
    hide Resolve, IsTree, FirstRefused, CutsName, Made;
    OnlyAncestorsIff(cwd, denied, dirs, folder);
    assert CreatesOnlyAncestors(cwd, denied, dirs, folder);
    assert d in Creation(cwd, denied, dirs, folder).1 - dirs ==> d <= Resolve(cwd, folder.value);
    var r, after := Resolve(cwd, folder.value), Creation(cwd, denied, dirs, folder).1;
    if d <= r {
      AncestorsPresent(cwd, denied, dirs, folder, |d|);
      assert r[..|d|] == d;
    }
  }

  /** What an ordinary path leads to: its names, from the root. */
  lemma ResolveNames(cwd: Dir, names: seq<seq<char>>)
    requires forall i :: 0 <= i < |names| ==> names[i] != [] && '/' !in names[i]
    ensures Resolve(cwd, "/" + Joined(names, "/")) == names
    ensures names != [] ==> Resolve(cwd, Joined(names, "/")) == cwd + names
  {
    hide Tokens, Joined;
    var s := Joined(names, "/");
    TokensOfJoined(names, '/');
    assert "/" + s == [] + ['/'] + s;
    TokensAppend([], '/', s);
    NoTokens('/');
    if names != [] {
      JoinedStep(names, "/");
      assert s[0] == names[0][0] && names[0][0] in names[0];
    }
  }

  /** A backslash that cuts a name in two: the code takes it for a separator, the system does not. */
  predicate CutsName(path: seq<char>, p: nat) { 1 <= p < |path| && path[p] == '\\' && path[p - 1] != '/' }

  /** A prefix the code looks at names a directory on the way to the path unless it ends in the middle of a name. */
  lemma AncestorIff(cwd: Dir, path: seq<char>, k: nat)
    requires 1 <= k <= |path| && NameEnds(path, k)
    ensures Resolve(cwd, path[..k]) <= Resolve(cwd, path) <==> !CutsName(path, k)
  {
    hide Resolve;
    if CutsName(path, k) {
      CutName(cwd, path, k);
    } else if k == |path| {
      assert path[..k] == path;
    } else if path[k] == '/' {
      ResolvePrefix(cwd, path, k);
    } else {
      var p := path[..k];
      ResolveLast(cwd, p, k - 1);
      assert p[k - 1] == '/' && LastSlash(p, k) == k - 1;
      assert p[..k - 1] == path[..k - 1];
      if k > 1 { ResolvePrefix(cwd, path, k - 1); }
    }
  }

  /** Every directory that is created lies on the way to the path. */
  predicate CreatesOnlyAncestors(cwd: Dir, denied: set<Dir>, dirs: set<Dir>, folder: Option<seq<char>>)
    requires folder.Some?
  {
    forall d :: d in Creation(cwd, denied, dirs, folder).1 - dirs ==> d <= Resolve(cwd, folder.value)
  }

  /**
   Only directories on the way to the path are created if and only if every prefix that a backslash cuts
   out of the middle of a name, up to where creation is refused, names a directory that is there already.
   */
  lemma OnlyAncestorsIff(cwd: Dir, denied: set<Dir>, dirs: set<Dir>, folder: Option<seq<char>>)
    requires Creatable(folder)
    ensures CreatesOnlyAncestors(cwd, denied, dirs, folder)
            <==> var path := folder.value;
                 forall p :: 1 <= p < |path| && p < FirstRefused(cwd, denied, dirs, path, 1) && CutsName(path, p) ==>
                   Resolve(cwd, path[..p]) in dirs
  {
    hide Resolve, FirstRefused, CutsName;
    var path := folder.value;
    var f := FirstRefused(cwd, denied, dirs, path, 1);
    var created := Creation(cwd, denied, dirs, folder).1 - dirs;
    if forall p :: 1 <= p < |path| && p < f && CutsName(path, p) ==> Resolve(cwd, path[..p]) in dirs {
      forall d | d in created ensures d <= Resolve(cwd, path) {
        var k :| 1 <= k <= f - 1 && NameEnds(path, k) && d == Resolve(cwd, path[..k]);
        AncestorIff(cwd, path, k);
        CutsInside(path, k);
      }
    }
    if CreatesOnlyAncestors(cwd, denied, dirs, folder) {
      forall p | 1 <= p < |path| && p < f && CutsName(path, p) ensures Resolve(cwd, path[..p]) in dirs {
        CutsInside(path, p);
        AncestorIff(cwd, path, p);
        var d := Resolve(cwd, path[..p]);
        assert d in Made(cwd, path, f - 1);
        assert d !in dirs ==> d in created;
      }
    }
  }

  lemma CutsInside(path: seq<char>, p: nat)
    ensures CutsName(path, p) ==> 1 <= p < |path| && NameEnds(path, p)
  {}

  /** It does happen: with only the root there, creating "/a\b" leaves a directory "a" beside the one asked for. */
  lemma StrayDirectory()
    ensures var (ok, after) := Creation([], {}, {[]}, Some("/a\\b"));
            ok && ["a"] in after && ["a\\b"] in after && !(["a"] <= Resolve([], "/a\\b"))
    ensures !CreatesOnlyAncestors([], {}, {[]}, Some("/a\\b"))
  {
    var path := "/a\\b";
    hide Tokens;
    assert path[..2] == "/a" && path[..4] == path;
    ResolveName("a");
    ResolveName("a\\b");
    assert "/" + "a" == "/a" && "/" + "a\\b" == path;
    forall k | 1 <= k <= 4 ensures !Refused([], {}, {[]}, path, k) {}
    FirstRefusedIs([], {}, {[]}, path, 5);
    assert NameEnds(path, 2) && NameEnds(path, 4);
    assert |["a"][0]| != |["a\\b"][0]|;
    assert Resolve([], path[..2]) in Made([], path, 4) && Resolve([], path[..4]) in Made([], path, 4);
  }

  lemma ResolveName(name: seq<char>)
    requires '/' !in name && name != []
    ensures Resolve([], "/" + name) == [name]
  {
    hide Tokens;
    assert "/" + name == [] + ['/'] + name;
    TokensAppend([], '/', name);
    TokensOfWord(name, '/');
    NoTokens('/');
  }

  /** A prefix that ends before a '/' leads to an ancestor. */
  lemma ResolvePrefix(cwd: Dir, path: seq<char>, k: nat)
    requires 1 <= k < |path| && path[k] == '/'
    ensures Resolve(cwd, path[..k]) <= Resolve(cwd, path)
  {
    hide Tokens;
    assert path == path[..k] + ['/'] + path[k + 1..];
    TokensAppend(path[..k], '/', path[k + 1..]);
    assert path[..k][0] == path[0];
  }

  /** A backslash after a name's character: the prefix before it is no ancestor. */
  lemma CutName(cwd: Dir, path: seq<char>, p: nat)
    requires CutsName(path, p)
    ensures !(Resolve(cwd, path[..p]) <= Resolve(cwd, path))
  {
    hide Resolve, Base, Tokens, LastSlash;
    var s := path[..p];
    var j := LastSlash(s, p);
    CutNameAt(path, p, j);
    ResolveLast(cwd, s, j);
    ResolveFrom(cwd, path, j);
    BaseOfPrefix(cwd, path, p, j);
    FirstNameLonger(path[j + 1..], p - j - 1);
    var n := |Base(cwd, path, j)|;
    assert Resolve(cwd, s)[n] == s[j + 1..];
    assert Resolve(cwd, path)[n] == Tokens(path[j + 1..], '/')[0];
  }

  lemma BaseOfPrefix(cwd: Dir, path: seq<char>, p: nat, j: int)
    requires -1 <= j < p < |path|
    ensures Base(cwd, path[..p], j) == Base(cwd, path, j)
  {
    hide Resolve;
    if j > 0 { assert path[..p][..j] == path[..j]; }
  }

  lemma CutNameAt(path: seq<char>, p: nat, j: int)
    requires 1 <= p < |path| && path[p - 1] != '/' && j == LastSlash(path[..p], p)
    ensures j < p - 1 && (if j < 0 then path[0] != '/' else path[j] == '/')
    ensures path[j + 1..][..p - j - 1] == path[..p][j + 1..] && '/' !in path[j + 1..][..p - j - 1]
    ensures path[j + 1..][p - j - 1] == path[p]
  {
    hide LastSlash;
    assert forall k :: 0 <= k < p ==> path[..p][k] == path[k];
  }

  lemma FirstNameLonger(s: seq<char>, n: nat)
    requires 0 < n < |s| && '/' !in s[..n] && s[n] != '/'
    ensures Tokens(s, '/') != [] && |Tokens(s, '/')[0]| > n
  {
    hide Tokens, IndexOf;
    assert forall j :: 0 <= j < n ==> s[j] == s[..n][j];
    IndexOfFrom(s, '/', n);
    TokensOfRun(s, '/', IndexOf(s, '/'));
  }
}
