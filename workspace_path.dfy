/** `resolve_workspace_path`: confine a caller's path to the workspace root, refuse existing
    directories, and on request create the parent directories of the target. The filesystem
    is abstracted to the set of directories that exist. */
module WorkspacePath {
  import opened Text
  import opened Paths
  import opened Results

  /** The two `ValueError`s the resolver raises, each carrying the caller's string. */
  datatype PathError = Escape(input: string) | IsDirectory(input: string)

  const EscapeLead := "Path escape blocked for '"
  const DirectoryTail := "' is a directory. write.file targets files only."

  /** The message of the raised `ValueError`: the escape message names the input and the
      root, the directory message names the input. */
  function Message(root: Path, e: PathError): (m: string)
    ensures e.Escape? ==> StartsWith(m, EscapeLead) && OccursAt(m, e.input, |EscapeLead|)
    ensures e.IsDirectory? ==> StartsWith(m, "'") && OccursAt(m, e.input, 1)
    ensures |m| > 0 && (m[0] == 'P' <==> e.Escape?)
  {
    match e
    case Escape(input) =>
      var rest := "'. Stay inside " + Render(root) + ".";
      var m := EscapeLead + (input + rest);
      assert m[..|EscapeLead|] == EscapeLead && m[|EscapeLead|..|EscapeLead| + |input|] == input;
      assert m[0] == EscapeLead[0];
      m
    case IsDirectory(input) =>
      var m := "'" + (input + DirectoryTail);
      assert m[..1] == "'" && m[1..1 + |input|] == input;
      m
  }

  /** The message tells the error apart: equal messages come from the same kind of error on
      the same input. */
  lemma MessageInjective(root: Path, e1: PathError, e2: PathError)
    requires Message(root, e1) == Message(root, e2)
    ensures e1 == e2
  {
    var m := Message(root, e1);
    var n1 := |e1.input|;
    assert e1.Escape? == e2.Escape?;
    if e1.Escape? {
      assert e1.input == m[|EscapeLead|..|EscapeLead| + n1];
    } else {
      assert e1.input == m[1..1 + n1];
    }
  }

  /** A directory set a real filesystem can have: `/` exists and so does every directory's parent. */
  ghost predicate DirTree(dirs: set<Path>) {
    [] in dirs && forall d, k | d in dirs && 0 <= k <= |d| :: d[..k] in dirs
  }

  /** `resolved.parent`; the parent of `/` is `/`. */
  function Parent(p: Path): (q: Path)
    ensures |q| == if p == [] then 0 else |p| - 1
    ensures IsDescendant(q, p)
  {
    if p == [] then [] else p[..|p| - 1]
  }

  /** A directory and all of its ancestors: what `mkdir(parents=True)` leaves behind. */
  function Ancestors(q: Path): (s: set<Path>)
    ensures forall k :: 0 <= k <= |q| ==> q[..k] in s
    ensures forall d :: d in s ==> IsDescendant(d, q)
  {
    set k | 0 <= k <= |q| :: q[..k]
  }

  /** The outcome of the resolver: the escape test comes first, the directory test second. */
  function Check(root: Path, dirs: set<Path>, input: string): (r: Result<Path, PathError>)
    requires Canonical(root)
    ensures r.Failure? ==> r.error.input == input
    ensures r == Failure(Escape(input)) <==> !Accepts(root, Resolve(root, input))
    ensures r == Failure(IsDirectory(input)) <==>
              Accepts(root, Resolve(root, input)) && Resolve(root, input) in dirs
    ensures r.Success? ==> r.value == Resolve(root, input) && r.value !in dirs
    ensures r.Success? ==> StartsWith(Render(r.value), Render(root))
    ensures r.Success? && root != [] ==> PrefixMatch(root, r.value)
  {
    var p := Resolve(root, input);
    if !Accepts(root, p) then Failure(Escape(input))
    else if p in dirs then Failure(IsDirectory(input))
    else
      assert root != [] ==> PrefixMatch(root, p) by {
        if root != [] { AcceptsIff(root, p); }
      }
      Success(p)
  }

  /** The directories after the call: the parent of an accepted target and its ancestors are
      added when `ensureParent` holds; otherwise, and on every failure, nothing changes. */
  function DirsAfter(root: Path, dirs: set<Path>, input: string, ensureParent: bool): (after: set<Path>)
    requires Canonical(root) && [] in dirs
    ensures dirs <= after
    ensures !ensureParent || Check(root, dirs, input).Failure? ==> after == dirs
    ensures ensureParent && Check(root, dirs, input).Success? ==>
              var p := Check(root, dirs, input).value;
              Parent(p) in after && forall k :: 0 <= k < |p| ==> p[..k] in after
    ensures forall d :: d in after - dirs ==>
              Check(root, dirs, input).Success? && IsDescendant(d, Parent(Check(root, dirs, input).value))
  {
    match Check(root, dirs, input)
    case Success(p) =>
      if ensureParent then
        assert p != [];
        assert forall k :: 0 <= k < |p| ==> p[..k] == Parent(p)[..k];
        dirs + Ancestors(Parent(p))
      else dirs
    case Failure(_) => dirs
  }

  /** Creating a directory with its ancestors keeps the directory set a tree. */
  lemma MkdirKeepsTree(dirs: set<Path>, q: Path)
    requires DirTree(dirs)
    ensures DirTree(dirs + Ancestors(q))
  {
    forall d, k | d in dirs + Ancestors(q) && 0 <= k <= |d|
      ensures d[..k] in dirs + Ancestors(q)
    {
      if d !in dirs {
        assert d == q[..|d|];
        assert d[..k] == q[..k];
      }
    }
  }

  /** `exist_ok=True`: repeating a call with the same input gives the same answer and
      creates nothing more. */
  lemma {:induction false} ResolveTwice(root: Path, dirs: set<Path>, input: string, ensureParent: bool)
    requires Canonical(root) && DirTree(dirs)
    ensures var after := DirsAfter(root, dirs, input, ensureParent);
            Check(root, after, input) == Check(root, dirs, input) &&
            DirsAfter(root, after, input, ensureParent) == after
  {
    var after := DirsAfter(root, dirs, input, ensureParent);
    var p := Resolve(root, input);
    if Check(root, dirs, input).Success? {
      assert p != [] by {
        assert [] in dirs;
      }
      assert p !in after;
      if ensureParent {
        assert after == dirs + Ancestors(Parent(p));
        assert DirsAfter(root, after, input, ensureParent) == after + Ancestors(Parent(p));
      }
    }
  }

  /** The filesystem as the resolver sees it: which directories exist. */
  class FileSystem {
    var dirs: set<Path>

    ghost predicate Valid()
      reads this
    {
      DirTree(dirs)
    }

    constructor (existing: set<Path>)
      requires DirTree(existing)
      ensures Valid() && dirs == existing
    {
      dirs := existing;
    }

    /** `resolve_workspace_path(path, ensure_parent=...)` under the workspace root `root`; a
        raised `ValueError` is returned as its message. */
    method ResolveWorkspacePath(root: Path, path: string, ensureParent: bool := true)
      returns (r: Result<Path, string>)
      requires Valid() && Canonical(root)
      modifies this
      ensures Valid()
      ensures var c := Check(root, old(dirs), path);
              (c.Success? ==> r == Success(c.value)) &&
              (c.Failure? ==> r == Failure(Message(root, c.error)))
      ensures dirs == DirsAfter(root, old(dirs), path, ensureParent)
    {
      var resolved := Resolve(root, path);
      if !StartsWith(Render(resolved), Render(root)) {
        return Failure(Message(root, Escape(path)));
      }
      if resolved in dirs {
        return Failure(Message(root, IsDirectory(path)));
      }
      if ensureParent {
        MkdirKeepsTree(dirs, Parent(resolved));
        dirs := dirs + Ancestors(Parent(resolved));
      }
      return Success(resolved);
    }
  }
}
