/** The pure part of workspace path confinement: parsing a path string into segments,
    joining it under the workspace root, resolving `.` and `..` lexically, rendering the
    result as a string, and the string-prefix containment test applied to that string. */
module Paths {
  import opened Text

  /** An absolute path as its segments: `/a/b` is ["a", "b"] and `/` is []. */
  type Path = seq<string>

  /** A segment a resolved path can hold. */
  predicate IsSegment(s: string) {
    s != "" && s != "." && s != ".." && '/' !in s
  }

  /** A resolved absolute path: no empty, `.` or `..` segment. */
  predicate Canonical(p: Path) {
    forall i :: 0 <= i < |p| ==> IsSegment(p[i])
  }

  /** Segments as parsing produces them: nonempty and free of separators. */
  predicate Parsed(segs: seq<string>) {
    forall i :: 0 <= i < |segs| ==> segs[i] != "" && '/' !in segs[i]
  }

  /** `Path(s).is_absolute()` */
  predicate IsAbsolute(s: string) {
    |s| > 0 && s[0] == '/'
  }

  function Flush(cur: string): seq<string> {
    if cur == "" then [] else [cur]
  }

  /** Splits `s` at each `/`, `cur` being the segment read so far; empty segments vanish. */
  function SplitFrom(s: string, cur: string): (segs: seq<string>)
    requires '/' !in cur
    ensures Parsed(segs)
    decreases |s|
  {
    if s == [] then Flush(cur)
    else if s[0] == '/' then Flush(cur) + SplitFrom(s[1..], "")
    else SplitFrom(s[1..], cur + [s[0]])
  }

  /** The `/`-separated parts of `s`, empty ones dropped. The `.` parts that `Path(s)` also
      drops are kept here; `Normalize` skips them (`NormalizeSkipsDot`). */
  function Split(s: string): (segs: seq<string>)
    ensures Parsed(segs)
  {
    SplitFrom(s, "")
  }

  /** `WORKSPACE_ROOT / path` only for a relative path; an absolute one is taken as it is. */
  function Candidate(root: Path, s: string): (segs: seq<string>)
    requires Canonical(root)
    ensures Parsed(segs)
  {
    if IsAbsolute(s) then Split(s) else root + Split(s)
  }

  /** One segment of lexical resolution: `.` is skipped, `..` climbs (not beyond `/`). */
  function Step(acc: Path, seg: string): Path {
    if seg == "" || seg == "." then acc
    else if seg == ".." then (if acc == [] then [] else acc[..|acc| - 1])
    else acc + [seg]
  }

  /** Resolves `segs` one by one from the directory `acc`. */
  function NormalizeFrom(acc: Path, segs: seq<string>): Path
    decreases |segs|
  {
    if segs == [] then acc else NormalizeFrom(Step(acc, segs[0]), segs[1..])
  }

  /** `Path.resolve()` with symbolic links abstracted away. */
  function Normalize(segs: seq<string>): Path {
    NormalizeFrom([], segs)
  }

  /** The path the resolver computes from the caller's string: `candidate.resolve()`. */
  function Resolve(root: Path, s: string): (p: Path)
    requires Canonical(root)
    ensures Canonical(p)
  {
    NormalizeCanonical([], Candidate(root, s));
    Normalize(Candidate(root, s))
  }

  /** `/a/b` as "/a" + "/b". */
  function RenderSegs(p: Path): string {
    if p == [] then "" else "/" + p[0] + RenderSegs(p[1..])
  }

  /** `str(path)` */
  function Render(p: Path): string {
    if p == [] then "/" else RenderSegs(p)
  }

  /** The containment test of the resolver: `str(p).startswith(str(root))`. */
  predicate Accepts(root: Path, p: Path) {
    StartsWith(Render(p), Render(root))
  }

  /** `q` is `p` or lies below it. */
  predicate IsDescendant(p: Path, q: Path) {
    |p| <= |q| && q[..|p|] == p
  }

  /** What the string-prefix test amounts to on segments when the root is not `/`: all but
      the last segment of the root match, and the next segment merely begins with the
      root's last one. */
  predicate PrefixMatch(root: Path, p: Path)
    requires root != []
  {
    var n := |root|;
    n <= |p| && p[..n - 1] == root[..n - 1] && StartsWith(p[n - 1], root[n - 1])
  }

  // ---------------------------------------------------------------------------------------
  // Resolution

  lemma {:induction false} NormalizeCanonical(acc: Path, segs: seq<string>)
    requires Canonical(acc) && Parsed(segs)
    ensures Canonical(NormalizeFrom(acc, segs))
    decreases |segs|
  {
    if segs != [] {
      var next := Step(acc, segs[0]);
      assert Canonical(next);
      NormalizeCanonical(next, segs[1..]);
    }
  }

  /** Resolving a concatenation resolves the second part from where the first ends. */
  lemma {:induction false} NormalizeAppend(acc: Path, a: seq<string>, b: seq<string>)
    ensures NormalizeFrom(acc, a + b) == NormalizeFrom(NormalizeFrom(acc, a), b)
    decreases |a|
  {
    if a == [] {
      assert a + b == b;
    } else {
      assert (a + b)[0] == a[0];
      assert (a + b)[1..] == a[1..] + b;
      NormalizeAppend(Step(acc, a[0]), a[1..], b);
    }
  }

  /** A `.` segment anywhere changes nothing, so keeping the `.` parts that `Path(s)` drops
      resolves to the same path. */
  lemma NormalizeSkipsDot(acc: Path, x: seq<string>, y: seq<string>)
    ensures NormalizeFrom(acc, x + ["."] + y) == NormalizeFrom(acc, x + y)
  {
    NormalizeAppend(acc, x + ["."], y);
    NormalizeAppend(acc, x, ["."]);
    NormalizeAppend(acc, x, y);
  }

  /** Segments that are already resolved are appended unchanged. */
  lemma {:induction false} NormalizeCanonicalSegments(acc: Path, p: Path)
    requires Canonical(p)
    ensures NormalizeFrom(acc, p) == acc + p
    decreases |p|
  {
    if p != [] {
      NormalizeCanonicalSegments(acc + [p[0]], p[1..]);
      assert acc + [p[0]] + p[1..] == acc + p;
    }
  }

  /** A relative input is resolved starting from the root itself. */
  lemma RelativeResolvesFromRoot(root: Path, s: string)
    requires Canonical(root) && !IsAbsolute(s)
    ensures Resolve(root, s) == NormalizeFrom(root, Split(s))
  {
    assert Candidate(root, s) == root + Split(s);
    assert Resolve(root, s) == NormalizeFrom([], root + Split(s));
    NormalizeAppend([], root, Split(s));
    NormalizeCanonicalSegments([], root);
    assert NormalizeFrom([], root) == root;
  }

  /** Without `..` resolution never climbs: the start directory stays a prefix. */
  lemma {:induction false} NormalizeWithoutParentKeepsStart(acc: Path, segs: seq<string>)
    requires ".." !in segs
    ensures IsDescendant(acc, NormalizeFrom(acc, segs))
    decreases |segs|
  {
    if segs != [] {
      assert segs[0] != "..";
      NormalizeWithoutParentKeepsStart(Step(acc, segs[0]), segs[1..]);
    }
  }

  /** A relative path with no `..` segment always resolves inside the root, so it is accepted. */
  lemma RelativeWithoutParentStaysInside(root: Path, s: string)
    requires Canonical(root) && !IsAbsolute(s) && ".." !in Split(s)
    ensures IsDescendant(root, Resolve(root, s))
    ensures Accepts(root, Resolve(root, s))
  {
    RelativeResolvesFromRoot(root, s);
    NormalizeWithoutParentKeepsStart(root, Split(s));
    var p := Resolve(root, s);
    assert p == root + p[|root|..];
    DescendantsAccepted(root, p[|root|..]);
  }

  // ---------------------------------------------------------------------------------------
  // Rendering and parsing

  lemma {:induction false} RenderSegsAppend(a: Path, b: Path)
    ensures RenderSegs(a + b) == RenderSegs(a) + RenderSegs(b)
    decreases |a|
  {
    if a == [] {
      assert a + b == b;
    } else {
      assert (a + b)[0] == a[0];
      assert (a + b)[1..] == a[1..] + b;
      RenderSegsAppend(a[1..], b);
    }
  }

  lemma {:induction false} SplitSegment(x: string, rest: string, cur: string)
    requires '/' !in x && '/' !in cur
    ensures SplitFrom(x + rest, cur) == SplitFrom(rest, cur + x)
    decreases |x|
  {
    if x == [] {
      assert x + rest == rest;
      assert cur + x == cur;
    } else {
      assert (x + rest)[0] == x[0];
      assert x[0] in x;
      assert (x + rest)[1..] == x[1..] + rest;
      assert cur + [x[0]] + x[1..] == cur + x;
      SplitSegment(x[1..], rest, cur + [x[0]]);
    }
  }

  lemma {:induction false} SplitRenderSegs(p: Path, cur: string)
    requires Parsed(p) && '/' !in cur
    ensures SplitFrom(RenderSegs(p), cur) == Flush(cur) + p
    decreases |p|
  {
    if p != [] {
      var tail := RenderSegs(p[1..]);
      assert RenderSegs(p) == "/" + (p[0] + tail);
      assert SplitFrom(RenderSegs(p), cur) == Flush(cur) + SplitFrom(p[0] + tail, "");
      SplitSegment(p[0], tail, "");
      assert "" + p[0] == p[0];
      SplitRenderSegs(p[1..], p[0]);
      assert Flush(p[0]) + p[1..] == p;
    }
  }

  /** Parsing the string form of a path gives the path back. */
  lemma SplitRender(p: Path)
    requires Parsed(p)
    ensures Split(Render(p)) == p
  {
    if p == [] {
      assert Render(p) == "/";
      assert SplitFrom("/", "") == Flush("") + SplitFrom("", "");
    } else {
      SplitRenderSegs(p, "");
    }
  }

  lemma RenderIsAbsolute(p: Path)
    ensures IsAbsolute(Render(p))
  {
  }

  /** Resolution is idempotent: the string of a resolved path resolves to that same path. */
  lemma ResolveIdempotent(root: Path, s: string)
    requires Canonical(root)
    ensures Resolve(root, Render(Resolve(root, s))) == Resolve(root, s)
  {
    var p := Resolve(root, s);
    RenderIsAbsolute(p);
    SplitRender(p);
    NormalizeCanonicalSegments([], p);
  }

  // ---------------------------------------------------------------------------------------
  // The string-prefix containment test

  /** Every path starting at a root is accepted for that root. */
  lemma DescendantsAccepted(root: Path, q: Path)
    ensures Accepts(root, root + q)
  {
    if root != [] {
      RenderSegsAppend(root, q);
    }
  }

  /** One segment of the prefix test: a segment followed by `/...` (or nothing) starts with
      another segment followed by `/...` (or nothing) exactly when the segments line up. */
  lemma SegmentPrefix(p0: string, a: string, r0: string, b: string)
    requires '/' !in p0 && '/' !in r0
    requires a == [] || a[0] == '/'
    requires b == [] || b[0] == '/'
    ensures b == [] ==> (StartsWith(p0 + a, r0 + b) <==> StartsWith(p0, r0))
    ensures b != [] ==> (StartsWith(p0 + a, r0 + b) <==> p0 == r0 && StartsWith(a, b))
  {
    if |p0| < |r0| {
      // the root segment goes on where the path segment has already ended
      assert r0[|p0|] in r0;
      assert (r0 + b)[|p0|] == r0[|p0|] != '/';
      assert a != [] ==> (p0 + a)[|p0|] == a[0] == '/';
      assert !StartsWith(p0 + a, r0 + b);
    } else if |p0| > |r0| {
      assert p0[|r0|] in p0;
      if b != [] {
        // the path segment goes on where the root segment has already ended
        assert (p0 + a)[|r0|] == p0[|r0|] != '/';
        assert (r0 + b)[|r0|] == b[0] == '/';
        assert !StartsWith(p0 + a, r0 + b);
      } else {
        assert r0 + b == r0;
        assert (p0 + a)[..|r0|] == p0[..|r0|];
      }
    } else {
      assert (p0 + a)[..|r0|] == p0;
      if b == [] {
        assert r0 + b == r0;
      } else if |b| <= |a| {
        assert (p0 + a)[..|r0 + b|] == p0 + a[..|b|];
        if p0 + a[..|b|] == r0 + b {
          assert p0 == (p0 + a[..|b|])[..|r0|] == (r0 + b)[..|r0|] == r0;
          assert a[..|b|] == (p0 + a[..|b|])[|r0|..] == (r0 + b)[|r0|..] == b;
        }
      }
    }
  }

  lemma RenderSegsShape(p: Path)
    ensures RenderSegs(p) == [] || RenderSegs(p)[0] == '/'
    ensures p != [] ==> RenderSegs(p) != []
  {
  }

  lemma {:induction false} RenderSegsPrefix(root: Path, p: Path)
    requires root != [] && Canonical(root) && Canonical(p)
    ensures StartsWith(RenderSegs(p), RenderSegs(root)) <==> PrefixMatch(root, p)
    decreases |root|
  {
    var n := |root|;
    var rt := RenderSegs(root[1..]);
    RenderSegsShape(root[1..]);
    assert RenderSegs(root) == "/" + (root[0] + rt);
    if p == [] {
      assert |RenderSegs(root)| > 0;
    } else {
      var pt := RenderSegs(p[1..]);
      RenderSegsShape(p[1..]);
      assert RenderSegs(p) == "/" + (p[0] + pt);
      assert IsSegment(root[0]) && IsSegment(p[0]);
      SlashPrefix(p[0] + pt, root[0] + rt);
      SegmentPrefix(p[0], pt, root[0], rt);
      if n == 1 {
        assert rt == [];
        assert p[..0] == root[..0];
      } else {
        assert rt != [];
        RenderSegsPrefix(root[1..], p[1..]);
        PrefixMatchCons(root, p);
      }
    }
  }

  /** For a root of two or more segments the match proceeds segment by segment. */
  lemma PrefixMatchCons(root: Path, p: Path)
    requires |root| >= 2 && p != []
    ensures PrefixMatch(root, p) <==> p[0] == root[0] && PrefixMatch(root[1..], p[1..])
  {
    var n := |root|;
    if PrefixMatch(root, p) {
      assert p[0] == p[..n - 1][0] == root[..n - 1][0] == root[0];
      assert p[1..][..n - 2] == p[..n - 1][1..];
      assert root[1..][..n - 2] == root[..n - 1][1..];
    }
    if p[0] == root[0] && PrefixMatch(root[1..], p[1..]) {
      assert p[..n - 1] == [p[0]] + p[1..][..n - 2];
      assert root[..n - 1] == [root[0]] + root[1..][..n - 2];
    }
  }

  lemma SlashPrefix(x: string, y: string)
    ensures StartsWith("/" + x, "/" + y) <==> StartsWith(x, y)
  {
    if StartsWith(x, y) {
      assert ("/" + x)[..|"/" + y|] == "/" + x[..|y|];
    }
    if StartsWith("/" + x, "/" + y) {
      assert x[..|y|] == ("/" + x)[..|"/" + y|][1..];
    }
  }

  /** The containment test, exactly characterised: for a root other than `/` it accepts a
      resolved path precisely when the path and the root agree on all but the root's last
      segment and the path's next segment begins with that last segment. */
  lemma AcceptsIff(root: Path, p: Path)
    requires root != [] && Canonical(root) && Canonical(p)
    ensures Accepts(root, p) <==> PrefixMatch(root, p)
  {
    RenderSegsPrefix(root, p);
    if p == [] {
      assert RenderSegs(root) == "/" + root[0] + RenderSegs(root[1..]);
      assert |Render(root)| > 1;
    }
  }

  /** With `/` as the root every path is accepted. */
  lemma SlashRootAcceptsAll(p: Path)
    ensures Accepts([], p)
  {
  }

  /** The test is not a descendant test: a sibling of the root whose name extends the root's
      last segment is accepted although it is not below the root. */
  lemma SiblingAccepted(root: Path, suffix: string, rest: Path)
    requires root != [] && Canonical(root) && Canonical(rest)
    requires suffix != "" && '/' !in suffix
    ensures var sibling := root[..|root| - 1] + [root[|root| - 1] + suffix] + rest;
            Canonical(sibling) && Accepts(root, sibling) && !IsDescendant(root, sibling)
  {
    var n := |root|;
    var last := root[n - 1] + suffix;
    var sibling := root[..n - 1] + [last] + rest;
    assert sibling[n - 1] == last;
    assert '/' !in last by {
      forall i | 0 <= i < |last| ensures last[i] != '/' {
        if i < |root[n - 1]| {
          assert last[i] == root[n - 1][i];
          assert root[n - 1][i] in root[n - 1];
        } else {
          assert last[i] == suffix[i - |root[n - 1]|];
          assert suffix[i - |root[n - 1]|] in suffix;
        }
      }
    }
    assert IsSegment(last) by {
      assert |last| >= 2;
      assert last[..|root[n - 1]|] == root[n - 1];
      assert |last| == 2 ==> last[..1] == root[n - 1];
      assert ".."[..1] == ".";
    }
    assert Canonical(sibling) by {
      forall i | 0 <= i < |sibling| ensures IsSegment(sibling[i]) {
        if i < n - 1 {
          assert sibling[i] == root[i];
        } else if i > n - 1 {
          assert sibling[i] == rest[i - n];
        }
      }
    }
    assert sibling[..n - 1] == root[..n - 1];
    assert last[..|root[n - 1]|] == root[n - 1];
    AcceptsIff(root, sibling);
    assert sibling[n - 1] != root[n - 1];
  }

  /** Splitting at a separator: the segment read so far is complete. */
  lemma SplitAtSlash(rest: string, cur: string)
    requires '/' !in cur
    ensures SplitFrom("/" + rest, cur) == Flush(cur) + SplitFrom(rest, "")
  {
    assert ("/" + rest)[1..] == rest;
  }

  /** Parsing segments written out with `/` between them gives the segments back. */
  lemma {:induction false} SplitJoin(segs: seq<string>)
    requires Parsed(segs)
    ensures Split(Join(segs, "/")) == segs
    decreases |segs|
  {
    if |segs| == 1 {
      SplitSegment(segs[0], "", "");
      assert segs[0] + "" == segs[0];
    } else if |segs| > 1 {
      var tail := Join(segs[1..], "/");
      assert Join(segs, "/") == segs[0] + ("/" + tail);
      SplitSegment(segs[0], "/" + tail, "");
      assert "" + segs[0] == segs[0];
      SplitAtSlash(tail, segs[0]);
      SplitJoin(segs[1..]);
    }
  }

  /** The sibling case arises from an ordinary relative input: with the root `/workspace`,
      `../workspace2/notes.txt` resolves to `/workspace2/notes.txt`, which is accepted
      although it lies outside the root. */
  lemma SiblingExample()
    ensures var input := Join(["..", "workspace2", "notes.txt"], "/");
            Resolve(["workspace"], input) == ["workspace2", "notes.txt"] &&
            Accepts(["workspace"], ["workspace2", "notes.txt"]) &&
            !IsDescendant(["workspace"], ["workspace2", "notes.txt"])
  {
    var segs := ["..", "workspace2", "notes.txt"];
    var input := Join(segs, "/");
    SplitJoin(segs);
    assert input[0] == '.';
    RelativeResolvesFromRoot(["workspace"], input);
    assert NormalizeFrom(["workspace"], segs) == NormalizeFrom([], segs[1..]);
    assert NormalizeFrom([], segs[1..]) == NormalizeFrom(["workspace2"], ["notes.txt"]);
    SiblingAccepted(["workspace"], "2", ["notes.txt"]);
    assert "workspace" + "2" == "workspace2";
    assert ["workspace"][..0] + ["workspace" + "2"] + ["notes.txt"] == ["workspace2", "notes.txt"];
  }

  /** Climbing out of the root is blocked: `../../etc/passwd` under `/workspace` resolves to
      `/etc/passwd`, which the test rejects. */
  lemma EscapeExample()
    ensures var input := Join(["..", "..", "etc", "passwd"], "/");
            Resolve(["workspace"], input) == ["etc", "passwd"] &&
            !Accepts(["workspace"], ["etc", "passwd"])
  {
    var segs := ["..", "..", "etc", "passwd"];
    var input := Join(segs, "/");
    SplitJoin(segs);
    assert input[0] == '.';
    RelativeResolvesFromRoot(["workspace"], input);
    assert NormalizeFrom(["workspace"], segs) == NormalizeFrom([], segs[1..]);
    assert NormalizeFrom([], segs[1..]) == NormalizeFrom([], segs[2..]);
    assert NormalizeFrom([], segs[2..]) == NormalizeFrom(["etc"], ["passwd"]);
    AcceptsIff(["workspace"], ["etc", "passwd"]);
    assert !StartsWith("etc", "workspace");
  }
}
