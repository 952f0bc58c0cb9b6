/** The shared-context tools of the Stage 3 multi-agent demo: the path check of
    `_resolve_relative_path`, the TODO/FIXME scan of `capture_todos` and `save_plan`, acting on
    a `WorkflowState` that the cooperating agents share. A file is given as its lines, each as
    iterating over the open file yields it; the files that exist are a map from path to lines. */
module Stage3Demo {
  import opened Text
  import opened Paths
  import opened Results

  /** `Path("/workspace").resolve()`, taking `/workspace` to be a real directory. */
  const WorkspaceRoot: Path := ["workspace"]

  /** The context the research and planner agents share. */
  class WorkflowState {
    var researchNotes: seq<string>
    var actionItems: seq<string>

    /** `WorkflowState()`: both lists start empty. */
    constructor ()
      ensures researchNotes == [] && actionItems == []
    {
      researchNotes, actionItems := [], [];
    }
  }

  /** The demo's root is a resolved path whose string is `/workspace`. */
  lemma WorkspaceRootFacts()
    ensures Canonical(WorkspaceRoot)
    ensures Render(WorkspaceRoot) == "/workspace"
  {
    assert IsSegment(WorkspaceRoot[0]);
    assert WorkspaceRoot[1..] == [];
    assert RenderSegs(WorkspaceRoot) == "/" + "workspace" + "";
  }

  /** Under `/workspace` the prefix test amounts to the first segment beginning with `workspace`. */
  lemma WorkspaceAccepts(p: Path)
    requires Canonical(p)
    ensures Accepts(WorkspaceRoot, p) <==> p != [] && StartsWith(p[0], "workspace")
  {
    WorkspaceRootFacts();
    AcceptsIff(WorkspaceRoot, p);
    assert PrefixMatch(WorkspaceRoot, p) <==> 1 <= |p| && StartsWith(p[0], WorkspaceRoot[0]);
  }

  /** `_resolve_relative_path`: the resolved candidate, or the escape message. With the root
      `/workspace`, the prefix test passes exactly when the resolved path's first segment
      begins with `workspace`. */
  function ResolveRelativePath(relativePath: string): (r: Result<Path, string>)
    ensures var p := Resolve(WorkspaceRoot, relativePath);
            r.Success? <==> p != [] && StartsWith(p[0], "workspace")
    ensures r.Success? ==> r.value == Resolve(WorkspaceRoot, relativePath)
    ensures r.Success? ==> StartsWith(Render(r.value), "/workspace")
    ensures r.Failure? ==> r.error == "Path escape blocked for '" + relativePath + "'."
  {
    WorkspaceRootFacts();
    var candidate := Resolve(WorkspaceRoot, relativePath);
    WorkspaceAccepts(candidate);
    if StartsWith(Render(candidate), Render(WorkspaceRoot)) then Success(candidate)
    else Failure("Path escape blocked for '" + relativePath + "'.")
  }

  /** A recorded match: the 1-based line number and the stripped text of the line. */
  datatype Marker = Marker(lineNo: nat, text: string)

  /** `"TODO" in line or "FIXME" in line` */
  predicate HasMarker(line: string) {
    Contains(line, "TODO") || Contains(line, "FIXME")
  }

  /** Every marker of the file, in file order. */
  function Markers(lines: seq<string>): seq<Marker>
    decreases |lines|
  {
    if lines == [] then []
    else
      var n := |lines|;
      Markers(lines[..n - 1]) + (if HasMarker(lines[n - 1]) then [Marker(n, Strip(lines[n - 1]))] else [])
  }

  function Take<T>(s: seq<T>, n: nat): seq<T> {
    if |s| <= n then s else s[..n]
  }

  /** What the scan of `capture_todos` collects: the first `limit` markers. The scan stops as
      soon as it holds `limit` matches; with `limit <= 0` that is true after the first line,
      so only a marker on line 1 can then be collected. */
  function Scanned(lines: seq<string>, limit: int): seq<Marker> {
    if limit >= 1 then Take(Markers(lines), limit)
    else Markers(lines[..if lines == [] then 0 else 1])
  }

  /** `m` is a faithful record of a marker line of the file. */
  predicate Records(lines: seq<string>, m: Marker) {
    1 <= m.lineNo <= |lines| && HasMarker(lines[m.lineNo - 1]) && m.text == Strip(lines[m.lineNo - 1])
  }

  // ---------------------------------------------------------------------------------------
  // Properties of the markers of a file

  /** Every marker comes from a line holding `TODO` or `FIXME`, numbered from 1, stripped. */
  lemma {:induction false} MarkersSound(lines: seq<string>)
    ensures forall k :: 0 <= k < |Markers(lines)| ==> Records(lines, Markers(lines)[k])
    decreases |lines|
  {
    if lines != [] {
      var n := |lines|;
      var front := lines[..n - 1];
      MarkersSound(front);
      forall k | 0 <= k < |Markers(front)| ensures Records(lines, Markers(front)[k]) {
        var m := Markers(front)[k];
        assert Records(front, m);
        assert lines[m.lineNo - 1] == front[m.lineNo - 1];
      }
    }
  }

  /** Markers appear in strictly increasing line order. */
  lemma {:induction false} MarkersIncreasing(lines: seq<string>)
    ensures forall j, k :: 0 <= j < k < |Markers(lines)| ==> Markers(lines)[j].lineNo < Markers(lines)[k].lineNo
    decreases |lines|
  {
    if lines != [] {
      var n := |lines|;
      var front := lines[..n - 1];
      MarkersIncreasing(front);
      MarkersSound(front);
      assert forall k :: 0 <= k < |Markers(front)| ==> Markers(front)[k].lineNo <= n - 1 by {
        forall k | 0 <= k < |Markers(front)| ensures Markers(front)[k].lineNo <= n - 1 {
          assert Records(front, Markers(front)[k]);
        }
      }
    }
  }

  /** The marker line at index `i` is recorded, right after the markers of the lines above it. */
  lemma MarkerRecorded(lines: seq<string>, i: nat)
    requires i < |lines| && HasMarker(lines[i])
    ensures Marker(i + 1, Strip(lines[i])) in Markers(lines)
  {
    var upTo := lines[..i + 1];
    assert upTo[..i] == lines[..i] && upTo[i] == lines[i];
    assert Markers(upTo) == Markers(lines[..i]) + [Marker(i + 1, Strip(lines[i]))];
    MarkersPrefix(lines, i + 1);
    var k := |Markers(upTo)| - 1;
    assert Markers(lines)[k] == Markers(upTo)[k];
  }

  /** No marker line is missed. */
  lemma MarkersComplete(lines: seq<string>)
    ensures forall i :: 0 <= i < |lines| && HasMarker(lines[i]) ==> Marker(i + 1, Strip(lines[i])) in Markers(lines)
  {
    forall i | 0 <= i < |lines| && HasMarker(lines[i]) ensures Marker(i + 1, Strip(lines[i])) in Markers(lines) {
      MarkerRecorded(lines, i);
    }
  }

  /** The markers of the first lines are the first markers of the file. */
  lemma {:induction false} MarkersPrefix(lines: seq<string>, j: nat)
    requires j <= |lines|
    ensures var ms := Markers(lines[..j]);
            |ms| <= |Markers(lines)| && ms == Markers(lines)[..|ms|]
    decreases |lines| - j
  {
    if j < |lines| {
      MarkersPrefix(lines, j + 1);
      var n := j + 1;
      assert lines[..j + 1][..n - 1] == lines[..j];
    } else {
      assert lines[..j] == lines;
    }
  }

  // ---------------------------------------------------------------------------------------
  // Properties of the scan

  /** What the scan collects is the first markers of the file, at most `limit` of them, and
      at most one when `limit <= 0`. */
  lemma ScannedIsPrefix(lines: seq<string>, limit: int)
    ensures var ms := Scanned(lines, limit);
            |ms| <= |Markers(lines)| && ms == Markers(lines)[..|ms|]
    ensures |Scanned(lines, limit)| <= if limit >= 1 then limit else 1
  {
    if limit < 1 {
      var n := if lines == [] then 0 else 1;
      MarkersPrefix(lines, n);
      if lines != [] {
        var front := lines[..1];
        assert front[..0] == [];
        assert |Markers(front)| <= 1;
      }
    }
  }

  /** What the scan collects is sound, ordered and bounded: at most `limit` matches, and at
      most one when `limit <= 0`. */
  lemma ScannedSoundOrderedBounded(lines: seq<string>, limit: int)
    ensures forall k :: 0 <= k < |Scanned(lines, limit)| ==> Records(lines, Scanned(lines, limit)[k])
    ensures forall j, k :: 0 <= j < k < |Scanned(lines, limit)| ==>
              Scanned(lines, limit)[j].lineNo < Scanned(lines, limit)[k].lineNo
    ensures |Scanned(lines, limit)| <= if limit >= 1 then limit else 1
  {
    ScannedIsPrefix(lines, limit);
    MarkersSound(lines);
    MarkersIncreasing(lines);
    var ms := Scanned(lines, limit);
    var all := Markers(lines);
    assert forall k :: 0 <= k < |ms| ==> ms[k] == all[k];
  }

  /** With a positive limit, a scan that collects fewer than `limit` matches collects them all. */
  lemma ScannedCompleteBelowLimit(lines: seq<string>, limit: int)
    requires limit >= 1 && |Scanned(lines, limit)| < limit
    ensures Scanned(lines, limit) == Markers(lines)
    ensures forall i :: 0 <= i < |lines| && HasMarker(lines[i]) ==>
              Marker(i + 1, Strip(lines[i])) in Scanned(lines, limit)
  {
    MarkersComplete(lines);
  }

  lemma ScanStop(lines: seq<string>, i: nat, limit: int)
    requires 1 <= i <= |lines|
    requires limit <= |Markers(lines[..i])|
    requires if limit >= 1 then |Markers(lines[..i - 1])| < limit else i == 1
    ensures Markers(lines[..i]) == Scanned(lines, limit)
  {
    var now := lines[..i];
    assert now[..i - 1] == lines[..i - 1];
    MarkersPrefix(lines, i);
  }

  /** One more line: the markers so far, then that line if it holds a marker. */
  lemma MarkersStep(lines: seq<string>, i: nat)
    requires i < |lines|
    ensures Markers(lines[..i + 1]) ==
            Markers(lines[..i]) + (if HasMarker(lines[i]) then [Marker(i + 1, Strip(lines[i]))] else [])
  {
    assert lines[..i + 1][..i] == lines[..i];
  }

  /** The `for idx, line in enumerate(fh, start=1)` loop of `capture_todos`: walk the lines in order, record each marker line, and stop
      as soon as `limit` matches are held. */
  method ScanTodos(lines: seq<string>, limit: int) returns (matches: seq<Marker>)
    ensures matches == Scanned(lines, limit)
  {
    matches := [];
    var i := 0;
    while i < |lines|
      invariant 0 <= i <= |lines|
      invariant matches == Markers(lines[..i])
      invariant i > 0 ==> |matches| < limit
    {
      var line := lines[i];
      MarkersStep(lines, i);
      if Contains(line, "TODO") || Contains(line, "FIXME") {
        matches := matches + [Marker(i + 1, Strip(line))];
      }
      i := i + 1;
      if |matches| >= limit {
        ScanStop(lines, i, limit);
        break;
      }
    }
    if i == |lines| && (lines == [] || |matches| < limit) {
      assert lines[..i] == lines;
    }
  }

  // ---------------------------------------------------------------------------------------
  // The tools

  /** `f"L{idx}: {line.strip()}"` */
  function Format(m: Marker): string {
    "L" + NatToString(m.lineNo) + ": " + m.text
  }

  function Formatted(ms: seq<Marker>): (r: seq<string>)
    ensures |r| == |ms|
  {
    seq(|ms|, i requires 0 <= i < |ms| => Format(ms[i]))
  }

  function Bullets(ms: seq<Marker>): (r: seq<string>)
    ensures |r| == |ms|
  {
    seq(|ms|, i requires 0 <= i < |ms| => "- " + Format(ms[i]))
  }

  /** The note appended to the shared research notes. */
  function Note(relativePath: string, ms: seq<Marker>): string {
    "Found " + NatToString(|ms|) + " TODO markers in " + relativePath + ":\n" + Join(Formatted(ms), "\n")
  }

  /** The text the tool returns when it found markers. */
  function Summary(relativePath: string, ms: seq<Marker>): string {
    "TODO summary for " + relativePath + ":\n" + Join(Bullets(ms), "\n")
  }

  /** `capture_todos(ctx, relative_path, limit)`; `files` maps each existing file to its lines. */
  method CaptureTodos(ctx: WorkflowState, files: map<Path, seq<string>>, relativePath: string, limit: int := 5)
    returns (text: string)
    modifies ctx
    ensures ctx.actionItems == old(ctx.actionItems)
    ensures ResolveRelativePath(relativePath).Failure? ==>
              text == ResolveRelativePath(relativePath).error &&
              ctx.researchNotes == old(ctx.researchNotes)
    ensures ResolveRelativePath(relativePath).Success? && ResolveRelativePath(relativePath).value !in files ==>
              text == "No file found at " + relativePath &&
              ctx.researchNotes == old(ctx.researchNotes)
    ensures ResolveRelativePath(relativePath).Success? && ResolveRelativePath(relativePath).value in files ==>
              var ms := Scanned(files[ResolveRelativePath(relativePath).value], limit);
              (ms == [] ==> text == "No TODO markers in " + relativePath &&
                            ctx.researchNotes == old(ctx.researchNotes)) &&
              (ms != [] ==> text == Summary(relativePath, ms) &&
                            ctx.researchNotes == old(ctx.researchNotes) + [Note(relativePath, ms)])
  {
    var resolved := ResolveRelativePath(relativePath);
    if resolved.Failure? {
      return resolved.error;
    }
    var filePath := resolved.value;
    if filePath !in files {
      return "No file found at " + relativePath;
    }
    var matches := ScanTodos(files[filePath], limit);
    if matches == [] {
      return "No TODO markers in " + relativePath;
    }
    ctx.researchNotes := ctx.researchNotes + [Note(relativePath, matches)];
    return Summary(relativePath, matches);
  }

  /** `save_plan(ctx, steps)`: replace the action items and report how many were stored. */
  method SavePlan(ctx: WorkflowState, steps: seq<string>) returns (text: string)
    modifies ctx
    ensures ctx.actionItems == steps
    ensures ctx.researchNotes == old(ctx.researchNotes)
    ensures text == "Stored " + NatToString(|steps|) + " workflow steps."
  {
    ctx.actionItems := steps;
    return "Stored " + NatToString(|steps|) + " workflow steps.";
  }
}
