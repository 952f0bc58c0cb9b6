# Agent tool core: workspace confinement, shared workflow state, audit loop, outfit rule

This project models, in Dafny, the deterministic core of a tutorial repository about tool-using
LLM agents. The agent runtime, the language model and the MCP servers are not modelled. What
remains are the plain Python functions and state objects the agents call:

- **`resolve_workspace_path`** (`utils/workspace_path.py`). It takes a caller's path string
  and makes a relative path absolute under the workspace root. It then resolves `.` and `..`
  and refuses a result whose string does not start with the root's string. It also refuses an
  existing directory. When asked, it creates the parent directories of the target.
  - The pure part is module `Paths`: parsing, the join, lexical resolution, rendering and the
    string-prefix test.
  - Module `WorkspacePath` decides the outcome and the directories that exist afterwards. Its
    `FileSystem` class holds the set of existing directories, which the resolver updates.
- **The Stage 3 demo tools** (`stages/stage3/demo.py`), module `Stage3Demo`.
  - `WorkflowState` is the context the agents share, a class with two list fields.
  - `_resolve_relative_path` is the demo's own confinement check under `/workspace`.
  - `capture_todos` scans a file for `TODO`/`FIXME` lines. The scan is the `while` loop of
    `ScanTodos`: it numbers lines from 1 and stops once `limit` matches are held. Matches go
    into a note appended to the shared research notes.
  - `save_plan` replaces the action items.
- **The security-audit battleground** (`stages/stage3/activity/starter_workflow.py`), module
  `AuditWorkflow`.
  - `AuditState` is a class. The blue team's `submit_config` and the red team's
    `report_vulnerability` update its fields.
  - A ghost history of the calls made so far, with a `Replay` function, gives the counter
    invariant and the "n reports after a submission" property.
  - The literal domains of the severity and of `SecurityReport.approval_status` are datatypes.
- **`recommend_outfit`** (`stages/stage2/activity/starter_agent.py`), module `Outfit`. It picks
  a clothing phrase by temperature band, then at most one piece of advice by the first
  condition keyword that matches (rain/drizzle, then snow, then sunny above 20 degrees).

Module `Text` models the Python string operations used: `startswith`, substring search,
ASCII `lower`/`upper`, `strip`, `join` and `str(int)`. Module `Results` holds the Option and
Result datatypes.

A path is a sequence of segments: `/a/b` is `["a", "b"]` and `/` is `[]`. `str(path)` is
`Render`. `Path.resolve()` is lexical resolution (`Normalize`). `..` at `/` stays at `/`, as
on POSIX. The workspace root is a parameter: `Path(__file__).resolve().parent.parent` depends
on where the file is installed. The filesystem is abstracted as follows:
- for `resolve_workspace_path`, the set of existing directories;
- for `capture_todos`, a map from each existing file to the lines iterating over it yields.

The containment test is modelled as written: a string-prefix test, not a descendant test.
`Paths.AcceptsIff` states exactly which paths it accepts. `Paths.SiblingAccepted` and
`Paths.SiblingExample` show that a sibling such as `/workspace2/notes.txt` is accepted under
the root `/workspace`.

## Model

| member | source | states |
|---|---|---|
| Paths.Normalize | utils/workspace_path.py:9 | `candidate.resolve()` on segments: `.` and empty segments are skipped, `..` drops the last segment (not beyond `/`), any other segment is appended; `Paths.Resolve` and the `Paths.Normalize…` lemmas state its properties |
| Paths.Render | utils/workspace_path.py:10 | `str(path)`: `/` for the root, otherwise `/` before each segment; `Paths.SplitRender` and `Paths.RenderIsAbsolute` state what it preserves |
| Paths.RenderIsAbsolute | utils/workspace_path.py:10 | the string of every path is absolute |
| Paths.Accepts | utils/workspace_path.py:10 | `str(resolved).startswith(str(WORKSPACE_ROOT))`, characterised by `Paths.AcceptsIff` |
| Paths.Split | utils/workspace_path.py:6 | the `/`-separated parts of `s`, empty ones dropped, so every segment is nonempty and free of `/`; the `.` parts that `Path(s)` also drops are kept here and skipped by `Paths.Normalize` |
| Paths.IsAbsolute | utils/workspace_path.py:7 | `candidate.is_absolute()`: the string starts with `/`; `Paths.Candidate` branches on it and `Paths.RenderIsAbsolute` shows every rendered path has it |
| Paths.Candidate | utils/workspace_path.py:6-8 | an absolute input is taken as it is, a relative one is appended to the root; the result consists of parsed segments |
| Paths.Resolve | utils/workspace_path.py:9 | resolving the candidate yields a canonical absolute path: no empty, `.` or `..` segment is left |
| Paths.RelativeResolvesFromRoot | utils/workspace_path.py:7-9 | a relative input is resolved starting from the root directory itself |
| Paths.NormalizeAppend | utils/workspace_path.py:9 | resolving a concatenation resolves the second part from where the first one ends |
| Paths.NormalizeSkipsDot | utils/workspace_path.py:9 | a `.` segment anywhere in the input leaves the resolved path unchanged, so the `.` parts `Path(s)` drops at parsing make no difference |
| Paths.NormalizeCanonicalSegments | utils/workspace_path.py:9 | already-resolved segments are appended unchanged |
| Paths.NormalizeWithoutParentKeepsStart | utils/workspace_path.py:9 | without a `..` segment resolution never climbs above its start directory |
| Paths.RelativeWithoutParentStaysInside | utils/workspace_path.py:6-10 | a relative input with no `..` resolves below the root and passes the containment test |
| Paths.SplitRender | utils/workspace_path.py:9-10 | parsing the string of a path gives the path back |
| Paths.ResolveIdempotent | utils/workspace_path.py:6-9 | resolving the string of a resolved path gives that same path |
| Paths.PrefixMatchCons | utils/workspace_path.py:10 | for a root of two or more segments, the segment-level match is the first segments being equal and the rest matching |
| Paths.DescendantsAccepted | utils/workspace_path.py:10 | every path at or below the root passes the containment test |
| Paths.AcceptsIff | utils/workspace_path.py:10 | for a root other than `/`, `str(resolved).startswith(str(root))` holds exactly when the path agrees with the root on all but the root's last segment and its next segment begins with that last segment (both directions) |
| Paths.SlashRootAcceptsAll | utils/workspace_path.py:10 | with `/` as the root every path is accepted |
| Paths.SiblingAccepted | utils/workspace_path.py:10 | a sibling whose name extends the root's last segment is accepted although it is not below the root |
| Paths.SiblingExample | utils/workspace_path.py:6-10 | `../workspace2/notes.txt` under `/workspace` resolves to `/workspace2/notes.txt`, which is accepted and is not below the root |
| Paths.EscapeExample | utils/workspace_path.py:6-12 | `../../etc/passwd` under `/workspace` resolves to `/etc/passwd`, which is rejected |
| Paths.SplitJoin | utils/workspace_path.py:6 | parsing segments written out with `/` between them gives the segments back |
| WorkspacePath.Message | utils/workspace_path.py:11-14 | the escape message starts with `Path escape blocked for '` and names the input right after it; the directory message starts with `'` and names the input right after it; only the escape message starts with `P` |
| WorkspacePath.MessageInjective | utils/workspace_path.py:11-14 | equal messages come from the same kind of error on the same input, so the text the caller sees identifies the error |
| WorkspacePath.Parent | utils/workspace_path.py:17 | `resolved.parent` is one segment shorter (the parent of `/` is `/`) and the path lies below it |
| WorkspacePath.Ancestors | utils/workspace_path.py:17 | `mkdir(parents=True)` leaves the directory and each of its ancestors, and nothing else |
| WorkspacePath.Check | utils/workspace_path.py:5-18 | escape error exactly when the test rejects the resolved path; directory error exactly when it is accepted and an existing directory (escape first); errors carry the caller's string; a returned path is the resolved one, not a directory, and has the root's string as a prefix |
| WorkspacePath.DirsAfter | utils/workspace_path.py:5-17 | no directory disappears; nothing changes on an error or with `ensure_parent` false; on success with `ensure_parent` the parent and every proper ancestor of the target exist; every new directory is the target's parent or one of its ancestors |
| WorkspacePath.MkdirKeepsTree | utils/workspace_path.py:17 | creating a directory with its parents keeps the directory set closed under parents |
| WorkspacePath.ResolveTwice | utils/workspace_path.py:13-17 | repeating a call with the same input gives the same outcome and creates nothing more |
| WorkspacePath.FileSystem.ResolveWorkspacePath | utils/workspace_path.py:5-18 | returns the resolved path when `Check` on the directories before the call succeeds, and otherwise the message of the `ValueError` that `Check`'s error raises; the directories afterwards are `DirsAfter`, the directory set stays a tree, and `ensure_parent` defaults to true |
| Stage3Demo.WorkflowState.constructor | stages/stage3/demo.py:32-37 | both shared lists start empty |
| Stage3Demo.WorkspaceRootFacts | stages/stage3/demo.py:28 | the demo's root `/workspace` is a resolved path whose string is `/workspace` |
| Stage3Demo.WorkspaceAccepts | stages/stage3/demo.py:41-42 | under `/workspace` the prefix test passes exactly when the first segment begins with `workspace` |
| Stage3Demo.ResolveRelativePath | stages/stage3/demo.py:40-45 | accepted exactly when the resolved path's first segment begins with `workspace`; the value is the resolved path, whose string starts with `/workspace`; otherwise the escape message naming the input |
| Stage3Demo.Markers | stages/stage3/demo.py:71-73 | every line holding `TODO` or `FIXME`, numbered from 1, with its stripped text, in file order; its properties are `MarkersSound`, `MarkersIncreasing` and `MarkersComplete` |
| Stage3Demo.HasMarker | stages/stage3/demo.py:72 | `"TODO" in line or "FIXME" in line`; `Stage3Demo.MarkersSound` and `Stage3Demo.MarkersComplete` show the scan keeps exactly the lines it accepts |
| Stage3Demo.Scanned | stages/stage3/demo.py:69-75 | what the loop with its `break` collects: the first `limit` markers, or the markers of line 1 alone when `limit <= 0`; its properties are `ScannedIsPrefix`, `ScannedSoundOrderedBounded` and `ScannedCompleteBelowLimit` |
| Stage3Demo.MarkersSound | stages/stage3/demo.py:71-73 | every recorded marker names a line (numbered from 1) that holds `TODO` or `FIXME`, with that line's stripped text |
| Stage3Demo.MarkersIncreasing | stages/stage3/demo.py:71-73 | markers are in strictly increasing line order |
| Stage3Demo.MarkerRecorded | stages/stage3/demo.py:71-73 | a given marker line is recorded with its number and stripped text |
| Stage3Demo.MarkersComplete | stages/stage3/demo.py:71-73 | no marker line is missed |
| Stage3Demo.MarkersPrefix | stages/stage3/demo.py:71-73 | the markers of the first lines are the first markers of the file |
| Stage3Demo.ScannedIsPrefix | stages/stage3/demo.py:69-75 | the scan's matches are the first markers of the file, at most `limit` of them, or at most one when `limit <= 0` |
| Stage3Demo.MarkersStep | stages/stage3/demo.py:71-73 | reading one more line adds that line's marker, if it has one, after the markers so far |
| Stage3Demo.ScannedSoundOrderedBounded | stages/stage3/demo.py:69-75 | the scan's matches are sound and ordered; they number at most `limit`, or at most one when `limit <= 0` |
| Stage3Demo.ScannedCompleteBelowLimit | stages/stage3/demo.py:69-75 | with a positive limit, a scan that stops short of the limit holds every marker of the file |
| Stage3Demo.ScanStop | stages/stage3/demo.py:74-75 | breaking out at line `i` leaves exactly the matches of the whole scan |
| Stage3Demo.ScanTodos | stages/stage3/demo.py:69-75 | the loop returns the first `limit` markers of the file (only line 1 is examined when `limit <= 0`) |
| Stage3Demo.Format | stages/stage3/demo.py:73 | `f"L{idx}: {line.strip()}"` for one match |
| Stage3Demo.Note | stages/stage3/demo.py:80-82 | the note appended to the research notes: the count, the path and the formatted matches one per line |
| Stage3Demo.Summary | stages/stage3/demo.py:84-85 | the returned summary: the path, then one bullet per match |
| Stage3Demo.Formatted | stages/stage3/demo.py:73-81 | one formatted line per match |
| Stage3Demo.Bullets | stages/stage3/demo.py:84 | one bullet per match |
| Stage3Demo.CaptureTodos | stages/stage3/demo.py:48-85 | the escape message, the no-file message, the no-markers message or the summary, in that order; only the last appends, exactly one note, to the research notes; the action items are untouched |
| Stage3Demo.SavePlan | stages/stage3/demo.py:88-95 | the action items become `steps`, the research notes are untouched, and the message gives the number of steps |
| AuditWorkflow.ParseSeverity | stages/stage3/activity/starter_workflow.py:74 | a string is a severity exactly when it is `low`, `medium`, `high` or `critical`, and it is read as the value with that name |
| AuditWorkflow.ParseApproval | stages/stage3/activity/starter_workflow.py:45 | a string is an approval status exactly when it is `APPROVED` or `REJECTED`, and it is read as the value with that name |
| AuditWorkflow.DomainsRoundTrip | stages/stage3/activity/starter_workflow.py:45-74 | every severity and every approval status is read back as itself |
| AuditWorkflow.EntryLabels | stages/stage3/activity/starter_workflow.py:80 | the entry label is the upper-cased severity: `[LOW]`, `[MEDIUM]`, `[HIGH]`, `[CRITICAL]` |
| AuditWorkflow.MakeReport | stages/stage3/activity/starter_workflow.py:42-46 | a `SecurityReport` is built exactly when `approval_status` is `APPROVED` or `REJECTED`, and then keeps every field as given |
| AuditWorkflow.Entry | stages/stage3/activity/starter_workflow.py:80 | `f"[{severity.upper()}] {description}"`; `AuditWorkflow.EntryLabels` gives its four labels |
| AuditWorkflow.Apply | stages/stage3/activity/starter_workflow.py:60-81 | the effect of one tool call on the three fields; `AuditState.Valid` ties the object to it |
| AuditWorkflow.Replay | stages/stage3/activity/starter_workflow.py:33-81 | the fields after a sequence of calls on a fresh `AuditState()`; its properties are the lemmas below |
| AuditWorkflow.ReplaySnoc | stages/stage3/activity/starter_workflow.py:51-82 | replaying one more call applies it to the state reached so far |
| AuditWorkflow.Entries | stages/stage3/activity/starter_workflow.py:80-81 | a run of reports logs exactly one entry per report |
| AuditWorkflow.EntryAt | stages/stage3/activity/starter_workflow.py:80-81 | the i-th entry a run of reports logs is that of the i-th report |
| AuditWorkflow.EntriesAt | stages/stage3/activity/starter_workflow.py:80-81 | every logged entry is that of the report at the same position |
| AuditWorkflow.ReportsKeepConfig | stages/stage3/activity/starter_workflow.py:80-81 | any run of reports leaves the config and the iteration as they were |
| AuditWorkflow.ReportsLogEntries | stages/stage3/activity/starter_workflow.py:80-81 | any run of reports appends the entries of those reports, in order, after the findings already logged |
| AuditWorkflow.IterationCountsSubmissions | stages/stage3/activity/starter_workflow.py:37-61 | after any sequence of calls `iteration` is the number of `submit_config` calls |
| AuditWorkflow.ReportsAfterSubmission | stages/stage3/activity/starter_workflow.py:60-81 | after a submission and then n reports, the config is the one submitted, the list holds exactly those n entries in order, and the iteration went up by one |
| AuditWorkflow.ReportKeepsConfigAndIteration | stages/stage3/activity/starter_workflow.py:80-81 | a report appends one entry and leaves the config and the iteration unchanged |
| AuditWorkflow.AuditState.constructor | stages/stage3/activity/starter_workflow.py:33-37 | a fresh state has an empty config, no vulnerabilities and iteration 0 |
| AuditWorkflow.AuditState.SubmitConfig | stages/stage3/activity/starter_workflow.py:51-68 | the config is replaced, the iteration goes up by exactly one and still counts the submissions, the list is emptied, and the message gives the new iteration and the count before clearing |
| AuditWorkflow.AuditState.ReportVulnerability | stages/stage3/activity/starter_workflow.py:71-82 | exactly one entry `[SEVERITY] description` is appended at the end; the config and the iteration are unchanged; the message repeats the entry |
| Outfit.OutfitParts | stages/stage2/activity/starter_agent.py:37-51 | one or two parts; the first is the clothing phrase for the band (below 10, 10 up to 20, 20 and above, each an iff); the umbrella advice exactly when the condition mentions rain or drizzle; boots exactly when it mentions snow and no rain; sunglasses exactly when sunny, neither of those, and above 20; no advice otherwise |
| Outfit.Rainy | stages/stage2/activity/starter_agent.py:46 | `"rain" in condition.lower() or "drizzle" in condition.lower()`; `Outfit.OutfitParts` gives it first priority and `Outfit.RainStaysRainy` shows appending text keeps it |
| Outfit.Snowy | stages/stage2/activity/starter_agent.py:48 | `"snow" in condition.lower()`, consulted by `Outfit.OutfitParts` only when the condition is not rainy |
| Outfit.Sunny | stages/stage2/activity/starter_agent.py:50 | `"sunny" in condition.lower()`, consulted by `Outfit.OutfitParts` only when neither rainy nor snowy, and only above 20 degrees |
| Outfit.RecommendOutfit | stages/stage2/activity/starter_agent.py:32-53 | the returned text is the parts joined by `", "` followed by `"."` |
| Outfit.RecommendationShape | stages/stage2/activity/starter_agent.py:53 | the text starts with the clothing phrase, ends with `.`, and is that phrase alone or the phrase, `", "` and the advice |
| Outfit.NoSunglassesAtTwenty | stages/stage2/activity/starter_agent.py:43-51 | at exactly 20 degrees, without rain or snow, the answer is the T-shirt alone, even when sunny |
| Outfit.CaseInsensitive | stages/stage2/activity/starter_agent.py:46-50 | upper- or lower-casing the condition does not change the recommendation |
| Outfit.RainStaysRainy | stages/stage2/activity/starter_agent.py:46-51 | whatever follows a rainy condition, the umbrella advice is given, outranking snow and sun |
| Outfit.LowerAppend | stages/stage2/activity/starter_agent.py:46 | lower-casing distributes over concatenation |
| Text.Contains | stages/stage3/demo.py:72 | `t in s` for strings, characterised by `Text.ContainsIffOccurs` |
| Text.StartsWith | utils/workspace_path.py:10 | `s.startswith(prefix)`: the first `len(prefix)` characters of `s` are `prefix`; `Paths.AcceptsIff` characterises its use in the containment test |
| Text.Lower | stages/stage2/activity/starter_agent.py:46 | `s.lower()` on ASCII letters keeps the length; `Text.LowerIsLower` and `Outfit.LowerAppend` state the rest |
| Text.Upper | stages/stage3/activity/starter_workflow.py:80 | `s.upper()` on ASCII letters keeps the length; `AuditWorkflow.EntryLabels` gives its values on the severities |
| Text.Join | stages/stage2/activity/starter_agent.py:53 | `sep.join(parts)`; `Paths.SplitJoin` and `Outfit.RecommendationShape` state what its uses produce |
| Text.TrimStart | stages/stage3/demo.py:73 | `lstrip()` keeps a suffix of the line that does not start with whitespace |
| Text.TrimEnd | stages/stage3/demo.py:73 | `rstrip()` keeps a prefix of the line that does not end with whitespace |
| Text.IsSpace | stages/stage3/demo.py:73 | the characters `str.isspace()` accepts, which `strip()` removes; `Text.StripBounds` and `Text.Strip` state that only these are removed and none remain at the ends |
| Text.StripBounds | stages/stage3/demo.py:73 | gives the bounds `a <= b` with `strip()` keeping `s[a..b]` and only whitespace outside |
| Text.ContainsIffOccurs | stages/stage3/demo.py:72 | the substring test holds exactly when the text occurs at some position |
| Text.ContainsAppend | stages/stage2/activity/starter_agent.py:46 | appending keeps every occurrence |
| Text.LowerIsLower | stages/stage2/activity/starter_agent.py:46-50 | lower-casing leaves no upper-case letter and is idempotent |
| Text.Strip | stages/stage3/demo.py:73 | `line.strip()` is no longer than the line and neither starts nor ends with whitespace |
| Text.StripSlice | stages/stage3/demo.py:73 | what `strip()` keeps is a slice of the line, and everything it removes at either end is whitespace |
| Text.TrimStartRemovesSpaces | stages/stage3/demo.py:73 | stripping removes only whitespace from the front of the line |
| Text.TrimEndRemovesSpaces | stages/stage3/demo.py:73 | stripping removes only whitespace from the back of the line |
| Text.NatToString | stages/stage3/activity/starter_workflow.py:67 | `str(n)` is a nonempty string of decimal digits with no leading zero |
| Text.NatToStringRoundTrip | stages/stage3/activity/starter_workflow.py:67 | reading the digits back gives the number |

## Left out

- Symbolic links: `Path.resolve()` is modelled as lexical resolution of `.` and `..`. Links are not consulted.
- The filesystem: the real filesystem is replaced by a directory set and a map from file to lines.
  - Opening and UTF-8 decoding of files are not modelled, nor the line terminators a line keeps.
  - Errors from `mkdir` are not modelled: permission failures, and a file standing where a parent directory should be.
  - `is_file()` is read as "the path is a key of the file map".
- POSIX's special leading `//`: `Path` keeps exactly two leading slashes, `Path.resolve()` collapses them to one, and the model treats them like one throughout; the resolved path is the same.
- WorkspacePath.FileSystem.ResolveWorkspacePath: the root is a parameter. The real root's value depends on where the repository is installed.
- Text.Lower and Text.Upper: only ASCII letters change case. Python's Unicode case mapping is not modelled.
- Outfit.OutfitParts: the temperature is a mathematical real. NaN, infinities and rounding of IEEE doubles are not modelled.
- Stage3Demo.SavePlan: the step list is a value. That the shared context keeps a reference to the caller's list object is not modelled.
- `SecurityReport` is present through `AuditWorkflow.MakeReport`, which checks only the literal `approval_status` domain. `WeatherForecast` is not modelled. Pydantic's other validation and coercion, of types and of the remaining fields, is not modelled.
- `WorkflowState` and `AuditState` mutate fields in place. The tool calls are sequential; concurrent use is not modelled.
- The agent runtime, the model calls, the MCP server wiring, the weather server and the command-line utilities are not part of this model. Neither are the Stage 1 agents, the coding-task stage and the file/bash tool bodies.
- A raised `ValueError` is modelled as a `Failure` result carrying its message. The exception mechanism itself is not modelled: in `resolve_workspace_path` the error propagates to the caller, and `capture_todos` turns it into its message.
