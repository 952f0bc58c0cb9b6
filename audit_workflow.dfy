/** The shared state of the Stage 3 red-team/blue-team security audit: an `AuditState` that
    the blue team updates with `submit_config` and the red team with `report_vulnerability`,
    and the literal value domains of the tools' and the final report's fields. */
module AuditWorkflow {
  import opened Text
  import opened Results

  /** `Literal["low", "medium", "high", "critical"]` */
  datatype Severity = Low | Medium | High | Critical {
    function Name(): string {
      match this
      case Low => "low"
      case Medium => "medium"
      case High => "high"
      case Critical => "critical"
    }
  }

  /** Accepting a string into the severity domain. */
  function ParseSeverity(s: string): (r: Option<Severity>)
    ensures r.Some? <==> s == "low" || s == "medium" || s == "high" || s == "critical"
    ensures r.Some? ==> r.value.Name() == s
  {
    if s == "low" then Some(Low)
    else if s == "medium" then Some(Medium)
    else if s == "high" then Some(High)
    else if s == "critical" then Some(Critical)
    else None
  }

  /** `Literal["APPROVED", "REJECTED"]` of `SecurityReport.approval_status` */
  datatype ApprovalStatus = Approved | Rejected {
    function Name(): string {
      match this
      case Approved => "APPROVED"
      case Rejected => "REJECTED"
    }
  }

  /** Accepting a string into the approval domain. */
  function ParseApproval(s: string): (r: Option<ApprovalStatus>)
    ensures r.Some? <==> s == "APPROVED" || s == "REJECTED"
    ensures r.Some? ==> r.value.Name() == s
  {
    if s == "APPROVED" then Some(Approved)
    else if s == "REJECTED" then Some(Rejected)
    else None
  }

  /** Every value of either domain is read back as itself. */
  lemma DomainsRoundTrip(s: Severity, a: ApprovalStatus)
    ensures ParseSeverity(s.Name()) == Some(s)
    ensures ParseApproval(a.Name()) == Some(a)
  {
  }

  /** The final output of the audit. */
  datatype SecurityReport = SecurityReport(
    finalConfig: string,
    resolvedIssues: seq<string>,
    approvalStatus: ApprovalStatus,
    totalIterations: int)

  /** Building a `SecurityReport` from the agent's fields: accepted exactly when
      `approval_status` is one of the two literals, and then every field is kept. */
  function MakeReport(finalConfig: string, resolvedIssues: seq<string>, approvalStatus: string,
                      totalIterations: int): (r: Option<SecurityReport>)
    ensures r.Some? <==> approvalStatus == "APPROVED" || approvalStatus == "REJECTED"
    ensures r.Some? ==> r.value.finalConfig == finalConfig && r.value.resolvedIssues == resolvedIssues &&
                        r.value.approvalStatus.Name() == approvalStatus &&
                        r.value.totalIterations == totalIterations
  {
    match ParseApproval(approvalStatus)
    case Some(status) => Some(SecurityReport(finalConfig, resolvedIssues, status, totalIterations))
    case None => None
  }

  /** `f"[{severity.upper()}] {description}"` */
  function Entry(severity: Severity, description: string): string {
    "[" + Upper(severity.Name()) + "] " + description
  }

  /** The upper-cased severity labels: `[LOW]`, `[MEDIUM]`, `[HIGH]` and `[CRITICAL]`. */
  lemma EntryLabels(severity: Severity, description: string)
    ensures Entry(severity, description) ==
            "[" + (match severity
                   case Low => "LOW"
                   case Medium => "MEDIUM"
                   case High => "HIGH"
                   case Critical => "CRITICAL") + "] " + description
  {
    match severity
    case Low => assert Upper("low") == "LOW";
    case Medium => assert Upper("medium") == "MEDIUM";
    case High => assert Upper("high") == "HIGH";
    case Critical => assert Upper("critical") == "CRITICAL";
  }

  // ---------------------------------------------------------------------------------------
  // The audit as the sequence of tool calls made on it

  /** A tool call on the shared state. */
  datatype Call = Submit(config: string, comment: string) | Report(severity: Severity, description: string)

  /** The three fields of an `AuditState`. */
  datatype Audit = Audit(proposedConfig: string, vulnerabilities: seq<string>, iteration: nat)

  /** The effect of one call: a submission replaces the config, counts an iteration and clears
      the findings; a report appends one finding. */
  function Apply(a: Audit, c: Call): Audit {
    match c
    case Submit(config, _) => Audit(config, [], a.iteration + 1)
    case Report(severity, description) =>
      a.(vulnerabilities := a.vulnerabilities + [Entry(severity, description)])
  }

  /** The state after a sequence of calls on a fresh `AuditState()`. */
  function Replay(calls: seq<Call>): Audit
    decreases |calls|
  {
    if calls == [] then Audit("", [], 0)
    else Apply(Replay(calls[..|calls| - 1]), calls[|calls| - 1])
  }

  /** How many submissions a sequence of calls holds. */
  function Submissions(calls: seq<Call>): nat
    decreases |calls|
  {
    if calls == [] then 0
    else Submissions(calls[..|calls| - 1]) + (if calls[|calls| - 1].Submit? then 1 else 0)
  }

  /** The findings a run of reports logs, in order. */
  function Entries(reports: seq<Call>): (r: seq<string>)
    requires forall i :: 0 <= i < |reports| ==> reports[i].Report?
    ensures |r| == |reports|
    decreases |reports|
  {
    if reports == [] then []
    else
      var last := reports[|reports| - 1];
      Entries(reports[..|reports| - 1]) + [Entry(last.severity, last.description)]
  }

  /** The i-th finding a run of reports logs is the entry of the i-th report. */
  lemma {:induction false} EntryAt(reports: seq<Call>, i: nat)
    requires forall j :: 0 <= j < |reports| ==> reports[j].Report?
    requires i < |reports|
    ensures Entries(reports)[i] == Entry(reports[i].severity, reports[i].description)
    decreases |reports|
  {
    var front := reports[..|reports| - 1];
    var last := reports[|reports| - 1];
    var logged := Entries(front);
    assert Entries(reports) == logged + [Entry(last.severity, last.description)];
    if i < |front| {
      EntryAt(front, i);
      assert reports[i] == front[i];
      assert Entries(reports)[i] == logged[i];
    }
  }

  /** Every finding a run of reports logs is the entry of the report at the same position. */
  lemma EntriesAt(reports: seq<Call>)
    requires forall i :: 0 <= i < |reports| ==> reports[i].Report?
    ensures forall i :: 0 <= i < |reports| ==>
              Entries(reports)[i] == Entry(reports[i].severity, reports[i].description)
  {
    forall i | 0 <= i < |reports|
      ensures Entries(reports)[i] == Entry(reports[i].severity, reports[i].description)
    {
      EntryAt(reports, i);
    }
  }

  /** The counter invariant: `iteration` is the number of `submit_config` calls so far. */
  lemma {:induction false} IterationCountsSubmissions(calls: seq<Call>)
    ensures Replay(calls).iteration == Submissions(calls)
    decreases |calls|
  {
    if calls != [] {
      IterationCountsSubmissions(calls[..|calls| - 1]);
    }
  }

  /** Replaying one more call applies it to the state reached so far. */
  lemma ReplaySnoc(calls: seq<Call>, c: Call)
    ensures Replay(calls + [c]) == Apply(Replay(calls), c)
  {
    assert (calls + [c])[..|calls|] == calls;
  }

  /** A run of reports keeps the config and the counter. */
  lemma {:induction false} ReportsKeepConfig(start: seq<Call>, reports: seq<Call>)
    requires forall i :: 0 <= i < |reports| ==> reports[i].Report?
    ensures Replay(start + reports).proposedConfig == Replay(start).proposedConfig
    ensures Replay(start + reports).iteration == Replay(start).iteration
    decreases |reports|
  {
    if reports == [] {
      assert start + reports == start;
    } else {
      var front := reports[..|reports| - 1];
      var last := reports[|reports| - 1];
      assert start + reports == (start + front) + [last];
      ReportsKeepConfig(start, front);
      ReplaySnoc(start + front, last);
    }
  }

  /** A run of reports logs the entries of the reports, in order, after the findings already
      logged. */
  lemma {:induction false} ReportsLogEntries(start: seq<Call>, reports: seq<Call>)
    requires forall i :: 0 <= i < |reports| ==> reports[i].Report?
    ensures Replay(start + reports).vulnerabilities == Replay(start).vulnerabilities + Entries(reports)
    decreases |reports|
  {
    var v := Replay(start).vulnerabilities;
    if reports == [] {
      assert start + reports == start;
      assert v + [] == v;
    } else {
      var front := reports[..|reports| - 1];
      var last := reports[|reports| - 1];
      assert start + reports == (start + front) + [last];
      ReportsLogEntries(start, front);
      ReplaySnoc(start + front, last);
      var e := Entry(last.severity, last.description);
      assert Entries(reports) == Entries(front) + [e];
      assert v + Entries(reports) == (v + Entries(front)) + [e];
    }
  }

  /** After a submission and then only reports, the config is the one submitted and the
      findings are exactly those reports, one entry each, in order. */
  lemma ReportsAfterSubmission(before: seq<Call>, config: string, comment: string, reports: seq<Call>)
    requires forall i :: 0 <= i < |reports| ==> reports[i].Report?
    ensures var a := Replay((before + [Submit(config, comment)]) + reports);
            a.proposedConfig == config &&
            a.vulnerabilities == Entries(reports) &&
            |a.vulnerabilities| == |reports| &&
            a.iteration == Replay(before).iteration + 1
  {
    var head := before + [Submit(config, comment)];
    assert head[..|head| - 1] == before;
    assert Replay(head) == Audit(config, [], Replay(before).iteration + 1);
    ReportsKeepConfig(head, reports);
    ReportsLogEntries(head, reports);
    assert [] + Entries(reports) == Entries(reports);
  }

  /** A report never touches the config or the counter. */
  lemma ReportKeepsConfigAndIteration(calls: seq<Call>, severity: Severity, description: string)
    ensures var a := Replay(calls + [Report(severity, description)]);
            a.proposedConfig == Replay(calls).proposedConfig &&
            a.iteration == Replay(calls).iteration &&
            a.vulnerabilities == Replay(calls).vulnerabilities + [Entry(severity, description)]
  {
    assert (calls + [Report(severity, description)])[..|calls|] == calls;
  }

  // ---------------------------------------------------------------------------------------
  // The shared state object

  /** `AuditState`, with the calls made on it kept as a ghost history. */
  class AuditState {
    var proposedConfig: string
    var vulnerabilities: seq<string>
    var iteration: nat
    ghost var history: seq<Call>

    /** The fields are those the calls made so far produce. */
    ghost predicate Valid()
      reads this
    {
      Audit(proposedConfig, vulnerabilities, iteration) == Replay(history)
    }

    /** `AuditState()`: an empty config, no findings, iteration 0. */
    constructor ()
      ensures Valid() && history == []
      ensures proposedConfig == "" && vulnerabilities == [] && iteration == 0
    {
      proposedConfig, vulnerabilities, iteration := "", [], 0;
      history := [];
    }

    /** `submit_config(ctx, config_content, comment)` */
    method SubmitConfig(configContent: string, comment: string := "") returns (text: string)
      requires Valid()
      modifies this
      ensures Valid() && history == old(history) + [Submit(configContent, comment)]
      ensures proposedConfig == configContent
      ensures iteration == old(iteration) + 1 && iteration == Submissions(history)
      ensures vulnerabilities == []
      ensures text == "Config updated (Iteration " + NatToString(iteration) + "). Previous vulnerabilities cleared: "
                      + NatToString(|old(vulnerabilities)|) + ". Comment: " + comment
    {
      proposedConfig := configContent;
      iteration := iteration + 1;
      var oldVulns := |vulnerabilities|;
      vulnerabilities := [];
      history := history + [Submit(configContent, comment)];
      assert history[..|history| - 1] == old(history);
      IterationCountsSubmissions(history);
      text := "Config updated (Iteration " + NatToString(iteration) + "). Previous vulnerabilities cleared: "
              + NatToString(oldVulns) + ". Comment: " + comment;
    }

    /** `report_vulnerability(ctx, severity, description)` */
    method ReportVulnerability(severity: Severity, description: string) returns (text: string)
      requires Valid()
      modifies this
      ensures Valid() && history == old(history) + [Report(severity, description)]
      ensures vulnerabilities == old(vulnerabilities) + [Entry(severity, description)]
      ensures proposedConfig == old(proposedConfig) && iteration == old(iteration)
      ensures text == "Vulnerability logged: " + Entry(severity, description)
    {
      var entry := "[" + Upper(severity.Name()) + "] " + description;
      vulnerabilities := vulnerabilities + [entry];
      history := history + [Report(severity, description)];
      assert history[..|history| - 1] == old(history);
      text := "Vulnerability logged: " + entry;
    }
  }
}
