/** The rerun entry point (src/rerun.ts): find the check-run that carries a correlation
    marker naming the workflow run that produced it, find that run's job behind the
    check-run, and rerun the job if it has completed; otherwise stop without action. */
module Rerun {
  import opened Seqs
  import opened Decimal
  import opened Checks

  /** One job of a workflow run, as `listJobsForWorkflowRun` returns it. */
  datatype Job = Job(id: nat, checkRunUrl: string, status: string)

  /** `listJobsForWorkflowRun` for a run identifier: the run's jobs, or None when the
      call throws. */
  type JobLookup = nat -> Option<seq<Job>>

  /** What one invocation ends with. */
  datatype Decision = NoAction | NotCompleted(jobId: nat) | Rerun(jobId: nat)

  /** The decision together with the run identifiers whose jobs were listed, in order. */
  datatype Scan = Scan(decision: Decision, lookups: seq<nat>)

  /** The correlation marker `<!--${jobIdentifier}-${digits}-->`. */
  function CorrelationMarker(jobIdentifier: string, digits: string): string {
    "<!--" + jobIdentifier + "-" + digits + "-->"
  }

  /** `text?.match(/^<!--${jobIdentifier}-(\d+)-->$/)?.[1]`, with the job identifier
      taken literally: the captured digits when the whole text is one marker. */
  function DecodeRunId(text: Option<string>, jobIdentifier: string): (r: Option<string>)
    ensures r.Some? ==>
      |r.value| > 0 && AllDigits(r.value) && text == Some(CorrelationMarker(jobIdentifier, r.value))
    ensures text.None? ==> r.None?
  {
    match text
    case None => None
    case Some(t) =>
      var head := "<!--" + jobIdentifier + "-";
      if |t| > |head| + 3 && t[..|head|] == head && t[|t| - 3..] == "-->" &&
         AllDigits(t[|head|..|t| - 3])
      then
        var digits := t[|head|..|t| - 3];
        assert t == head + digits + "-->" by {
          assert t == t[..|head|] + t[|head|..|t| - 3] + t[|t| - 3..];
        }
        Some(digits)
      else None
  }

  /** A marker determines both its job identifier and its digits. */
  lemma MarkerInjective(j: string, d: string, k: string, e: string)
    requires |d| > 0 && AllDigits(d) && |e| > 0 && AllDigits(e)
    requires CorrelationMarker(j, d) == CorrelationMarker(k, e)
    ensures j == k && d == e
  {
    var u := j + "-" + d;
    var v := k + "-" + e;
    var m := CorrelationMarker(j, d);
    assert m == "<!--" + u + "-->";
    assert m == "<!--" + v + "-->";
    assert u == m[4..|m| - 3] == v;
    LastDash(j, d);
    LastDash(k, e);
    assert |j| == |k|;
    assert j == u[..|j|] && k == v[..|k|];
    assert d == u[|j| + 1..] && e == v[|k| + 1..];
  }

  /** In `j + "-" + d` with `d` made of digits, the last dash is the one after `j`. */
  lemma LastDash(j: string, d: string)
    requires AllDigits(d)
    ensures (j + "-" + d)[|j|] == '-'
    ensures forall p :: |j| < p < |j| + 1 + |d| ==> (j + "-" + d)[p] != '-'
  {
    forall p | |j| < p < |j| + 1 + |d|
      ensures (j + "-" + d)[p] != '-'
    {
      assert (j + "-" + d)[p] == d[p - |j| - 1];
    }
  }

  /** Round trip: a marker built from a job identifier and a non-empty digit string decodes
      to those digits under the same job identifier, and to nothing under any other. */
  lemma DecodeMarker(j: string, d: string, k: string)
    requires |d| > 0 && AllDigits(d)
    ensures DecodeRunId(Some(CorrelationMarker(j, d)), k) == if k == j then Some(d) else None
  {
    var t := CorrelationMarker(j, d);
    var r := DecodeRunId(Some(t), k);
    if k == j {
      var head := "<!--" + j + "-";
      assert t == head + d + "-->";
      assert t[..|head|] == head && t[|t| - 3..] == "-->" && t[|head|..|t| - 3] == d;
    } else if r.Some? {
      MarkerInjective(j, d, k, r.value);
    }
  }

  /** A text yields a run identifier exactly when the whole text is one marker for this
      job identifier with a non-empty digit string; anything before or after it, or a
      missing text, yields none. */
  lemma DecodeExactly(text: Option<string>, jobIdentifier: string)
    ensures DecodeRunId(text, jobIdentifier).Some? <==>
      exists d :: |d| > 0 && AllDigits(d) && text == Some(CorrelationMarker(jobIdentifier, d))
  {
    if exists d :: |d| > 0 && AllDigits(d) && text == Some(CorrelationMarker(jobIdentifier, d)) {
      var d :| |d| > 0 && AllDigits(d) && text == Some(CorrelationMarker(jobIdentifier, d));
      DecodeMarker(jobIdentifier, d, jobIdentifier);
    }
  }

  /** Decoded digits parse, through `parseInt(runId, 10)`, to the run identifier that
      `${runId}` rendered into the marker. */
  lemma DecodeRenderedRunId(j: string, runId: nat)
    ensures DecodeRunId(Some(CorrelationMarker(j, NatToString(runId))), j) == Some(NatToString(runId))
    ensures DigitsValue(NatToString(runId)) == runId
  {
    DecodeMarker(j, NatToString(runId), j);
    ParseRendered(runId);
  }

  /** The first job whose `check_run_url` equals `url`. */
  function FirstJobFor(jobs: seq<Job>, url: string): (r: Option<Job>)
    ensures r.Some? ==> r.value in jobs && r.value.checkRunUrl == url
    ensures r.None? <==> forall i :: 0 <= i < |jobs| ==> jobs[i].checkRunUrl != url
  {
    if |jobs| == 0 then None
    else if jobs[0].checkRunUrl == url then Some(jobs[0])
    else
      var r := FirstJobFor(jobs[1..], url);
      assert forall i :: 1 <= i < |jobs| ==> jobs[i] == jobs[1..][i - 1];
      r
  }

  /** Job `i` is the first of the listing whose `check_run_url` equals `url`. */
  predicate FirstWithUrl(jobs: seq<Job>, url: string, i: int) {
    0 <= i < |jobs| && jobs[i].checkRunUrl == url &&
    forall k :: 0 <= k < i ==> jobs[k].checkRunUrl != url
  }

  /** The job found is the first one with the url, in listing order. */
  lemma {:induction false} FirstJobForIsFirst(jobs: seq<Job>, url: string)
    ensures FirstJobFor(jobs, url).Some? ==>
      exists i :: FirstWithUrl(jobs, url, i) && FirstJobFor(jobs, url) == Some(jobs[i])
    ensures forall i :: FirstWithUrl(jobs, url, i) ==> FirstJobFor(jobs, url) == Some(jobs[i])
    decreases |jobs|
  {
    if |jobs| > 0 {
      if jobs[0].checkRunUrl == url {
        assert FirstWithUrl(jobs, url, 0);
      } else {
        FirstJobForIsFirst(jobs[1..], url);
        assert forall k :: 0 <= k < |jobs| - 1 ==> jobs[1..][k] == jobs[k + 1];
        forall i | FirstWithUrl(jobs, url, i)
          ensures FirstJobFor(jobs, url) == Some(jobs[i])
        {
          assert FirstWithUrl(jobs[1..], url, i - 1);
        }
        if FirstJobFor(jobs, url).Some? {
          var i :| FirstWithUrl(jobs[1..], url, i) && FirstJobFor(jobs[1..], url) == Some(jobs[1..][i]);
          assert FirstWithUrl(jobs, url, i + 1);
        }
      }
    }
  }

  /** What one check-run contributes to the scan. */
  datatype Step = Skip | Abort | Found(job: Job)

  /** The run identifier a check-run's marker names, if any. */
  function MarkedRunId(c: CheckRun, jobIdentifier: string): Option<nat> {
    match DecodeRunId(c.text, jobIdentifier)
    case None => None
    case Some(digits) => Some(DigitsValue(digits))
  }

  /** A check-run without a marker, or whose run has no job behind it, is skipped; a
      failing job listing aborts; otherwise the first job behind the check-run is found. */
  function CheckStep(c: CheckRun, jobIdentifier: string, jobsOf: JobLookup): Step {
    match MarkedRunId(c, jobIdentifier)
    case None => Skip
    case Some(runId) =>
      match jobsOf(runId)
      case None => Abort
      case Some(jobs) =>
        match FirstJobFor(jobs, c.url)
        case None => Skip
        case Some(job) => Found(job)
  }

  /** The decision a non-skipped step ends the scan with. */
  function StepDecision(step: Step): Decision {
    match step
    case Skip => NoAction
    case Abort => NoAction
    case Found(job) => if job.status != "completed" then NotCompleted(job.id) else Rerun(job.id)
  }

  /** The run identifier a check-run contributes to the listings, if its marker names one. */
  function ListedRunIds(c: CheckRun, jobIdentifier: string): seq<nat> {
    match MarkedRunId(c, jobIdentifier)
    case None => []
    case Some(runId) => [runId]
  }

  /** The search of `run`, check-runs in list order. */
  function ScanChecks(checks: seq<CheckRun>, jobIdentifier: string, jobsOf: JobLookup): Scan
    decreases |checks|
  {
    if |checks| == 0 then Scan(NoAction, [])
    else
      var step := CheckStep(checks[0], jobIdentifier, jobsOf);
      if step.Skip? then
        var rest := ScanChecks(checks[1..], jobIdentifier, jobsOf);
        Scan(rest.decision, ListedRunIds(checks[0], jobIdentifier) + rest.lookups)
      else Scan(StepDecision(step), ListedRunIds(checks[0], jobIdentifier))
  }

  /** Check-run `i` is the first that the scan does not skip. */
  predicate FirstDecisive(checks: seq<CheckRun>, jobIdentifier: string, jobsOf: JobLookup, i: int) {
    0 <= i < |checks| && !CheckStep(checks[i], jobIdentifier, jobsOf).Skip? &&
    forall k :: 0 <= k < i ==> CheckStep(checks[k], jobIdentifier, jobsOf).Skip?
  }

  /** The run identifiers the markers of `checks` name, one per marked check-run, in
      list order. */
  function MarkedIds(checks: seq<CheckRun>, jobIdentifier: string): seq<nat>
    decreases |checks|
  {
    if |checks| == 0 then []
    else ListedRunIds(checks[0], jobIdentifier) + MarkedIds(checks[1..], jobIdentifier)
  }

  /** Jobs are listed, in list order, exactly for the run identifiers named by the
      markers of the check-runs scanned: those up to and including the first decisive
      one, or all of them when none is decisive. */
  lemma {:induction false} LookupsExactly(checks: seq<CheckRun>, jobIdentifier: string, jobsOf: JobLookup)
    ensures forall i :: FirstDecisive(checks, jobIdentifier, jobsOf, i) ==>
      ScanChecks(checks, jobIdentifier, jobsOf).lookups == MarkedIds(checks[..i + 1], jobIdentifier)
    ensures (forall k :: 0 <= k < |checks| ==> CheckStep(checks[k], jobIdentifier, jobsOf).Skip?) ==>
      ScanChecks(checks, jobIdentifier, jobsOf).lookups == MarkedIds(checks, jobIdentifier)
    decreases |checks|
  {
    if |checks| > 0 {
      var s := ScanChecks(checks, jobIdentifier, jobsOf);
      var here := ListedRunIds(checks[0], jobIdentifier);
      if CheckStep(checks[0], jobIdentifier, jobsOf).Skip? {
        var rest := ScanChecks(checks[1..], jobIdentifier, jobsOf);
        LookupsExactly(checks[1..], jobIdentifier, jobsOf);
        assert s.lookups == here + rest.lookups;
        assert forall k :: 0 <= k < |checks| - 1 ==> checks[1..][k] == checks[k + 1];
        forall i | FirstDecisive(checks, jobIdentifier, jobsOf, i)
          ensures s.lookups == MarkedIds(checks[..i + 1], jobIdentifier)
        {
          assert FirstDecisive(checks[1..], jobIdentifier, jobsOf, i - 1);
          assert checks[..i + 1][1..] == checks[1..][..i];
        }
      } else {
        forall i | FirstDecisive(checks, jobIdentifier, jobsOf, i)
          ensures s.lookups == MarkedIds(checks[..i + 1], jobIdentifier)
        {
          assert i == 0;
          assert checks[..1][1..] == [];
        }
      }
    }
  }

  /** The scan stops at the first check-run that is not skipped, and its decision is
      that check-run's: nothing after a failed listing, nothing while the job is not
      completed, otherwise a rerun of exactly that job. */
  lemma {:induction false} ScanStopsAtFirst(checks: seq<CheckRun>, jobIdentifier: string, jobsOf: JobLookup, i: int)
    requires FirstDecisive(checks, jobIdentifier, jobsOf, i)
    ensures ScanChecks(checks, jobIdentifier, jobsOf).decision ==
      StepDecision(CheckStep(checks[i], jobIdentifier, jobsOf))
    decreases i
  {
    if i > 0 {
      assert forall k :: 0 <= k < i ==> checks[1..][k] == checks[k + 1];
      ScanStopsAtFirst(checks[1..], jobIdentifier, jobsOf, i - 1);
    }
  }

  /** When every check-run is skipped there is no rerun. */
  lemma {:induction false} ScanWithoutMatch(checks: seq<CheckRun>, jobIdentifier: string, jobsOf: JobLookup)
    requires forall k :: 0 <= k < |checks| ==> CheckStep(checks[k], jobIdentifier, jobsOf).Skip?
    ensures ScanChecks(checks, jobIdentifier, jobsOf).decision == NoAction
    decreases |checks|
  {
    if |checks| > 0 {
      assert forall k :: 0 <= k < |checks| - 1 ==> checks[1..][k] == checks[k + 1];
      ScanWithoutMatch(checks[1..], jobIdentifier, jobsOf);
    }
  }

  /** A rerun is issued only for the completed job found behind the first check-run that
      is not skipped. */
  lemma {:induction false} RerunOnlyOfFirstMatch(checks: seq<CheckRun>, jobIdentifier: string, jobsOf: JobLookup)
    requires ScanChecks(checks, jobIdentifier, jobsOf).decision.Rerun?
    ensures exists i :: (FirstDecisive(checks, jobIdentifier, jobsOf, i) &&
      CheckStep(checks[i], jobIdentifier, jobsOf) == Found(Job(
        ScanChecks(checks, jobIdentifier, jobsOf).decision.jobId,
        checks[i].url,
        "completed")))
    decreases |checks|
  {
    var step := CheckStep(checks[0], jobIdentifier, jobsOf);
    if step.Skip? {
      RerunOnlyOfFirstMatch(checks[1..], jobIdentifier, jobsOf);
      var i :| FirstDecisive(checks[1..], jobIdentifier, jobsOf, i) &&
        CheckStep(checks[1..][i], jobIdentifier, jobsOf) == Found(Job(
          ScanChecks(checks[1..], jobIdentifier, jobsOf).decision.jobId,
          checks[1..][i].url,
          "completed"));
      assert checks[i + 1] == checks[1..][i];
      forall k | 0 <= k < i + 1
        ensures CheckStep(checks[k], jobIdentifier, jobsOf).Skip?
      {
        if k > 0 {
          assert checks[k] == checks[1..][k - 1];
        }
      }
      assert FirstDecisive(checks, jobIdentifier, jobsOf, i + 1);
    } else {
      assert FirstDecisive(checks, jobIdentifier, jobsOf, 0);
    }
  }

  /** The inner loop of `run`: the first job of the listing whose `check_run_url` is the
      check-run's own url. */
  method FindJob(jobs: seq<Job>, url: string) returns (found: Option<Job>)
    ensures found == FirstJobFor(jobs, url)
    ensures found.None? <==> forall i :: 0 <= i < |jobs| ==> jobs[i].checkRunUrl != url
    ensures forall i :: FirstWithUrl(jobs, url, i) ==> found == Some(jobs[i])
  {
    FirstJobForIsFirst(jobs, url);
    var k := 0;
    while k < |jobs|
      invariant 0 <= k <= |jobs|
      invariant FirstJobFor(jobs, url) == FirstJobFor(jobs[k..], url)
    {
      assert jobs[k..][0] == jobs[k] && jobs[k..][1..] == jobs[k + 1..];
      if jobs[k].checkRunUrl == url {
        return Some(jobs[k]);
      }
      k := k + 1;
    }
    return None;
  }

  /** The body of the outer loop of `run` for one check-run: decode its marker, list the
      jobs of the run it names, and look for the job behind the check-run. */
  method ExamineCheck(check: CheckRun, jobIdentifier: string, jobsOf: JobLookup)
    returns (step: Step, listed: seq<nat>)
    ensures step == CheckStep(check, jobIdentifier, jobsOf)
    ensures listed == ListedRunIds(check, jobIdentifier)
  {
    var runId := DecodeRunId(check.text, jobIdentifier);
    if runId.None? {
      return Skip, [];
    }
    var id := DigitsValue(runId.value);
    var jobs := jobsOf(id);
    if jobs.None? {
      // the listing threw: the error is caught and only logged
      return Abort, [id];
    }
    var job := FindJob(jobs.value, check.url);
    if job.None? {
      return Skip, [id];
    }
    return Found(job.value), [id];
  }

  /** `run`: the loop over the check-runs of the ref, with its early returns. */
  method SelectRerun(checks: seq<CheckRun>, jobIdentifier: string, jobsOf: JobLookup)
    returns (decision: Decision, lookups: seq<nat>)
    ensures Scan(decision, lookups) == ScanChecks(checks, jobIdentifier, jobsOf)
  {
    lookups := [];
    var i := 0;
    while i < |checks|
      invariant 0 <= i <= |checks|
      invariant ScanChecks(checks, jobIdentifier, jobsOf) ==
        Scan(ScanChecks(checks[i..], jobIdentifier, jobsOf).decision,
             lookups + ScanChecks(checks[i..], jobIdentifier, jobsOf).lookups)
    {
      assert checks[i..][0] == checks[i] && checks[i..][1..] == checks[i + 1..];
      var step, listed := ExamineCheck(checks[i], jobIdentifier, jobsOf);
      if !step.Skip? {
        return StepDecision(step), lookups + listed;
      }
      SeqAssoc(lookups, listed, ScanChecks(checks[i + 1..], jobIdentifier, jobsOf).lookups);
      lookups := lookups + listed;
      i := i + 1;
    }
    decision := NoAction;
  }
}
