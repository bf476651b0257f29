/** The aggregation entry point (src/index.ts): poll the check-runs of a ref, pick the
    required ones, and report Waiting, Succeeded or Failed onto the caller's own
    check-run until a terminal outcome is reached. */
module Aggregate {
  import opened Seqs
  import opened Decimal
  import opened Checks

  /** A compiled `RegExp(`^${p}$`)` built from one line of the `checks` or
      `excludedChecks` input, seen only through its `test` on a check name. */
  type NamePattern = string -> bool

  datatype Config = Config(
    includes: seq<NamePattern>,    // input `checks`
    excludes: seq<NamePattern>,    // input `excludedChecks`
    self: string,                  // input `self`, "" when not given
    requiredStatus: seq<string>    // input `requiredStatus`: the accepted conclusions
  )

  /** The cached `selfId`: `undefined` before resolution, `null` when resolution
      found no run of that name, otherwise the identifier found. */
  datatype SelfId = Unresolved | Missing | Resolved(id: nat)

  /** The three outcomes of one poll, each with the status text it reports. */
  datatype Outcome = Waiting(status: string) | Succeeded(status: string) | Failed(status: string)

  /** Recorded effects: the self check-run update done by `setStatus`, and `setFailed`. */
  datatype Effect =
    | UpdateSelf(checkRunId: nat, title: string, summary: string)
    | SetFailed(message: string)

  // ---------------------------------------------------------------------------
  // The required set

  /** `regexes.some((regex) => regex.test(name))`. */
  predicate MatchesAny(patterns: seq<NamePattern>, name: string) {
    exists i :: 0 <= i < |patterns| && patterns[i](name)
  }

  /** Some run of the snapshot has the same name and a larger identifier. */
  predicate Superseded(runs: seq<CheckRun>, c: CheckRun) {
    exists i :: 0 <= i < |runs| && runs[i].name == c.name && runs[i].id > c.id
  }

  /** `check.id !== selfId` fails exactly when the self identifier was found and equals. */
  predicate IsSelf(selfId: SelfId, c: CheckRun) {
    selfId.Resolved? && selfId.id == c.id
  }

  /** The predicate passed to `filter` when computing `requiredChecks`. */
  predicate IsRequired(cfg: Config, runs: seq<CheckRun>, selfId: SelfId, c: CheckRun) {
    MatchesAny(cfg.includes, c.name) && !MatchesAny(cfg.excludes, c.name) &&
    !IsSelf(selfId, c) && !Superseded(runs, c)
  }

  /** The test passed to `filter` when computing `requiredChecks`. */
  function RequiredTest(cfg: Config, runs: seq<CheckRun>, selfId: SelfId): CheckRun -> bool {
    (c: CheckRun) => IsRequired(cfg, runs, selfId, c)
  }

  /** `requiredChecks`. */
  function Required(cfg: Config, runs: seq<CheckRun>, selfId: SelfId): seq<CheckRun> {
    Filter(runs, RequiredTest(cfg, runs, selfId))
  }

  /** The required runs keep their snapshot order, and each of them passes the test. */
  lemma RequiredInOrder(cfg: Config, runs: seq<CheckRun>, selfId: SelfId)
    ensures var req := Required(cfg, runs, selfId);
      SubsequenceOf(req, runs) &&
      forall i :: 0 <= i < |req| ==> req[i] in runs && IsRequired(cfg, runs, selfId, req[i])
  {
    FilterSubsequence(runs, RequiredTest(cfg, runs, selfId));
    FilterMembers(runs, RequiredTest(cfg, runs, selfId));
  }

  /** A run is required exactly when its name matches an include pattern and no exclude
      pattern, it is not the self check-run, and no run of its name has a larger id. */
  lemma RequiredExactly(cfg: Config, runs: seq<CheckRun>, selfId: SelfId, c: CheckRun)
    ensures c in Required(cfg, runs, selfId) <==>
      && c in runs
      && (exists i :: 0 <= i < |cfg.includes| && cfg.includes[i](c.name))
      && (forall j :: 0 <= j < |cfg.excludes| ==> !cfg.excludes[j](c.name))
      && (selfId.Resolved? ==> c.id != selfId.id)
      && (forall k :: 0 <= k < |runs| && runs[k].name == c.name ==> runs[k].id <= c.id)
  {
    var r := Required(cfg, runs, selfId);
    RequiredInOrder(cfg, runs, selfId);
    FilterMembers(runs, RequiredTest(cfg, runs, selfId));
    if c in r {
      var i :| 0 <= i < |r| && r[i] == c;
    }
    if c in runs {
      var i :| 0 <= i < |runs| && runs[i] == c;
    }
  }

  /** With no include pattern nothing is required. */
  lemma NoIncludesNothingRequired(cfg: Config, runs: seq<CheckRun>, selfId: SelfId)
    requires |cfg.includes| == 0
    ensures Required(cfg, runs, selfId) == []
  {
    FilterNone(runs, RequiredTest(cfg, runs, selfId));
  }

  /** A name matching an exclude pattern is never required, whatever the includes say. */
  lemma ExcludedNeverRequired(cfg: Config, runs: seq<CheckRun>, selfId: SelfId, c: CheckRun)
    requires MatchesAny(cfg.excludes, c.name)
    ensures c !in Required(cfg, runs, selfId)
  {
    RequiredExactly(cfg, runs, selfId, c);
  }

  /** Supersession: with unique identifiers, the required set holds at most one run per
      name, and that run carries the largest identifier among the runs of its name. */
  lemma {:induction false} OneRequiredPerName(cfg: Config, runs: seq<CheckRun>, selfId: SelfId)
    requires DistinctIds(runs)
    ensures var req := Required(cfg, runs, selfId);
      forall i, j :: 0 <= i < |req| && 0 <= j < |req| && req[i].name == req[j].name ==> i == j
    ensures var req := Required(cfg, runs, selfId);
      forall i, k :: 0 <= i < |req| && 0 <= k < |runs| && runs[k].name == req[i].name ==>
        runs[k].id <= req[i].id
  {
    var req := Required(cfg, runs, selfId);
    RequiredInOrder(cfg, runs, selfId);
    SubsequenceKeepsDistinctIds(req, runs);
    forall i, j | 0 <= i < |req| && 0 <= j < |req| && req[i].name == req[j].name
      ensures i == j
    {
      var a :| 0 <= a < |runs| && runs[a] == req[i];
      var b :| 0 <= b < |runs| && runs[b] == req[j];
      assert req[i].id == req[j].id;
    }
  }

  // ---------------------------------------------------------------------------
  // Classification and status text

  function IncompleteTest(): CheckRun -> bool {
    (c: CheckRun) => c.status != "completed"
  }

  /** `incompleteChecks`. */
  function Incomplete(req: seq<CheckRun>): seq<CheckRun> {
    Filter(req, IncompleteTest())
  }

  /** The incomplete runs are exactly the required runs whose status is not
      "completed", in required-set order. */
  lemma IncompleteExactly(req: seq<CheckRun>)
    ensures var r := Incomplete(req);
      && SubsequenceOf(r, req)
      && (forall i :: 0 <= i < |r| ==> r[i] in req && r[i].status != "completed")
      && (forall i :: 0 <= i < |req| && req[i].status != "completed" ==> req[i] in r)
  {
    FilterSubsequence(req, IncompleteTest());
    FilterMembers(req, IncompleteTest());
  }

  /** `requiredStatus.includes(check.conclusion ?? 'none')`. */
  predicate Accepted(requiredStatus: seq<string>, c: CheckRun) {
    c.conclusion.GetOr("none") in requiredStatus
  }

  function UnsuccessfulTest(requiredStatus: seq<string>): CheckRun -> bool {
    (c: CheckRun) => !Accepted(requiredStatus, c)
  }

  /** `unsuccessfulChecks`. */
  function Unsuccessful(requiredStatus: seq<string>, req: seq<CheckRun>): seq<CheckRun> {
    Filter(req, UnsuccessfulTest(requiredStatus))
  }

  /** The unsuccessful runs are exactly the required runs whose conclusion (a missing
      one read as "none") is not accepted, in required-set order. */
  lemma UnsuccessfulExactly(requiredStatus: seq<string>, req: seq<CheckRun>)
    ensures var r := Unsuccessful(requiredStatus, req);
      && SubsequenceOf(r, req)
      && (forall i :: 0 <= i < |r| ==> r[i] in req && !Accepted(requiredStatus, r[i]))
      && (forall i :: 0 <= i < |req| && !Accepted(requiredStatus, req[i]) ==> req[i] in r)
  {
    FilterSubsequence(req, UnsuccessfulTest(requiredStatus));
    FilterMembers(req, UnsuccessfulTest(requiredStatus));
  }

  /** `map((check) => check.name)`. */
  function Names(runs: seq<CheckRun>): seq<string> {
    seq(|runs|, i requires 0 <= i < |runs| => runs[i].name)
  }

  const SucceededText := " checks completed successfully"
  const FailedText := " checks failed: "
  const WaitingText := " waiting for: "

  /** `${n}/${n} checks completed successfully`. */
  function SuccessMessage(total: nat): string {
    NatToString(total) + "/" + NatToString(total) + SucceededText
  }

  /** `${k}/${n} checks failed: ` and the failed names joined by ", ". */
  function FailureMessage(failed: seq<CheckRun>, total: nat): string {
    NatToString(|failed|) + "/" + NatToString(total) + FailedText + Join(Names(failed), ", ")
  }

  /** `${n - m}/${n} waiting for: ` and the incomplete names joined by ", ". */
  function WaitingMessage(done: nat, total: nat, incomplete: seq<CheckRun>): string {
    NatToString(done) + "/" + NatToString(total) + WaitingText + Join(Names(incomplete), ", ")
  }

  /** One poll of one snapshot, with the self identifier already settled. */
  function Tick(cfg: Config, runs: seq<CheckRun>, selfId: SelfId): Outcome {
    var req := Required(cfg, runs, selfId);
    var incomplete := Incomplete(req);
    if |incomplete| == 0 then
      var unsuccessful := Unsuccessful(cfg.requiredStatus, req);
      if |unsuccessful| == 0 then Succeeded(SuccessMessage(|req|))
      else Failed(FailureMessage(unsuccessful, |req|))
    else
      Waiting(WaitingMessage(|req| - |incomplete|, |req|, incomplete))
  }

  /** A poll is Waiting exactly when some required run is not completed. */
  lemma TickWaitingExactly(cfg: Config, runs: seq<CheckRun>, selfId: SelfId)
    ensures var req := Required(cfg, runs, selfId);
      Tick(cfg, runs, selfId).Waiting? <==> exists i :: 0 <= i < |req| && req[i].status != "completed"
  {
    var req := Required(cfg, runs, selfId);
    var incomplete := Incomplete(req);
    IncompleteExactly(req);
    if |incomplete| > 0 {
      assert incomplete[0] in req;
    }
  }

  /** A poll Succeeds exactly when every required run completed with an accepted
      conclusion (a missing conclusion read as "none"); otherwise, with nothing
      incomplete, it Fails. */
  lemma TickSucceededExactly(cfg: Config, runs: seq<CheckRun>, selfId: SelfId)
    ensures var req := Required(cfg, runs, selfId);
      Tick(cfg, runs, selfId).Succeeded? <==>
        forall i :: 0 <= i < |req| ==> req[i].status == "completed" && Accepted(cfg.requiredStatus, req[i])
  {
    var req := Required(cfg, runs, selfId);
    var incomplete := Incomplete(req);
    var unsuccessful := Unsuccessful(cfg.requiredStatus, req);
    IncompleteExactly(req);
    UnsuccessfulExactly(cfg.requiredStatus, req);
    if |incomplete| > 0 {
      assert incomplete[0] in req;
    } else if |unsuccessful| > 0 {
      assert unsuccessful[0] in req;
    }
  }

  /** The status text of each outcome: "n/n checks completed successfully",
      "k/n checks failed: <failed names>" with 0 < k <= n, and
      "(n - m)/n waiting for: <incomplete names>" with 0 < m <= n, the names joined
      by ", " in snapshot order. */
  lemma TickStatusText(cfg: Config, runs: seq<CheckRun>, selfId: SelfId)
    ensures var req := Required(cfg, runs, selfId); var o := Tick(cfg, runs, selfId);
      o.Succeeded? ==> o.status == SuccessMessage(|req|)
    ensures var req := Required(cfg, runs, selfId); var o := Tick(cfg, runs, selfId);
      var failed := Unsuccessful(cfg.requiredStatus, req);
      o.Failed? ==> 0 < |failed| <= |req| && o.status == FailureMessage(failed, |req|)
    ensures var req := Required(cfg, runs, selfId); var o := Tick(cfg, runs, selfId);
      var waiting := Incomplete(req);
      o.Waiting? ==> 0 < |waiting| <= |req| && o.status == WaitingMessage(|req| - |waiting|, |req|, waiting)
  {
  }

  /** An empty required set succeeds on the spot with "0/0 checks completed successfully". */
  lemma NothingRequiredSucceeds(cfg: Config, runs: seq<CheckRun>, selfId: SelfId)
    requires Required(cfg, runs, selfId) == []
    ensures Tick(cfg, runs, selfId) == Succeeded("0/0" + SucceededText)
  {
    assert NatToString(0) + "/" + NatToString(0) == "0/0";
  }

  /** `allSummaries`: the required runs' summaries, a missing one read as "", concatenated. */
  function AllSummaries(req: seq<CheckRun>): (r: string)
    decreases |req|
  {
    if |req| == 0 then "" else req[0].summary.GetOr("") + AllSummaries(req[1..])
  }

  /** Concatenation distributes over splitting the required list. */
  lemma {:induction false} AllSummariesSplit(a: seq<CheckRun>, b: seq<CheckRun>)
    ensures AllSummaries(a + b) == AllSummaries(a) + AllSummaries(b)
    decreases |a|
  {
    if |a| > 0 {
      assert (a + b)[1..] == a[1..] + b;
      AllSummariesSplit(a[1..], b);
    } else {
      assert a + b == b;
    }
  }

  /** Each required run's summary sits between those of the runs before and after it. */
  lemma SummaryInPlace(req: seq<CheckRun>, i: nat)
    requires i < |req|
    ensures AllSummaries(req) ==
      AllSummaries(req[..i]) + req[i].summary.GetOr("") + AllSummaries(req[i + 1..])
  {
    assert req == req[..i] + req[i..];
    AllSummariesSplit(req[..i], req[i..]);
    assert req[i..][1..] == req[i + 1..];
  }

  /** What `setStatus` and `setFailed` do for one outcome. */
  function TickEffects(selfId: SelfId, o: Outcome, summaries: string): seq<Effect> {
    (if selfId.Resolved? then [UpdateSelf(selfId.id, o.status, summaries)] else []) +
    (if o.Failed? then [SetFailed(o.status)] else [])
  }

  /** The self check-run is updated, with the status text as title and all summaries as
      summary, exactly when its identifier was found, and always before any failure
      signal; `setFailed` is called, with the same status text, exactly on Failed. */
  lemma TickEffectsReport(selfId: SelfId, o: Outcome, summaries: string)
    ensures var effects := TickEffects(selfId, o, summaries);
      forall i :: 0 <= i < |effects| && effects[i].UpdateSelf? ==>
        i == 0 && selfId == Resolved(effects[i].checkRunId) &&
        effects[i].title == o.status && effects[i].summary == summaries
    ensures var effects := TickEffects(selfId, o, summaries);
      selfId.Resolved? <==> |effects| > 0 && effects[0].UpdateSelf?
    ensures var effects := TickEffects(selfId, o, summaries);
      forall i :: 0 <= i < |effects| && effects[i].SetFailed? ==>
        i == |effects| - 1 && effects[i].message == o.status
    ensures var effects := TickEffects(selfId, o, summaries);
      o.Failed? <==> |effects| > 0 && effects[|effects| - 1].SetFailed?
  {
  }

  // ---------------------------------------------------------------------------
  // Self identifier

  /** The self identifier after the resolution step at the top of a poll: resolved only
      while still `undefined` and when a self name is configured, from the first run
      carrying that exact name, and `null` when there is none. */
  function NextSelfId(s: SelfId, self: string, runs: seq<CheckRun>): SelfId {
    if s.Unresolved? && self != "" then
      var named := SelfChecks(runs, self);
      if |named| == 0 then Missing else Resolved(named[0].id)
    else s
  }

  /** Resolution is attempted only while unresolved and with a self name configured; it
      then yields the identifier of the first run whose name is exactly the self name,
      or `null` (Missing) when no run has that name. */
  lemma SelfIdResolution(s: SelfId, self: string, runs: seq<CheckRun>)
    ensures var r := NextSelfId(s, self, runs);
      !(s.Unresolved? && self != "") ==> r == s
    ensures var r := NextSelfId(s, self, runs);
      s.Unresolved? && self != "" ==>
        && !r.Unresolved?
        && (r.Missing? <==> forall i :: 0 <= i < |runs| ==> runs[i].name != self)
        && (r.Resolved? ==> exists i :: FirstNamed(runs, self, i) && runs[i].id == r.id)
  {
    SelfChecksFirst(runs, self);
  }

  /** Resolution happens once: a second resolution step, on any snapshot, changes nothing. */
  lemma ResolvedOnce(s: SelfId, self: string, first: seq<CheckRun>, later: seq<CheckRun>)
    ensures var r := NextSelfId(s, self, first); NextSelfId(r, self, later) == r
  {
  }

  // ---------------------------------------------------------------------------
  // The polling loop

  /** How a bounded run of the loop ends: with a terminal outcome, aborted by a failed
      listing, or with the host's bound on polls used up while still waiting. */
  datatype RunEnd = Finished(outcome: Outcome) | Aborted(message: string) | OutOfPolls

  datatype Trace = Trace(ending: RunEnd, selfId: SelfId, polls: nat, effects: seq<Effect>)

  /** One poll: settle the self identifier, then compute the outcome and its effects. */
  function PollSpec(cfg: Config, s: SelfId, runs: seq<CheckRun>): (Outcome, SelfId, seq<Effect>) {
    var s' := NextSelfId(s, cfg.self, runs);
    var o := Tick(cfg, runs, s');
    (o, s', TickEffects(s', o, AllSummaries(Required(cfg, runs, s'))))
  }

  /** A trace preceded by one more Waiting poll with the given effects. */
  function After(effects: seq<Effect>, t: Trace): Trace {
    t.(polls := t.polls + 1, effects := effects + t.effects)
  }

  /** A trace that resumes after `polls` polls which produced `effects`. */
  function Resume(polls: nat, effects: seq<Effect>, t: Trace): Trace {
    t.(polls := polls + t.polls, effects := effects + t.effects)
  }

  /** The `while (true)` loop of `run`, bounded by the list of fetch results it sees. */
  function RunFrom(cfg: Config, s: SelfId, fetches: seq<Fetch>): Trace
    decreases |fetches|
  {
    if |fetches| == 0 then Trace(OutOfPolls, s, 0, [])
    else if fetches[0].ListFailed? then
      Trace(Aborted(fetches[0].message), s, 1, [SetFailed(fetches[0].message)])
    else
      var poll := PollSpec(cfg, s, fetches[0].runs);
      if poll.0.Waiting? then After(poll.2, RunFrom(cfg, poll.1, fetches[1..]))
      else Trace(Finished(poll.0), poll.1, 1, poll.2)
  }

  /** The loop never polls more than the bound allows, uses the whole bound only when
      every poll was Waiting, and finishes only on a terminal outcome. */
  lemma {:induction false} RunBounded(cfg: Config, s: SelfId, fetches: seq<Fetch>)
    ensures var t := RunFrom(cfg, s, fetches);
      && t.polls <= |fetches|
      && (t.ending.OutOfPolls? ==> t.polls == |fetches|)
      && (t.ending.Finished? ==> !t.ending.outcome.Waiting?)
      && (!t.ending.OutOfPolls? ==> t.polls > 0)
    decreases |fetches|
  {
    if |fetches| > 0 && fetches[0].Listed? {
      var poll := PollSpec(cfg, s, fetches[0].runs);
      if poll.0.Waiting? {
        RunBounded(cfg, poll.1, fetches[1..]);
      }
    }
  }

  /** The loop goes on past a poll only when that poll was Waiting. */
  lemma ContinuesOnlyWhileWaiting(cfg: Config, s: SelfId, fetches: seq<Fetch>)
    requires RunFrom(cfg, s, fetches).polls > 1
    ensures fetches[0].Listed? && PollSpec(cfg, s, fetches[0].runs).0.Waiting?
  {
  }

  /** An empty required set on the first poll ends the loop at once as Succeeded with
      "0/0 checks completed successfully". */
  lemma NothingRequiredStopsAtOnce(cfg: Config, s: SelfId, fetches: seq<Fetch>)
    requires |fetches| > 0 && fetches[0].Listed?
    requires Required(cfg, fetches[0].runs, NextSelfId(s, cfg.self, fetches[0].runs)) == []
    ensures RunFrom(cfg, s, fetches).ending == Finished(Succeeded("0/0" + SucceededText))
    ensures RunFrom(cfg, s, fetches).polls == 1
  {
    NothingRequiredSucceeds(cfg, fetches[0].runs, NextSelfId(s, cfg.self, fetches[0].runs));
  }

  /** Once settled, the self identifier never changes again for the rest of the run. */
  lemma {:induction false} SettledSelfIdKept(cfg: Config, s: SelfId, fetches: seq<Fetch>)
    requires !(s.Unresolved? && cfg.self != "")
    ensures RunFrom(cfg, s, fetches).selfId == s
    decreases |fetches|
  {
    if |fetches| > 0 && fetches[0].Listed? {
      var poll := PollSpec(cfg, s, fetches[0].runs);
      if poll.0.Waiting? {
        SettledSelfIdKept(cfg, poll.1, fetches[1..]);
      }
    }
  }

  /** The self identifier of a whole run is decided by the first successful listing:
      it is never retried, even when that listing had no run of the self name. */
  lemma SelfIdFromFirstListing(cfg: Config, fetches: seq<Fetch>)
    requires |fetches| > 0 && fetches[0].Listed?
    ensures RunFrom(cfg, Unresolved, fetches).selfId == NextSelfId(Unresolved, cfg.self, fetches[0].runs)
  {
    var s' := NextSelfId(Unresolved, cfg.self, fetches[0].runs);
    SettledSelfIdKept(cfg, s', fetches[1..]);
  }

  /** A Failed poll's effects end with `setFailed` carrying the failure text. */
  lemma FailedPollSignalsFailure(cfg: Config, s: SelfId, runs: seq<CheckRun>)
    requires PollSpec(cfg, s, runs).0.Failed?
    ensures var poll := PollSpec(cfg, s, runs);
      |poll.2| > 0 && poll.2[|poll.2| - 1] == SetFailed(poll.0.status)
  {
    var poll := PollSpec(cfg, s, runs);
    TickEffectsReport(poll.1, poll.0, AllSummaries(Required(cfg, runs, poll.1)));
  }

  /** Effects of an earlier Waiting poll do not move the failure signal off the end. */
  lemma FailureSignalKept(effects: seq<Effect>, next: Trace)
    requires next.ending.Finished? && next.ending.outcome.Failed?
    requires |next.effects| > 0 && next.effects[|next.effects| - 1] == SetFailed(next.ending.outcome.status)
    ensures var t := After(effects, next);
      |t.effects| > 0 && t.effects[|t.effects| - 1] == SetFailed(t.ending.outcome.status)
  {
    LastOfConcat(effects, next.effects);
  }

  /** A run that finished began with a successful listing. */
  lemma FinishedAfterListing(cfg: Config, s: SelfId, fetches: seq<Fetch>)
    requires RunFrom(cfg, s, fetches).ending.Finished?
    ensures |fetches| > 0 && fetches[0].Listed?
  {
  }

  /** A run that ends Failed reports the failure text last, through `setFailed`. */
  lemma {:induction false} FailedRunSignalsFailure(cfg: Config, s: SelfId, fetches: seq<Fetch>)
    requires RunFrom(cfg, s, fetches).ending.Finished? && RunFrom(cfg, s, fetches).ending.outcome.Failed?
    ensures var t := RunFrom(cfg, s, fetches);
      |t.effects| > 0 && t.effects[|t.effects| - 1] == SetFailed(t.ending.outcome.status)
    decreases |fetches|
  {
    FinishedAfterListing(cfg, s, fetches);
    var t := RunFrom(cfg, s, fetches);
    var poll := PollSpec(cfg, s, fetches[0].runs);
    if poll.0.Waiting? {
      var next := RunFrom(cfg, poll.1, fetches[1..]);
      assert t == After(poll.2, next);
      FailedRunSignalsFailure(cfg, poll.1, fetches[1..]);
      FailureSignalKept(poll.2, next);
    } else {
      assert t == Trace(Finished(poll.0), poll.1, 1, poll.2);
      FailedPollSignalsFailure(cfg, s, fetches[0].runs);
    }
  }

  /** A listing on which the loop went on: it succeeded and its outcome, under the run's
      self identifier, was Waiting. */
  predicate WaitedOn(cfg: Config, f: Fetch, selfId: SelfId) {
    f.Listed? && Tick(cfg, f.runs, selfId).Waiting?
  }

  /** Every poll before the last was a successful listing whose outcome was Waiting, and a
      run that used up its bound was Waiting on every listing. */
  lemma {:induction false} RunWaitsBeforeLast(cfg: Config, s: SelfId, fetches: seq<Fetch>)
    ensures var t := RunFrom(cfg, s, fetches);
      t.polls <= |fetches| && forall j :: 0 <= j < t.polls - 1 ==> WaitedOn(cfg, fetches[j], t.selfId)
    ensures var t := RunFrom(cfg, s, fetches);
      t.ending.OutOfPolls? ==> forall j :: 0 <= j < |fetches| ==> WaitedOn(cfg, fetches[j], t.selfId)
    decreases |fetches|
  {
    RunBounded(cfg, s, fetches);
    if |fetches| > 0 && fetches[0].Listed? {
      var t := RunFrom(cfg, s, fetches);
      var poll := PollSpec(cfg, s, fetches[0].runs);
      if poll.0.Waiting? {
        var rest := fetches[1..];
        var t' := RunFrom(cfg, poll.1, rest);
        RunWaitsBeforeLast(cfg, poll.1, rest);
        SettledSelfIdKept(cfg, poll.1, rest);
        assert t == After(poll.2, t');
        assert WaitedOn(cfg, fetches[0], t.selfId);
        assert forall j :: 0 < j < |fetches| ==> fetches[j] == rest[j - 1];
      }
    }
  }

  /** A finished run ends with the outcome of its last listing, under the run's self
      identifier; an aborted run ends on a failed listing with that failure's message. */
  lemma {:induction false} RunEndsOnLastListing(cfg: Config, s: SelfId, fetches: seq<Fetch>)
    ensures var t := RunFrom(cfg, s, fetches);
      t.ending.Finished? ==>
        && 0 < t.polls <= |fetches|
        && fetches[t.polls - 1].Listed?
        && t.ending.outcome == Tick(cfg, fetches[t.polls - 1].runs, t.selfId)
    ensures var t := RunFrom(cfg, s, fetches);
      t.ending.Aborted? ==> 0 < t.polls <= |fetches| && fetches[t.polls - 1] == ListFailed(t.ending.message)
    decreases |fetches|
  {
    RunBounded(cfg, s, fetches);
    if |fetches| > 0 && fetches[0].Listed? {
      var t := RunFrom(cfg, s, fetches);
      var poll := PollSpec(cfg, s, fetches[0].runs);
      if poll.0.Waiting? {
        var rest := fetches[1..];
        var t' := RunFrom(cfg, poll.1, rest);
        RunEndsOnLastListing(cfg, poll.1, rest);
        RunBounded(cfg, poll.1, rest);
        assert t == After(poll.2, t');
        if !t.ending.OutOfPolls? {
          assert fetches[t.polls - 1] == rest[t'.polls - 1];
        }
      }
    }
  }

  /** The state `run` keeps across iterations of its loop. */
  class Poller {
    const cfg: Config
    var selfId: SelfId
    var effects: seq<Effect>

    constructor (cfg: Config)
      ensures this.cfg == cfg && selfId == Unresolved && effects == []
    {
      this.cfg := cfg;
      selfId := Unresolved;
      effects := [];
    }

    /** One iteration of the loop body on a successful listing. */
    method Poll(runs: seq<CheckRun>) returns (outcome: Outcome)
      modifies this
      ensures selfId == NextSelfId(old(selfId), cfg.self, runs)
      ensures outcome == Tick(cfg, runs, selfId)
      ensures effects == old(effects) + TickEffects(selfId, outcome, AllSummaries(Required(cfg, runs, selfId)))
    {
      if selfId.Unresolved? && cfg.self != "" {
        var named := SelfChecks(runs, cfg.self);
        if |named| == 0 {
          selfId := Missing;
        } else {
          selfId := Resolved(named[0].id);
        }
      }
      var required := Required(cfg, runs, selfId);
      var summaries := AllSummaries(required);
      outcome := Tick(cfg, runs, selfId);
      effects := effects + TickEffects(selfId, outcome, summaries);
    }

    /** `run`: poll until a terminal outcome, a failed listing, or the end of `fetches`. */
    method Run(fetches: seq<Fetch>) returns (ending: RunEnd, polls: nat)
      modifies this
      ensures var t := RunFrom(cfg, old(selfId), fetches);
        ending == t.ending && polls == t.polls && selfId == t.selfId &&
        effects == old(effects) + t.effects
    {
      ghost var whole := RunFrom(cfg, selfId, fetches);
      ghost var done: seq<Effect> := [];
      polls := 0;
      while polls < |fetches|
        invariant polls <= |fetches|
        invariant effects == old(effects) + done
        invariant whole == Resume(polls, done, RunFrom(cfg, selfId, fetches[polls..]))
      {
        ghost var rest := fetches[polls..];
        ghost var t := RunFrom(cfg, selfId, rest);
        assert rest[0] == fetches[polls] && rest[1..] == fetches[polls + 1..];
        match fetches[polls]
        case ListFailed(m) =>
          assert t == Trace(Aborted(m), selfId, 1, [SetFailed(m)]);
          SeqAssoc(old(effects), done, [SetFailed(m)]);
          effects := effects + [SetFailed(m)];
          done := done + [SetFailed(m)];
          ending := Aborted(m);
          polls := polls + 1;
          return;
        case Listed(runs) =>
          ghost var s := selfId;
          var outcome := Poll(runs);
          ghost var step := TickEffects(selfId, outcome, AllSummaries(Required(cfg, runs, selfId)));
          assert PollSpec(cfg, s, runs) == (outcome, selfId, step);
          ghost var next := RunFrom(cfg, selfId, fetches[polls + 1..]);
          SeqAssoc(old(effects), done, step);
          if !outcome.Waiting? {
            assert t == Trace(Finished(outcome), selfId, 1, step);
            done := done + step;
            polls := polls + 1;
            ending := Finished(outcome);
            return;
          }
          assert t == After(step, next);
          SeqAssoc(done, step, next.effects);
          done := done + step;
          polls := polls + 1;
      }
      ending := OutOfPolls;
    }
  }
}
