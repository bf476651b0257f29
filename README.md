# bugroup-checks in Dafny

bugroup-checks is a GitHub Action with three entry points.

- **Aggregation** (`src/index.ts`) polls the check-runs of a ref. It picks the *required* runs: the name matches an include pattern and no exclude pattern, the run is not the caller's own ("self") check-run, and no run of the same name has a larger identifier. It reports Waiting, Succeeded or Failed onto the self check-run, and keeps polling while anything required is incomplete.
- **Rerun** (`src/rerun.ts`) finds the check-run whose `output.text` is a correlation marker `<!--J-<run id>-->`. It lists that workflow run's jobs and finds the job behind the check-run. It reruns that job only if the job has completed; otherwise it stops without action.
- **Flag** (`src/flag.ts`) appends `<!--BUGROUP_CHECKS_FLAG-<flag>-->` to the `external_id` of the self check-run.

The model keeps each entry point's decisions. It treats the GitHub API as inputs (the listings) and outputs (recorded effects or a returned request).

Files and modules:

- `seqs.dfy` (`Seqs`): `Option`, and JavaScript's `filter` as `Filter` with its membership, order and first-element lemmas. It also has `join` and `SubsequenceOf`.
- `decimal.dfy` (`Decimal`): `${n}` for counts and identifiers, and `parseInt(s, 10)` on digit strings.
- `checks.dfy` (`Checks`): the check-run record, a listing result (`Fetch`), and the self-name selection shared by `index.ts` and `flag.ts`.
- `aggregate.dfy` (`Aggregate`): `src/index.ts`. One poll is the pure function `Tick` of a snapshot and the settled self identifier. The `while (true)` loop is the class `Poller`:
  - its `selfId` field is the `let selfId` of the source, which is `undefined`, `null` or a number;
  - its `effects` field records the `checks.update` and `setFailed` calls;
  - its `Run` method loops over a finite list of listing results, proved against the recursive specification `RunFrom`.
- `rerun.dfy` (`Rerun`): `src/rerun.ts`.
  - The anchored decoder `DecodeRunId`.
  - The first-match search specification `ScanChecks`.
  - The imperative methods `SelectRerun`, `ExamineCheck` and `FindJob`, which are the loops of `run`. They are proved equal to the specification.
  - Job listing is a function parameter `nat -> Option<seq<Job>>`, where `None` means the call threw.
- `flag.dfy` (`Flag`): `src/flag.ts`. It covers the update request, the new `external_id`, and the effect of the update on the listing.

## Model

| member | source | states |
|---|---|---|
| Seqs.Join | src/index.ts:70 | specification function: `join(', ')` of the failed or incomplete names inside the status text (also line 80) |
| Seqs.FilterSubsequence | src/index.ts:49-55 | `filter` keeps its elements in their original order |
| Seqs.FilterMembers | src/index.ts:49-55 | `filter` keeps an element exactly when it is in the list and passes the test |
| Seqs.FilterHead | src/flag.ts:14 | the first element of a filter is the first element of the list that passes the test; the filter is empty exactly when none passes |
| Decimal.NatToString | src/index.ts:65 | `${n}` is a non-empty string of ASCII digits with no leading zero unless it is "0" |
| Decimal.DigitsValue | src/rerun.ts:17 | specification function: `parseInt(runId, 10)` on a digit string; its meaning is proved by ParseRendered and RenderParsed |
| Decimal.ParseRendered | src/rerun.ts:17 | `parseInt` of the decimal rendering of `n` gives back `n` |
| Decimal.RenderParsed | src/rerun.ts:14-17 | a digit string without a superfluous leading zero is the rendering of its parsed value |
| Checks.SelfChecks | src/flag.ts:14 | specification function: the runs named exactly `self`, also used at src/index.ts:40; its meaning is proved by SelfChecksFirst |
| Checks.SelfChecksFirst | src/flag.ts:14-21 | the self-named runs are empty exactly when no run carries the name, otherwise their head is the first run with exactly that name |
| Checks.SubsequenceKeepsDistinctIds | src/index.ts:49 | a filtered listing keeps identifiers unique |
| Aggregate.Required | src/index.ts:49-55 | specification function: `requiredChecks`; its meaning is proved by RequiredInOrder, RequiredExactly and OneRequiredPerName |
| Aggregate.AllSummaries | src/index.ts:58 | specification function: `allSummaries`; its meaning is proved by AllSummariesSplit and SummaryInPlace |
| Aggregate.Incomplete | src/index.ts:59 | specification function: `incompleteChecks`; its meaning is proved by IncompleteExactly |
| Aggregate.Unsuccessful | src/index.ts:62 | specification function: `unsuccessfulChecks`; its meaning is proved by UnsuccessfulExactly |
| Aggregate.SuccessMessage | src/index.ts:65 | specification function: the success template; TickStatusText and NothingRequiredSucceeds state where it is used |
| Aggregate.FailureMessage | src/index.ts:70 | specification function: the failure template, also passed to `setFailed` on line 74; TickStatusText and TickEffectsReport state where it is used |
| Aggregate.WaitingMessage | src/index.ts:80 | specification function: the waiting template; TickStatusText states where it is used |
| Aggregate.Tick | src/index.ts:59-80 | specification function: one poll's outcome and status text; its meaning is proved by TickWaitingExactly, TickSucceededExactly and TickStatusText |
| Aggregate.TickEffects | src/index.ts:4-20 | specification function: the `setStatus` update, made only when the self id is not null (line 7), and the `setFailed` call of line 74; its meaning is proved by TickEffectsReport |
| Aggregate.NextSelfId | src/index.ts:37-47 | specification function: the self id after the resolution step; its meaning is proved by SelfIdResolution and ResolvedOnce |
| Aggregate.PollSpec | src/index.ts:37-83 | specification function: one loop body, with self-id resolution, outcome and effects; Poller.Poll is proved to implement it |
| Aggregate.RunFrom | src/index.ts:32-85 | specification function: the whole polling loop over a bounded list of listings; its meaning is proved by RunBounded, RunWaitsBeforeLast, RunEndsOnLastListing, SettledSelfIdKept and FailedRunSignalsFailure |
| Aggregate.RequiredInOrder | src/index.ts:49-55 | the required set is an order-preserving subsequence of `check_runs`, each member passing the filter |
| Aggregate.RequiredExactly | src/index.ts:49-55 | a run is required iff it is listed, matches an include pattern, matches no exclude pattern, is not the resolved self id, and no same-named run has a larger id |
| Aggregate.NoIncludesNothingRequired | src/index.ts:49-51 | with no include pattern the required set is empty |
| Aggregate.ExcludedNeverRequired | src/index.ts:52 | a name matching an exclude pattern is never required |
| Aggregate.OneRequiredPerName | src/index.ts:54 | with unique ids, at most one required run per name, carrying the largest id of that name in the snapshot |
| Aggregate.IncompleteExactly | src/index.ts:59 | the incomplete runs are exactly the required runs with status other than "completed", in order |
| Aggregate.UnsuccessfulExactly | src/index.ts:62 | the unsuccessful runs are exactly the required runs whose conclusion (null read as "none") is not accepted, in order |
| Aggregate.TickWaitingExactly | src/index.ts:59-61 | a poll is Waiting iff some required run is not completed |
| Aggregate.TickSucceededExactly | src/index.ts:61-66 | a poll Succeeds iff every required run completed with an accepted conclusion |
| Aggregate.TickStatusText | src/index.ts:61-80 | the exact status text of each outcome, with 0 < failed <= n and 0 < incomplete <= n |
| Aggregate.NothingRequiredSucceeds | src/index.ts:61-66 | an empty required set succeeds with "0/0 checks completed successfully" |
| Aggregate.AllSummariesSplit | src/index.ts:58 | the summaries concatenation distributes over splitting the required list |
| Aggregate.SummaryInPlace | src/index.ts:58 | each required run's summary (missing read as "") sits in required-set order |
| Aggregate.TickEffectsReport | src/index.ts:65-75 | the self update, titled with the status and carrying all summaries, happens iff the self id is resolved, and comes first; `setFailed` with the same text happens iff Failed, and comes last |
| Aggregate.SelfIdResolution | src/index.ts:37-47 | resolution runs only while undefined and with a non-empty self name; it yields the first exact-name run's id, or null when there is none |
| Aggregate.ResolvedOnce | src/index.ts:30-47 | a second resolution step changes nothing |
| Aggregate.RunBounded | src/index.ts:32-85 | the loop never polls more than the bound, runs out of polls only after using the whole bound, finishes only on a terminal outcome, and polls at least once unless it runs out |
| Aggregate.RunWaitsBeforeLast | src/index.ts:61-84 | every poll before the last was a successful listing whose outcome was Waiting, and a run that used up its bound was Waiting on every listing |
| Aggregate.RunEndsOnLastListing | src/index.ts:61-88 | a finished run ends with the outcome of its last listing under the run's self id; an aborted run ends on a failed listing with that failure's message |
| Aggregate.ContinuesOnlyWhileWaiting | src/index.ts:61-84 | a run that polls more than once had a successful first listing whose poll was Waiting |
| Aggregate.NothingRequiredStopsAtOnce | src/index.ts:61-66 | an empty required set on the first poll ends the run after one poll with "0/0 checks completed successfully" |
| Aggregate.SettledSelfIdKept | src/index.ts:37 | a settled self id stays unchanged for the rest of the run |
| Aggregate.SelfIdFromFirstListing | src/index.ts:30-47 | the self id of a whole run is the one resolved from the first listing, never retried |
| Aggregate.FailedPollSignalsFailure | src/index.ts:68-75 | a Failed poll's effects end with `setFailed` carrying the failure text |
| Aggregate.FailedRunSignalsFailure | src/index.ts:68-75 | a run ending Failed records `setFailed` with the failure text as its last effect |
| Aggregate.Poller.constructor | src/index.ts:30 | the self id starts undefined and no effect is recorded |
| Aggregate.Poller.Poll | src/index.ts:33-83 | one loop body: the new self id, the outcome of `Tick`, and the effects appended |
| Aggregate.Poller.Run | src/index.ts:22-91 | the loop ends, polls and records exactly as `RunFrom` says, with a failed listing aborting through `setFailed` |
| Rerun.MarkedRunId | src/rerun.ts:14-17 | specification function: the run id `parseInt` reads from a check-run's marker; DecodeExactly and DecodeRenderedRunId say when there is one and what it is |
| Rerun.CheckStep | src/rerun.ts:14-29 | specification function: what one check-run contributes (skip, abort on a failed listing, or the job found) |
| Rerun.StepDecision | src/rerun.ts:21-27 | specification function: an incomplete job gives no rerun, a completed one a rerun of that job |
| Rerun.ScanChecks | src/rerun.ts:13-32 | specification function: the search over the check-runs; its meaning is proved by ScanStopsAtFirst, ScanWithoutMatch, RerunOnlyOfFirstMatch and LookupsExactly |
| Rerun.CorrelationMarker | src/rerun.ts:14 | specification function: the marker text the pattern accepts; its meaning is proved by MarkerInjective, DecodeMarker and DecodeExactly |
| Rerun.DecodeRunId | src/rerun.ts:14-15 | a decoded run id is a non-empty digit string whose marker is the whole text; a missing text yields none |
| Rerun.MarkerInjective | src/rerun.ts:14 | a marker determines both its job identifier and its digits |
| Rerun.DecodeMarker | src/rerun.ts:14 | `<!--J-D-->` decodes to D under J and to nothing under any other job identifier |
| Rerun.DecodeExactly | src/rerun.ts:14-15 | a text yields a run id iff it is exactly one marker for the job identifier with non-empty digits |
| Rerun.DecodeRenderedRunId | src/rerun.ts:14-17 | a marker built from a run id decodes and parses back to that run id |
| Rerun.FirstJobFor | src/rerun.ts:19-20 | the found job is listed and has the check-run's url; none is found iff no job has it |
| Rerun.FirstJobForIsFirst | src/rerun.ts:19-20 | a found job is the first job of the listing with the check-run's url, and the first such job is always the one found |
| Rerun.MarkedIds | src/rerun.ts:13-17 | specification function: the run ids named by the markers of a list of check-runs, at most one per check-run, in list order |
| Rerun.LookupsExactly | src/rerun.ts:13-17 | the jobs listed are exactly those of the run ids marked on the check-runs scanned, in list order: up to and including the first decisive check-run, or all check-runs when none decides |
| Rerun.ScanStopsAtFirst | src/rerun.ts:13-29 | the first check-run that is not skipped decides: nothing after a failed listing, nothing for an incomplete job, otherwise a rerun of that job |
| Rerun.ScanWithoutMatch | src/rerun.ts:13-32 | when every check-run is skipped there is no rerun |
| Rerun.RerunOnlyOfFirstMatch | src/rerun.ts:19-27 | a rerun targets the completed job behind the first decisive check-run, with that check-run's url |
| Rerun.FindJob | src/rerun.ts:19-29 | the inner loop returns the first job, in listing order, with the check-run's url, and nothing iff no job has it |
| Rerun.ExamineCheck | src/rerun.ts:14-30 | one outer iteration yields the check-run's step and the run id it lists |
| Rerun.SelectRerun | src/rerun.ts:13-32 | the outer loop's decision and listings equal the scan specification |
| Flag.FlagMarker | src/flag.ts:22 | specification function: the flag marker; FlaggedExtends states its length and place |
| Flag.ApplyUpdate | src/flag.ts:19-23 | specification function: the check-runs as `checks.update` leaves them; FlagAppliedToSelf states its effect for the flag request |
| Flag.FlaggedExternalId | src/flag.ts:22 | specification function: the new `external_id`; its meaning is proved by FlaggedExtends and FlagTwice |
| Flag.SetFlag | src/flag.ts:12-22 | specification function: the request one invocation makes; its meaning is proved by SetFlagTargetsFirstSelf and UpdateOnlyOfSelf |
| Flag.FlaggedExtends | src/flag.ts:22 | the old `external_id` (null read as "") is a prefix, the marker follows it, and the length grows by 27 + length of the flag |
| Flag.FlagTwice | src/flag.ts:22 | flagging twice leaves two markers in sequence |
| Flag.SetFlagTargetsFirstSelf | src/flag.ts:12-22 | a failed listing fails with its message; no self-named run fails with "Couldn't find self check: self"; otherwise the first self-named run is updated |
| Flag.UpdateOnlyOfSelf | src/flag.ts:14-21 | an update is issued only for the first run named `self` |
| Flag.FlagAppliedToSelf | src/flag.ts:14-23 | after the update the self run's `external_id` ends with the marker, and runs with other ids are unchanged |

## Left out

- API calls: listing check-runs, updating a check-run, listing jobs and rerunning a job are inputs or recorded effects. Credentials and `getInput`/`getMultilineInput` parsing are left out, as are `debug`, `info` and `warning` logging.
- The 10-second sleep between polls and the async plumbing are left out. The unbounded `while (true)` loop is bounded by the finite list of listing results that `Poller.Run` receives. `OutOfPolls` marks a run that was still waiting when that list ran out.
- Regular expressions:
  - Include and exclude patterns are opaque `string -> bool` tests. `^${p}$` is not a full anchor when `p` has a top-level `|`, and the model does not capture that.
  - The job identifier in `rerun.ts` is taken literally, although the source interpolates it into the pattern unescaped.
- Aggregate.Poller.Poll: an error thrown by the self update is caught and only warned about in the source. The update is always recorded as an effect and never changes the outcome.
- Decimal.DigitsValue: `parseInt` is exact on unbounded integers. JavaScript numbers lose precision above 2^53, and the model does not capture that.
- Rerun.SelectRerun: a failure of the check-run listing, or of the rerun call itself, is caught and only logged. Both end the invocation with no further action. The model starts from a successful listing and returns the decision before the rerun call.
- Grace window, minimum-count gate, event scoping, suppression markers read during aggregation, and correlation markers written by the aggregator: none of these appears in the code, so none is modelled. The code has no such features: an empty required set succeeds at once.
- The flag is appended to the check-run's `external_id`, not to its output text, and nothing in the code reads it back.
- Flag.SetFlag: a rejected `checks.update` call throws, and the source then calls `setFailed` with the error's message. The model returns the update request as if the call always succeeds.
- The `void run().finally(...)` entry lines are left out.
