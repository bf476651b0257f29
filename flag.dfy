/** The flag entry point (src/flag.ts): append a flag marker to the `external_id` of the
    caller's own check-run. */
module Flag {
  import opened Seqs
  import opened Checks

  /** What one invocation asks of the API: an update of one check-run's `external_id`,
      or `setFailed` with a message. */
  datatype FlagRequest =
    | UpdateExternalId(checkRunId: nat, externalId: string)
    | Failed(message: string)

  const FlagOpen := "<!--BUGROUP_CHECKS_FLAG-"
  const FlagClose := "-->"
  const NotFoundText := "Couldn't find self check: "

  /** `<!--BUGROUP_CHECKS_FLAG-${flag}-->`. */
  function FlagMarker(flag: string): string {
    FlagOpen + flag + FlagClose
  }

  /** `${external_id ?? ''}<!--BUGROUP_CHECKS_FLAG-${flag}-->`. */
  function FlaggedExternalId(current: Option<string>, flag: string): string {
    current.GetOr("") + FlagMarker(flag)
  }

  /** `run`: the request made for one listing of the ref's check-runs. */
  function SetFlag(listing: Fetch, self: string, flag: string): FlagRequest {
    match listing
    case ListFailed(message) => Failed(message)
    case Listed(runs) =>
      var selfChecks := SelfChecks(runs, self);
      if |selfChecks| == 0 then Failed(NotFoundText + self)
      else UpdateExternalId(selfChecks[0].id, FlaggedExternalId(selfChecks[0].externalId, flag))
  }

  /** The old `external_id` is kept as a prefix and the marker is appended after it;
      an absent one counts as empty. */
  lemma FlaggedExtends(current: Option<string>, flag: string)
    ensures var r := FlaggedExternalId(current, flag);
      |r| == |current.GetOr("")| + 27 + |flag| &&
      r[..|current.GetOr("")|] == current.GetOr("") &&
      r[|current.GetOr("")|..] == FlagOpen + flag + FlagClose
    ensures current.None? ==> FlaggedExternalId(current, flag) == FlagMarker(flag)
  {
  }

  /** Flagging twice does not collapse: the second call appends a second marker. */
  lemma FlagTwice(current: Option<string>, flag: string)
    ensures FlaggedExternalId(Some(FlaggedExternalId(current, flag)), flag) ==
      current.GetOr("") + FlagMarker(flag) + FlagMarker(flag)
    ensures |FlaggedExternalId(Some(FlaggedExternalId(current, flag)), flag)| ==
      |current.GetOr("")| + 2 * |FlagMarker(flag)|
  {
  }

  /** The update goes to the first check-run named `self` and carries that run's own
      `external_id` extended by the marker; with no such run the call fails with the
      not-found message; a failed listing fails with its own message. */
  lemma SetFlagTargetsFirstSelf(listing: Fetch, self: string, flag: string)
    ensures listing.ListFailed? ==> SetFlag(listing, self, flag) == Failed(listing.message)
    ensures listing.Listed? && (forall i :: 0 <= i < |listing.runs| ==> listing.runs[i].name != self) ==>
      SetFlag(listing, self, flag) == Failed(NotFoundText + self)
    ensures forall i :: listing.Listed? && FirstNamed(listing.runs, self, i) ==>
      SetFlag(listing, self, flag) ==
        UpdateExternalId(listing.runs[i].id, FlaggedExternalId(listing.runs[i].externalId, flag))
  {
    if listing.Listed? {
      SelfChecksFirst(listing.runs, self);
    }
  }

  /** The update is the only request that touches a check-run, and it names a run that
      carries the name `self`. */
  lemma UpdateOnlyOfSelf(listing: Fetch, self: string, flag: string)
    requires SetFlag(listing, self, flag).UpdateExternalId?
    ensures listing.Listed?
    ensures exists i :: (FirstNamed(listing.runs, self, i) &&
      listing.runs[i].id == SetFlag(listing, self, flag).checkRunId)
  {
    SelfChecksFirst(listing.runs, self);
    var i :| FirstNamed(listing.runs, self, i);
  }

  /** The check-runs as they read after an `external_id` update of run `id`. */
  function ApplyUpdate(runs: seq<CheckRun>, id: nat, externalId: string): seq<CheckRun> {
    seq(|runs|, i requires 0 <= i < |runs| =>
      if runs[i].id == id then runs[i].(externalId := Some(externalId)) else runs[i])
  }

  /** After the flag update, the first run named `self` carries the marker at the end of
      its `external_id`, behind its previous value, and every other run is as it was
      unless it shares that run's identifier. */
  lemma FlagAppliedToSelf(runs: seq<CheckRun>, self: string, flag: string, i: int)
    requires FirstNamed(runs, self, i)
    ensures var req := SetFlag(Listed(runs), self, flag);
      req.UpdateExternalId? &&
      var after := ApplyUpdate(runs, req.checkRunId, req.externalId);
      after[i].externalId == Some(runs[i].externalId.GetOr("") + FlagMarker(flag)) &&
      forall k :: 0 <= k < |runs| && runs[k].id != runs[i].id ==> after[k] == runs[k]
  {
    SetFlagTargetsFirstSelf(Listed(runs), self, flag);
  }
}
