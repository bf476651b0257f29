/** The check-run records returned by the "list check runs for a ref" call, as far as
    the three entry points read them, and the selection of the caller's own check-run. */
module Checks {
  import opened Seqs

  /** One check-run. `status` and `conclusion` are kept as the strings the API
      returns ("queued", "in_progress", "completed"; "success", "failure", ...). */
  datatype CheckRun = CheckRun(
    id: nat,
    name: string,
    status: string,
    conclusion: Option<string>,   // null until the run completes
    url: string,
    summary: Option<string>,      // output.summary
    text: Option<string>,         // output.text
    externalId: Option<string>    // external_id
  )

  /** The result of one "list check runs for a ref" call: the snapshot, or the message
      of the error it throws. */
  datatype Fetch = Listed(runs: seq<CheckRun>) | ListFailed(message: string)

  /** No two runs of the snapshot share an identifier. */
  predicate DistinctIds(runs: seq<CheckRun>) {
    forall i, j :: 0 <= i < j < |runs| ==> runs[i].id != runs[j].id
  }

  /** The test `(check) => check.name === self`. */
  function NamedTest(self: string): CheckRun -> bool {
    (c: CheckRun) => c.name == self
  }

  /** `check_runs.filter((check) => check.name === self)`. */
  function SelfChecks(runs: seq<CheckRun>, self: string): seq<CheckRun> {
    Filter(runs, NamedTest(self))
  }

  /** `i` is the position of the first run named `name`. */
  predicate FirstNamed(runs: seq<CheckRun>, name: string, i: int) {
    0 <= i < |runs| && runs[i].name == name && forall k :: 0 <= k < i ==> runs[k].name != name
  }

  /** The self-named runs are empty exactly when no run carries the name, and otherwise
      begin with the first run that does. */
  lemma SelfChecksFirst(runs: seq<CheckRun>, self: string)
    ensures |SelfChecks(runs, self)| == 0 <==> forall i :: 0 <= i < |runs| ==> runs[i].name != self
    ensures |SelfChecks(runs, self)| > 0 ==> exists i :: FirstNamed(runs, self, i)
    ensures forall i :: FirstNamed(runs, self, i) ==> SelfChecks(runs, self)[0] == runs[i]
  {
    var p := NamedTest(self);
    FilterHead(runs, p);
    FilterMembers(runs, p);
    forall i ensures FirstNamed(runs, self, i) <==> FirstSatisfying(runs, p, i) {
    }
  }

  /** Dropping runs keeps identifiers distinct. */
  lemma {:induction false} SubsequenceKeepsDistinctIds(a: seq<CheckRun>, b: seq<CheckRun>)
    requires SubsequenceOf(a, b) && DistinctIds(b)
    ensures DistinctIds(a)
    decreases |b|
  {
    if |a| > 0 {
      assert DistinctIds(b[1..]);
      if a[0] == b[0] && SubsequenceOf(a[1..], b[1..]) {
        SubsequenceKeepsDistinctIds(a[1..], b[1..]);
        SubsequenceMembers(a[1..], b[1..]);
        forall i, j | 0 <= i < j < |a| ensures a[i].id != a[j].id {
          if i == 0 {
            assert a[j] == a[1..][j - 1];
            var m :| 0 <= m < |b[1..]| && b[1..][m] == a[j];
            assert b[m + 1] == a[j];
          } else {
            assert a[i] == a[1..][i - 1] && a[j] == a[1..][j - 1];
          }
        }
      } else {
        SubsequenceKeepsDistinctIds(a, b[1..]);
      }
    }
  }
}
