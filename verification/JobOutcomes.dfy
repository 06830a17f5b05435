/** What a stored job says about the run that wrote it: every row tells the last statement that changed
    it, and a permanent failure is the end of a job. */
module JobOutcomes {
  import opened Wrappers
  import opened JobLease
  import opened JobTheorems

  lemma {:induction false} PrefixRuns(t: Table, steps: seq<Step>, n: nat)
    requires Runs(t, steps) && n <= |steps|
    ensures Runs(t, steps[..n])
    decreases n
  {
    if n > 0 {
      PrefixRuns(Apply(t, steps[0]), steps[1..], n - 1);
      assert steps[..n][1..] == steps[1..][..n - 1];
    }
  }

  /** The table before step `n`. */
  function At(t: Table, steps: seq<Step>, n: nat): Table
    requires Runs(t, steps) && n <= |steps|
  {
    PrefixRuns(t, steps, n);
    Exec(t, steps[..n])
  }

  lemma {:induction false} NextTable(t: Table, steps: seq<Step>, n: nat)
    requires Runs(t, steps) && n < |steps|
    ensures Enabled(At(t, steps, n), steps[n]) && At(t, steps, n + 1) == Apply(At(t, steps, n), steps[n])
    decreases n
  {
    PrefixRuns(t, steps, n);
    PrefixRuns(t, steps, n + 1);
    if n == 0 {
      assert steps[..1][1..] == [];
      assert Exec(Apply(t, steps[0]), steps[..1][1..]) == Apply(t, steps[0]);
    } else {
      var rest := steps[1..];
      NextTable(Apply(t, steps[0]), rest, n - 1);
      assert steps[..n][1..] == rest[..n - 1] && steps[..n + 1][1..] == rest[..n];
      assert At(t, steps, n) == At(Apply(t, steps[0]), rest, n - 1);
      assert At(t, steps, n + 1) == At(Apply(t, steps[0]), rest, n);
    }
  }

  // -- What a statement makes of a row ----------------------------------------

  /** What no statement changes. */
  predicate SameIdentity(a: Job, b: Job) {
    a.owner == b.owner && a.jobType == b.jobType && a.picture == b.picture && a.key == b.key
    && a.createdAt == b.createdAt && a.maxRetries == b.maxRetries
  }

  predicate IsUnclaimed(row: Job) {
    row.claimedBy.None? && row.claimToken.None?
  }

  /** One attempt that failed at `now`: final when retries are used up or it was permanent, else
      waiting for the next claim. */
  predicate IsFailedAttempt(job: Job, row: Job, error: string, final: bool, now: nat) {
    && row.retryCount == job.retryCount + 1 && row.error == Some(error) && row.result == job.result
    && IsUnclaimed(row)
    && if final then row.status.Failed? && row.completedAt == Some(now) && row.startedAt == job.startedAt
       else row.status.Pending? && row.startedAt == None
  }

  /** How a row that was there can come to read `row`. */
  predicate Explains(t: Table, a: Step, j: JobId, row: Job)
    requires j in t.jobs
  {
    var job := t.jobs[j];
    SameIdentity(job, row) && match a
    case Claim(worker, types, pick) =>
      && pick == Some(j) && job.status.Pending? && (types == {} || job.jobType in types)
      && row.status.Processing? && row.claimedBy == Some(worker) && row.startedAt == Some(t.clock)
      && row.claimToken == Some(t.nextToken)
      && row.retryCount == job.retryCount && row.error == job.error && row.result == job.result
    case Complete(i, token, result) =>
      && i == j && job.status.Processing? && job.claimToken == Some(token)
      && row.status.Completed? && row.result == Some(result) && row.completedAt == Some(t.clock)
      && row.retryCount == job.retryCount && row.error == job.error
    case Fail(i, token, error, permanent) =>
      && i == j && job.status.Processing? && job.claimToken == Some(token)
      && IsFailedAttempt(job, row, error, permanent || job.retryCount + 1 >= job.maxRetries, t.clock)
    case ResetStale(timeout) =>
      && job.status.Processing? && job.startedAt.Some? && job.startedAt.value + timeout < t.clock
      && IsFailedAttempt(job, row, "Worker timed out without reporting a result",
                         job.retryCount + 1 >= job.maxRetries, t.clock)
    case AdminReset(i) =>
      && i == j && !job.status.Completed? && row.status.Pending? && row.retryCount == 0
      && IsUnclaimed(row) && row.startedAt == None && row.error == Some("Reset by admin")
    case AdminCancel(i) =>
      && i == j && Live(job) && row.status.Failed? && row.completedAt == Some(t.clock)
      && IsUnclaimed(row) && row.error == Some("Cancelled by admin") && row.retryCount == job.retryCount
    case _ => false
  }

  /** A fresh row. */
  predicate IsNew(t: Table, a: Step, j: JobId, row: Job) {
    a.Insert? && j == t.nextId && row.status.Pending? && row.retryCount == 0 && row.maxRetries == t.defaultMax
    && row.owner == a.owner && row.jobType == a.jobType && row.picture == a.picture && row.key == a.key
    && row.createdAt == t.clock && IsUnclaimed(row) && row.result == None && row.error == None
    && row.startedAt == None && row.completedAt == None
  }

  /** A row that reads differently after a statement is explained by it. */
  lemma ChangeIsExplained(t: Table, a: Step, j: JobId)
    requires Inv(t) && Enabled(t, a) && j in Apply(t, a).jobs
    ensures j !in t.jobs ==> IsNew(t, a, j, Apply(t, a).jobs[j])
    ensures j in t.jobs && Apply(t, a).jobs[j] != t.jobs[j] ==> Explains(t, a, j, Apply(t, a).jobs[j])
  {}

  /** Some live job of the owner carries the key, or some live edit is about the picture. */
  predicate IsTaken(t: Table, owner: int, jobType: JobType, picture: Option<int>, key: Option<string>) {
    exists i :: i in t.jobs && (t.jobs[i].status.Pending? || t.jobs[i].status.Processing?) &&
      ((key.Some? && t.jobs[i].owner == owner && t.jobs[i].key == key)
       || (jobType == EditPicture && t.jobs[i].jobType == EditPicture && picture.Some? && t.jobs[i].picture == picture))
  }

  /** An enqueue adds exactly one fresh row, unless a live job takes its place, and then changes nothing. */
  lemma InsertExactly(t: Table, owner: int, jobType: JobType, picture: Option<int>, key: Option<string>)
    requires Inv(t)
    ensures var a := Insert(owner, jobType, picture, key);
            var after := Apply(t, a);
            && (IsTaken(t, owner, jobType, picture, key) ==> after == t)
            && (!IsTaken(t, owner, jobType, picture, key) ==>
                  t.nextId !in t.jobs && after.jobs.Keys == t.jobs.Keys + {t.nextId}
                  && IsNew(t, a, t.nextId, after.jobs[t.nextId])
                  && forall i :: i in t.jobs ==> after.jobs[i] == t.jobs[i])
  {
    var row := NewRow(t, owner, jobType, picture, key);
    if IsTaken(t, owner, jobType, picture, key) {
      var i :| i in t.jobs && (t.jobs[i].status.Pending? || t.jobs[i].status.Processing?) &&
        ((key.Some? && t.jobs[i].owner == owner && t.jobs[i].key == key)
         || (jobType == EditPicture && t.jobs[i].jobType == EditPicture
             && picture.Some? && t.jobs[i].picture == picture));
      assert Live(t.jobs[i]) && (SameLiveKey(t.jobs[i], row) || SameLiveEdit(t.jobs[i], row));
    }
  }

  ghost predicate UnchangedSince(t: Table, steps: seq<Step>, i: nat, j: JobId, row: Job)
    requires Runs(t, steps)
  {
    forall n: nat :: i < n <= |steps| ==> j in At(t, steps, n).jobs && At(t, steps, n).jobs[j] == row
  }

  ghost predicate LastChange(t: Table, steps: seq<Step>, i: nat, j: JobId, row: Job)
    requires Runs(t, steps)
  {
    && i < |steps| && UnchangedSince(t, steps, i, j, row)
    && if j in At(t, steps, i).jobs then Explains(At(t, steps, i), steps[i], j, row)
       else IsNew(At(t, steps, i), steps[i], j, row)
  }

  lemma WholeRun(t: Table, steps: seq<Step>)
    requires Runs(t, steps)
    ensures At(t, steps, |steps|) == Exec(t, steps)
  {
    assert steps[..|steps|] == steps;
  }

  lemma AtShorter(t: Table, steps: seq<Step>, last: nat, n: nat)
    requires Runs(t, steps) && n <= last <= |steps|
    ensures Runs(t, steps[..last]) && At(t, steps[..last], n) == At(t, steps, n)
  {
    PrefixRuns(t, steps, last);
    assert steps[..last][..n] == steps[..n];
  }

  /** Every stored row tells the last statement that changed it, whatever happened before: which claim
      holds it since when, which response completed or failed it with which result or error, whether
      the watchdog or an admin took it back, or that nothing has happened to it yet. */
  lemma {:induction false} RowsTellTheirLastChange(max: nat, steps: seq<Step>, j: JobId) returns (i: nat)
    requires max >= 1 && Runs(Init(max), steps) && j in Exec(Init(max), steps).jobs
    ensures LastChange(Init(max), steps, i, j, Exec(Init(max), steps).jobs[j])
    decreases |steps|
  {
    var t0 := Init(max);
    var last := |steps| - 1;
    var row := Exec(t0, steps).jobs[j];
    InitInv(max);
    AtShorter(t0, steps, last, last);
    WholeRun(t0, steps[..last]);
    WholeRun(t0, steps);
    NextTable(t0, steps, last);
    ExecKeeps(t0, steps[..last]);
    var before := At(t0, steps, last);
    ChangeIsExplained(before, steps[last], j);
    if j in before.jobs && before.jobs[j] == row {
      i := RowsTellTheirLastChange(max, steps[..last], j);
      AtShorter(t0, steps, last, i);
      forall n: nat | i < n <= |steps| ensures j in At(t0, steps, n).jobs && At(t0, steps, n).jobs[j] == row {
        if n <= last { AtShorter(t0, steps, last, n); }
      }
    } else {
      i := last;
    }
  }

  // -- Failing ----------------------------------------------------------------

  /** An effective failure ends the job exactly when it is permanent or uses up the last retry, and
      stamps it; otherwise the job can be claimed at once by a worker that takes its type. */
  lemma FailureEndsExactly(t: Table, j: JobId, token: Token, error: string, permanent: bool, types: set<JobType>)
    requires Inv(t) && Holds(t, j, token)
    ensures var after := Apply(t, Fail(j, token, error, permanent));
            var job, row := t.jobs[j], after.jobs[j];
            && IsFailedAttempt(job, row, error, row.status.Failed?, t.clock)
            && (row.status.Failed? <==> permanent || job.retryCount + 1 >= job.maxRetries)
            && (Claimable(after, j, types) <==>
                  !permanent && job.retryCount + 1 < job.maxRetries && (types == {} || job.jobType in types))
  {}

  /** The watchdog does the same to every processing job past its timeout, and nothing to any other. */
  lemma WatchdogEndsExactly(t: Table, j: JobId, timeout: nat, types: set<JobType>)
    requires Inv(t) && j in t.jobs
    ensures var after := Apply(t, ResetStale(timeout));
            var job, row := t.jobs[j], after.jobs[j];
            var stale := job.status.Processing? && job.startedAt.value + timeout < t.clock;
            && (!stale ==> row == job)
            && (stale ==> IsFailedAttempt(job, row, "Worker timed out without reporting a result",
                                          row.status.Failed?, t.clock))
            && (stale ==> (row.status.Failed? <==> job.retryCount + 1 >= job.maxRetries))
            && (stale ==> (Claimable(after, j, types) <==>
                  job.retryCount + 1 < job.maxRetries && (types == {} || job.jobType in types)))
  {}

  /** A failed job stays as it is, or is deleted, in every run without an admin reset of it, and is
      never claimed. */
  lemma {:induction false} FailedIsFinalWithoutReset(t: Table, steps: seq<Step>, j: JobId)
    requires Inv(t) && Runs(t, steps) && NoResetOf(steps, j) && j < t.nextId
    requires j in t.jobs ==> t.jobs[j].status.Failed?
    ensures CountClaims(steps, j) == 0
    ensures j in Exec(t, steps).jobs ==> j in t.jobs && Exec(t, steps).jobs[j] == t.jobs[j]
    decreases |steps|
  {
    if steps != [] {
      var a := steps[0];
      StepKeeps(t, a);
      FailedStep(t, a, j);
      assert NoResetOf(steps[1..], j);
      FailedIsFinalWithoutReset(Apply(t, a), steps[1..], j);
    }
  }

  lemma FailedStep(t: Table, a: Step, j: JobId)
    requires Inv(t) && Enabled(t, a) && a != AdminReset(j) && j < t.nextId
    requires j in t.jobs ==> t.jobs[j].status.Failed?
    ensures !Claims(a, j) && j < Apply(t, a).nextId
    ensures j in Apply(t, a).jobs ==> j in t.jobs && Apply(t, a).jobs[j] == t.jobs[j]
  {}

  /** A permanent failure reported under the current claim is the end: in every run without an admin
      reset of the job it stays failed with that error, and is never pending, processing or claimed
      again, however many retries it had left. */
  lemma PermanentFailureIsFinal(t: Table, j: JobId, token: Token, error: string, steps: seq<Step>, n: nat)
    requires Inv(t) && Holds(t, j, token)
    requires Runs(Apply(t, Fail(j, token, error, true)), steps) && NoResetOf(steps, j) && n <= |steps|
    ensures var after := Apply(t, Fail(j, token, error, true));
            && CountClaims(steps, j) == 0
            && (j in At(after, steps, n).jobs ==>
                  At(after, steps, n).jobs[j].status.Failed? && At(after, steps, n).jobs[j].error == Some(error)
                  && At(after, steps, n).jobs[j].completedAt == Some(t.clock))
  {
    var after := Apply(t, Fail(j, token, error, true));
    StepKeeps(t, Fail(j, token, error, true));
    FailureEndsExactly(t, j, token, error, true, {});
    FailedIsFinalWithoutReset(after, steps, j);
    PrefixRuns(after, steps, n);
    assert NoResetOf(steps[..n], j);
    FailedIsFinalWithoutReset(after, steps[..n], j);
  }
}
