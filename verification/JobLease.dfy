/**
 The job lease protocol: claim with a fresh token, respond under that token, a watchdog, admin
 overrides and retention. Each SQL statement is one atomic step over the table of job rows. Worker
 responses carry any job id and any token at any time, any number of times, so late, duplicated
 and forged responses are all covered.
 */
module JobLease {
  import opened Wrappers

  type JobId = nat
  type Token = nat

  datatype JobType = GenThumbnail | EditPicture | MlStyle | MlPeople | MlGroupLocation

  datatype JobStatus = Pending | Processing | Completed | Failed

  datatype Job = Job(
    owner: int, jobType: JobType, picture: Option<int>, key: Option<string>,
    status: JobStatus, retryCount: nat, maxRetries: nat,
    claimedBy: Option<string>, claimToken: Option<Token>,
    result: Option<string>, error: Option<string>,
    createdAt: nat, startedAt: Option<nat>, completedAt: Option<nat>)

  /** The job table, the clock, and the supplies of fresh ids and tokens. `defaultMax` is the
      column default of max_retries. */
  datatype Table = Table(
    jobs: map<JobId, Job>, clock: nat, defaultMax: nat, nextId: JobId, nextToken: Token)

  datatype Step =
    | Insert(owner: int, jobType: JobType, picture: Option<int>, key: Option<string>)
    | Claim(worker: string, types: set<JobType>, pick: Option<JobId>)
    | Complete(job: JobId, token: Token, result: string)
    | Fail(job: JobId, token: Token, error: string, permanent: bool)
    | ResetStale(timeout: nat)
    | AdminReset(job: JobId)
    | AdminCancel(job: JobId)
    | DeleteTerminal(retention: nat)
    | Tick(elapsed: nat)

  predicate Live(job: Job) {
    job.status.Pending? || job.status.Processing?
  }

  predicate Terminal(job: Job) {
    job.status.Completed? || job.status.Failed?
  }

  // -- The partial unique indexes ---------------------------------------------

  predicate SameLiveKey(a: Job, b: Job) {
    Live(a) && Live(b) && a.owner == b.owner && a.key.Some? && a.key == b.key
  }

  predicate SameLiveEdit(a: Job, b: Job) {
    Live(a) && Live(b) && a.jobType.EditPicture? && b.jobType.EditPicture?
    && a.picture.Some? && a.picture == b.picture
  }

  /** A row may be written under `id` without breaking a unique index. */
  predicate Fits(jobs: map<JobId, Job>, id: JobId, row: Job) {
    forall i :: i in jobs && i != id ==> !SameLiveKey(jobs[i], row) && !SameLiveEdit(jobs[i], row)
  }

  // -- Row updates ------------------------------------------------------------

  predicate Claimable(t: Table, id: JobId, types: set<JobType>) {
    id in t.jobs && t.jobs[id].status.Pending? && (types == {} || t.jobs[id].jobType in types)
  }

  function ClaimRow(job: Job, worker: string, token: Token, now: nat): Job {
    job.(status := Processing, startedAt := Some(now), claimedBy := Some(worker), claimToken := Some(token))
  }

  function CompleteRow(job: Job, result: string, now: nat): Job {
    job.(status := Completed, completedAt := Some(now), result := Some(result))
  }

  /** One failed attempt: back to pending while retries remain, else failed for good. */
  function FailRow(job: Job, error: string, permanent: bool, now: nat): Job {
    var final := permanent || job.retryCount + 1 >= job.maxRetries;
    job.(status := if final then Failed else Pending,
         retryCount := job.retryCount + 1,
         error := Some(error),
         startedAt := if final then job.startedAt else None,
         claimedBy := None, claimToken := None,
         completedAt := if final then Some(now) else None)
  }

  const TIMED_OUT := "Worker timed out without reporting a result"

  predicate Stale(job: Job, timeout: nat, now: nat) {
    job.status.Processing? && job.startedAt.Some? && job.startedAt.value < now - timeout
  }

  function StaleRow(job: Job, now: nat): Job {
    var again := job.retryCount + 1 < job.maxRetries;
    job.(status := if again then Pending else Failed,
         retryCount := job.retryCount + 1,
         error := Some(TIMED_OUT),
         claimedBy := None, claimToken := None,
         startedAt := if again then None else job.startedAt,
         completedAt := if again then None else Some(now))
  }

  function ResetRow(job: Job): Job {
    job.(status := Pending, claimedBy := None, claimToken := None, startedAt := None,
         retryCount := 0, error := Some("Reset by admin"))
  }

  function CancelRow(job: Job, now: nat): Job {
    job.(status := Failed, completedAt := Some(now), claimedBy := None, claimToken := None,
         error := Some("Cancelled by admin"))
  }

  predicate Expired(job: Job, retention: nat, now: nat) {
    Terminal(job) && (if job.completedAt.Some? then job.completedAt.value else job.createdAt) < now - retention
  }

  function NewRow(t: Table, owner: int, jobType: JobType, picture: Option<int>, key: Option<string>): Job {
    Job(owner, jobType, picture, key, Pending, 0, t.defaultMax, None, None, None, None, t.clock, None, None)
  }

  // -- Steps ------------------------------------------------------------------

  /** The response of `token` for `job` finds the row it was claimed for still under that claim. */
  predicate Holds(t: Table, job: JobId, token: Token) {
    job in t.jobs && t.jobs[job].status.Processing? && t.jobs[job].claimToken == Some(token)
  }

  function SetRow(t: Table, id: JobId, row: Job): Table {
    t.(jobs := t.jobs[id := row])
  }

  /** A live job that an insert under the same owner and key conflicts with. */
  predicate HasConflict(t: Table, owner: int, key: Option<string>) {
    exists i :: i in t.jobs && Live(t.jobs[i]) && t.jobs[i].owner == owner && key.Some? && t.jobs[i].key == key
  }

  function InsertStep(t: Table, owner: int, jobType: JobType, picture: Option<int>, key: Option<string>): Table {
    var row := NewRow(t, owner, jobType, picture, key);
    if !HasConflict(t, owner, key) && Fits(t.jobs, t.nextId, row) then
      SetRow(t, t.nextId, row).(nextId := t.nextId + 1)
    else t
  }

  function ClaimStep(t: Table, worker: string, id: JobId): Table
    requires id in t.jobs
  {
    SetRow(t, id, ClaimRow(t.jobs[id], worker, t.nextToken, t.clock)).(nextToken := t.nextToken + 1)
  }

  function ResetStaleStep(t: Table, timeout: nat): Table {
    t.(jobs := map i | i in t.jobs ::
         if Stale(t.jobs[i], timeout, t.clock) then StaleRow(t.jobs[i], t.clock) else t.jobs[i])
  }

  function DeleteTerminalStep(t: Table, retention: nat): Table {
    t.(jobs := map i | i in t.jobs && !Expired(t.jobs[i], retention, t.clock) :: t.jobs[i])
  }

  /** A reset revives any job that is not completed, unless a unique index forbids it. */
  predicate CanReset(t: Table, job: JobId) {
    job in t.jobs && !t.jobs[job].status.Completed? && Fits(t.jobs, job, ResetRow(t.jobs[job]))
  }

  predicate Enabled(t: Table, a: Step) {
    a.Claim? && a.pick.Some? ==> Claimable(t, a.pick.value, a.types)
  }

  function Apply(t: Table, a: Step): Table
    requires Enabled(t, a)
  {
    match a
    case Insert(owner, jobType, picture, key) => InsertStep(t, owner, jobType, picture, key)
    case Claim(worker, _, pick) => if pick.Some? then ClaimStep(t, worker, pick.value) else t
    case Complete(job, token, result) =>
      if Holds(t, job, token) then SetRow(t, job, CompleteRow(t.jobs[job], result, t.clock)) else t
    case Fail(job, token, error, permanent) =>
      if Holds(t, job, token) then SetRow(t, job, FailRow(t.jobs[job], error, permanent, t.clock)) else t
    case ResetStale(timeout) => ResetStaleStep(t, timeout)
    case AdminReset(job) => if CanReset(t, job) then SetRow(t, job, ResetRow(t.jobs[job])) else t
    case AdminCancel(job) =>
      if job in t.jobs && Live(t.jobs[job]) then SetRow(t, job, CancelRow(t.jobs[job], t.clock)) else t
    case DeleteTerminal(retention) => DeleteTerminalStep(t, retention)
    case Tick(elapsed) => t.(clock := t.clock + elapsed)
  }

  predicate Runs(t: Table, steps: seq<Step>)
    decreases |steps|
  {
    steps == [] || (Enabled(t, steps[0]) && Runs(Apply(t, steps[0]), steps[1..]))
  }

  function Exec(t: Table, steps: seq<Step>): Table
    requires Runs(t, steps)
    decreases |steps|
  {
    if steps == [] then t else Exec(Apply(t, steps[0]), steps[1..])
  }

  function Init(defaultMax: nat): Table {
    Table(map[], 0, defaultMax, 0, 0)
  }

  // -- The invariant ----------------------------------------------------------

  /** What every row promises: a live job has a retry left, only a processing or completed row
      carries a token, a finished row knows when it finished. */
  predicate RowOk(job: Job, nextToken: Token) {
    && job.maxRetries >= 1
    && (if job.status.Failed? then job.retryCount <= job.maxRetries else job.retryCount < job.maxRetries)
    && (job.claimToken.Some? <==> job.status.Processing? || job.status.Completed?)
    && (job.claimToken.Some? ==> job.claimToken.value < nextToken)
    && (job.status.Processing? ==> job.startedAt.Some?)
    && (Terminal(job) ==> job.completedAt.Some?)
  }

  ghost predicate TokensDistinct(jobs: map<JobId, Job>) {
    forall i, j :: i in jobs && j in jobs && i != j && jobs[i].claimToken.Some? ==>
      jobs[i].claimToken != jobs[j].claimToken
  }

  ghost predicate IndexesOk(jobs: map<JobId, Job>) {
    forall i :: i in jobs ==> Fits(jobs, i, jobs[i])
  }

  ghost predicate Inv(t: Table) {
    && t.defaultMax >= 1
    && (forall i :: i in t.jobs ==> i < t.nextId && RowOk(t.jobs[i], t.nextToken))
    && TokensDistinct(t.jobs)
    && IndexesOk(t.jobs)
  }

  /** Rewriting a row keeps the indexes when the row fits, and always fits when its identity is
      unchanged and it does not come back to life. */
  lemma SetRowFits(jobs: map<JobId, Job>, id: JobId, row: Job)
    requires IndexesOk(jobs) && Fits(jobs, id, row)
    ensures IndexesOk(jobs[id := row])
  {}

  predicate NoNewClaimOnIndexes(before: Job, after: Job) {
    after.owner == before.owner && after.jobType == before.jobType && after.picture == before.picture
    && after.key == before.key && (Live(after) ==> Live(before))
  }

  /** An update that only moves rows out of life, or keeps them alive, keeps the indexes. */
  lemma ShrinkFits(jobs: map<JobId, Job>, jobs': map<JobId, Job>)
    requires IndexesOk(jobs)
    requires forall i :: i in jobs' ==> i in jobs && NoNewClaimOnIndexes(jobs[i], jobs'[i])
    ensures IndexesOk(jobs')
  {}

  /** Writing one row keeps the invariant when the row is sound, fits the indexes and holds no
      token of another row. */
  lemma SetRowKeeps(t: Table, id: JobId, row: Job, t': Table)
    requires Inv(t) && t'.jobs == t.jobs[id := row] && t'.defaultMax == t.defaultMax
    requires t.nextId <= t'.nextId && t.nextToken <= t'.nextToken && id < t'.nextId
    requires RowOk(row, t'.nextToken) && Fits(t.jobs, id, row)
    requires row.claimToken.Some? ==>
      row.claimToken == Some(t.nextToken) || (id in t.jobs && row.claimToken == t.jobs[id].claimToken)
    ensures Inv(t')
  {
    SetRowFits(t.jobs, id, row);
  }

  lemma StaysFit(t: Table, id: JobId, row: Job)
    requires Inv(t) && id in t.jobs && NoNewClaimOnIndexes(t.jobs[id], row)
    ensures Fits(t.jobs, id, row)
  {}

  lemma StaleRowOk(job: Job, now: nat, nextToken: Token)
    requires RowOk(job, nextToken) && job.status.Processing?
    ensures RowOk(StaleRow(job, now), nextToken) && NoNewClaimOnIndexes(job, StaleRow(job, now))
    ensures StaleRow(job, now).claimToken.Some? ==> StaleRow(job, now).claimToken == job.claimToken
  {}

  lemma ResetStaleKeeps(t: Table, timeout: nat)
    requires Inv(t)
    ensures Inv(ResetStaleStep(t, timeout))
  {
    forall i | i in t.jobs && Stale(t.jobs[i], timeout, t.clock)
      ensures RowOk(StaleRow(t.jobs[i], t.clock), t.nextToken)
      ensures NoNewClaimOnIndexes(t.jobs[i], StaleRow(t.jobs[i], t.clock))
      ensures var row := StaleRow(t.jobs[i], t.clock); row.claimToken.Some? ==> row.claimToken == t.jobs[i].claimToken
    {
      StaleRowOk(t.jobs[i], t.clock, t.nextToken);
    }
    ShrinkFits(t.jobs, ResetStaleStep(t, timeout).jobs);
  }

  lemma DeleteTerminalKeeps(t: Table, retention: nat)
    requires Inv(t)
    ensures Inv(DeleteTerminalStep(t, retention))
  {}

  /** The row a single-row step writes, if it writes one. */
  function Written(t: Table, a: Step): Option<(JobId, Job)>
    requires Enabled(t, a)
  {
    match a
    case Insert(owner, jobType, picture, key) =>
      var row := NewRow(t, owner, jobType, picture, key);
      if !HasConflict(t, owner, key) && Fits(t.jobs, t.nextId, row) then Some((t.nextId, row)) else None
    case Claim(worker, _, pick) =>
      if pick.Some? then Some((pick.value, ClaimRow(t.jobs[pick.value], worker, t.nextToken, t.clock))) else None
    case Complete(job, token, result) =>
      if Holds(t, job, token) then Some((job, CompleteRow(t.jobs[job], result, t.clock))) else None
    case Fail(job, token, error, permanent) =>
      if Holds(t, job, token) then Some((job, FailRow(t.jobs[job], error, permanent, t.clock))) else None
    case AdminReset(job) => if CanReset(t, job) then Some((job, ResetRow(t.jobs[job]))) else None
    case AdminCancel(job) =>
      if job in t.jobs && Live(t.jobs[job]) then Some((job, CancelRow(t.jobs[job], t.clock))) else None
    case _ => None
  }

  lemma WrittenIsSound(t: Table, a: Step)
    requires Inv(t) && Enabled(t, a) && Written(t, a).Some?
    ensures var (id, row) := Written(t, a).value;
      && RowOk(row, Apply(t, a).nextToken) && id < Apply(t, a).nextId
      && (row.claimToken.Some? ==>
            row.claimToken == Some(t.nextToken) || (id in t.jobs && row.claimToken == t.jobs[id].claimToken))
      && (a.Insert? || a.AdminReset? || (id in t.jobs && NoNewClaimOnIndexes(t.jobs[id], row)))
  {}

  lemma StepKeeps(t: Table, a: Step)
    requires Inv(t) && Enabled(t, a)
    ensures Inv(Apply(t, a))
  {
    match a
    case ResetStale(timeout) => ResetStaleKeeps(t, timeout);
    case DeleteTerminal(retention) => DeleteTerminalKeeps(t, retention);
    case Tick(_) =>
    case _ =>
      if Written(t, a).Some? {
        WrittenIsSound(t, a);
        var (id, row) := Written(t, a).value;
        if !a.Insert? && !a.AdminReset? { StaysFit(t, id, row); }
        SetRowKeeps(t, id, row, Apply(t, a));
      }
  }

  lemma {:induction false} ExecKeeps(t: Table, steps: seq<Step>)
    requires Inv(t) && Runs(t, steps)
    ensures Inv(Exec(t, steps))
    decreases |steps|
  {
    if steps != [] {
      StepKeeps(t, steps[0]);
      ExecKeeps(Apply(t, steps[0]), steps[1..]);
    }
  }
}
