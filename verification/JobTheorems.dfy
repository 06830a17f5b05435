/** What the lease protocol promises over every run, with late, duplicated and forged responses. */
module JobTheorems {
  import opened Wrappers
  import opened MapSum
  import opened JobLease

  lemma InitInv(defaultMax: nat)
    requires defaultMax >= 1
    ensures Inv(Init(defaultMax))
  {}

  // -- Only the current claim holder settles a job ----------------------------

  /** No two claims hold at once: a job has one holding token and a token holds one job. */
  lemma HolderIsUnique(t: Table, i: JobId, a: Token, j: JobId, b: Token)
    requires Inv(t) && Holds(t, i, a) && Holds(t, j, b)
    ensures i == j <==> a == b
  {}

  /** A response changes the table exactly when it comes from the current claim. */
  lemma ResponseActsExactlyUnderItsClaim(t: Table, a: Step)
    requires Inv(t) && (a.Complete? || a.Fail?)
    ensures Apply(t, a) != t <==> Holds(t, a.job, a.token)
    ensures forall i :: i in t.jobs && i != a.job ==> i in Apply(t, a).jobs && Apply(t, a).jobs[i] == t.jobs[i]
  {}

  /** A token already issued never gains a hold it does not have. */
  lemma NoHoldIsRegained(t: Table, a: Step, j: JobId, token: Token)
    requires Inv(t) && Enabled(t, a) && token < t.nextToken && Holds(Apply(t, a), j, token)
    ensures Holds(t, j, token)
  {}

  /** A claim that was reset, cancelled, settled or superseded is dead for ever. */
  lemma {:induction false} DeadClaimStaysDead(t: Table, steps: seq<Step>, j: JobId, token: Token)
    requires Inv(t) && Runs(t, steps) && token < t.nextToken && !Holds(t, j, token)
    ensures !Holds(Exec(t, steps), j, token)
    decreases |steps|
  {
    if steps != [] {
      if Holds(Apply(t, steps[0]), j, token) { NoHoldIsRegained(t, steps[0], j, token); }
      StepKeeps(t, steps[0]);
      DeadClaimStaysDead(Apply(t, steps[0]), steps[1..], j, token);
    }
  }

  /** How often responses of a claim change the table along a run. */
  function Settlements(t: Table, steps: seq<Step>, j: JobId, token: Token): nat
    requires Runs(t, steps)
    decreases |steps|
  {
    if steps == [] then 0
    else
      var a := steps[0];
      (if (a.Complete? || a.Fail?) && a.job == j && a.token == token && Apply(t, a) != t then 1 else 0)
      + Settlements(Apply(t, a), steps[1..], j, token)
  }

  /** Each claim settles its job at most once, however often and late its responses arrive. */
  lemma {:induction false} EachClaimSettlesAtMostOnce(t: Table, steps: seq<Step>, j: JobId, token: Token)
    requires Inv(t) && Runs(t, steps)
    ensures Settlements(t, steps, j, token) <= (if token < t.nextToken && !Holds(t, j, token) then 0 else 1)
    decreases |steps|
  {
    if steps != [] {
      var a, t' := steps[0], Apply(t, steps[0]);
      StepKeeps(t, a);
      EachClaimSettlesAtMostOnce(t', steps[1..], j, token);
      if Holds(t', j, token) && token < t.nextToken { NoHoldIsRegained(t, a, j, token); }
    }
  }

  // -- A job completes at most once -------------------------------------------

  /** A completed row is never changed again: it stays as it is or is deleted, and a deleted id
      never comes back. */
  lemma {:induction false} CompletedIsFinal(t: Table, steps: seq<Step>, j: JobId)
    requires Inv(t) && Runs(t, steps) && j < t.nextId
    requires j in t.jobs ==> t.jobs[j].status.Completed?
    ensures j in Exec(t, steps).jobs ==> j in t.jobs && Exec(t, steps).jobs[j] == t.jobs[j]
    decreases |steps|
  {
    if steps != [] {
      StepKeeps(t, steps[0]);
      CompletedStep(t, steps[0], j);
      CompletedIsFinal(Apply(t, steps[0]), steps[1..], j);
    }
  }

  lemma CompletedStep(t: Table, a: Step, j: JobId)
    requires Inv(t) && Enabled(t, a) && j < t.nextId && (j in t.jobs ==> t.jobs[j].status.Completed?)
    ensures t.nextId <= Apply(t, a).nextId
    ensures j in Apply(t, a).jobs ==> j in t.jobs && Apply(t, a).jobs[j] == t.jobs[j]
  {}

  predicate Completes(t: Table, a: Step, j: JobId) {
    a.Complete? && a.job == j && Holds(t, j, a.token)
  }

  function Completions(t: Table, steps: seq<Step>, j: JobId): nat
    requires Runs(t, steps)
    decreases |steps|
  {
    if steps == [] then 0
    else (if Completes(t, steps[0], j) then 1 else 0) + Completions(Apply(t, steps[0]), steps[1..], j)
  }

  /** Over a whole run, through retries, resets and re-claims, a job completes at most once, and
      not at all once it is completed or deleted. */
  lemma {:induction false} JobCompletesAtMostOnce(t: Table, steps: seq<Step>, j: JobId)
    requires Inv(t) && Runs(t, steps)
    ensures Completions(t, steps, j) <= 1
    ensures j < t.nextId && (j in t.jobs ==> t.jobs[j].status.Completed?) ==> Completions(t, steps, j) == 0
    decreases |steps|
  {
    if steps != [] {
      var a := steps[0];
      StepKeeps(t, a);
      JobCompletesAtMostOnce(Apply(t, a), steps[1..], j);
      if j < t.nextId && (j in t.jobs ==> t.jobs[j].status.Completed?) { CompletedStep(t, a, j); }
    }
  }

  // -- The retry budget -------------------------------------------------------

  /** Every pending or processing job has a retry left. */
  lemma {:induction false} LiveJobsHaveARetryLeft(defaultMax: nat, steps: seq<Step>, j: JobId)
    requires defaultMax >= 1 && Runs(Init(defaultMax), steps)
    requires j in Exec(Init(defaultMax), steps).jobs && Live(Exec(Init(defaultMax), steps).jobs[j])
    ensures var job := Exec(Init(defaultMax), steps).jobs[j]; job.retryCount < job.maxRetries
  {
    InitInv(defaultMax);
    ExecKeeps(Init(defaultMax), steps);
  }

  /** How often a job can still be claimed without an admin reset. */
  function ClaimsLeft(t: Table, j: JobId): nat
    requires Inv(t)
  {
    if j !in t.jobs then (if j < t.nextId then 0 else t.defaultMax)
    else match t.jobs[j].status
         case Pending => t.jobs[j].maxRetries - t.jobs[j].retryCount
         case Processing => t.jobs[j].maxRetries - t.jobs[j].retryCount - 1
         case _ => 0
  }

  predicate Claims(a: Step, j: JobId) {
    a.Claim? && a.pick == Some(j)
  }

  function CountClaims(steps: seq<Step>, j: JobId): nat {
    if steps == [] then 0 else (if Claims(steps[0], j) then 1 else 0) + CountClaims(steps[1..], j)
  }

  predicate NoResetOf(steps: seq<Step>, j: JobId) {
    forall i :: 0 <= i < |steps| ==> steps[i] != AdminReset(j)
  }

  lemma ClaimsLeftStep(t: Table, a: Step, j: JobId)
    requires Inv(t) && Enabled(t, a) && a != AdminReset(j) && Inv(Apply(t, a))
    ensures ClaimsLeft(Apply(t, a), j) + (if Claims(a, j) then 1 else 0) <= ClaimsLeft(t, j)
  {}

  lemma {:induction false} ClaimsAreBudgeted(t: Table, steps: seq<Step>, j: JobId)
    requires Inv(t) && Runs(t, steps) && NoResetOf(steps, j)
    ensures CountClaims(steps, j) <= ClaimsLeft(t, j)
    decreases |steps|
  {
    if steps != [] {
      StepKeeps(t, steps[0]);
      ClaimsLeftStep(t, steps[0], j);
      assert NoResetOf(steps[1..], j);
      ClaimsAreBudgeted(Apply(t, steps[0]), steps[1..], j);
    }
  }

  ghost predicate SameMax(t: Table, max: nat) {
    t.defaultMax == max && forall i :: i in t.jobs ==> t.jobs[i].maxRetries == max
  }

  lemma {:induction false} MaxIsFixed(t: Table, steps: seq<Step>, max: nat)
    requires Runs(t, steps) && SameMax(t, max)
    ensures SameMax(Exec(t, steps), max)
    decreases |steps|
  {
    if steps != [] { MaxIsFixed(Apply(t, steps[0]), steps[1..], max); }
  }

  /** Between two admin resets of a job, in any run from the empty table, it is claimed at most
      max_retries times. */
  lemma ClaimsBetweenResets(max: nat, before: seq<Step>, steps: seq<Step>, j: JobId)
    requires max >= 1 && Runs(Init(max), before) && Runs(Exec(Init(max), before), steps) && NoResetOf(steps, j)
    ensures CountClaims(steps, j) <= max
  {
    InitInv(max);
    ExecKeeps(Init(max), before);
    MaxIsFixed(Init(max), before, max);
    ClaimsAreBudgeted(Exec(Init(max), before), steps, j);
  }

  // -- Termination ------------------------------------------------------------

  /** Steps left for a row: two per claim still possible, one for its deletion. */
  function RowWork(job: Job): nat {
    match job.status
    case Pending => 1 + 2 * (if job.retryCount < job.maxRetries then job.maxRetries - job.retryCount else 0)
    case Processing => 2 * (if job.retryCount < job.maxRetries then job.maxRetries - job.retryCount else 0)
    case _ => 1
  }

  function RowWorks(t: Table): map<JobId, nat> {
    map i | i in t.jobs :: RowWork(t.jobs[i])
  }

  ghost function Work(t: Table): nat {
    Sum(RowWorks(t))
  }

  /** No step adds work to a row or brings a row back, except an insert and an admin reset; and a
      row that changes uses work up. */
  lemma RowsUseWork(t: Table, a: Step, j: JobId)
    requires Inv(t) && Enabled(t, a) && !a.Insert? && !a.AdminReset? && j in Apply(t, a).jobs
    ensures j in t.jobs
    ensures Apply(t, a).jobs[j] == t.jobs[j] || RowWork(Apply(t, a).jobs[j]) < RowWork(t.jobs[j])
  {}

  /** Every step that changes the table, other than an insert or an admin reset, uses up work. */
  lemma ChangesUseWork(t: Table, a: Step)
    requires Inv(t) && Enabled(t, a) && !a.Insert? && !a.AdminReset?
    ensures Work(Apply(t, a)) <= Work(t)
    ensures Apply(t, a).jobs != t.jobs ==> Work(Apply(t, a)) < Work(t)
  {
    var t' := Apply(t, a);
    var w, w' := RowWorks(t), RowWorks(t');
    forall j | j in w' ensures j in w && w'[j] <= w[j] { RowsUseWork(t, a, j); }
    SumShrinks(w, w');
    if t'.jobs != t.jobs {
      forall j | j in t'.jobs ensures j in t.jobs { RowsUseWork(t, a, j); }
      var j := ChangedRow(t.jobs, t'.jobs);
      assert RowOk(t.jobs[j], t.nextToken);
      if j in t'.jobs { RowsUseWork(t, a, j); }
      SumShrinksStrictly(w, w', j);
    }
  }

  lemma ChangedRow(jobs: map<JobId, Job>, jobs': map<JobId, Job>) returns (j: JobId)
    requires jobs' != jobs && forall i :: i in jobs' ==> i in jobs
    ensures j in jobs && (j !in jobs' || jobs'[j] != jobs[j])
  {
    j :| j in jobs && (j !in jobs' || jobs'[j] != jobs[j]);
  }

  function CountChanges(t: Table, steps: seq<Step>): nat
    requires Runs(t, steps)
    decreases |steps|
  {
    if steps == [] then 0
    else (if Apply(t, steps[0]).jobs != t.jobs then 1 else 0) + CountChanges(Apply(t, steps[0]), steps[1..])
  }

  /** The steps that run without anybody adding work. */
  predicate NoNewWork(steps: seq<Step>) {
    forall i :: 0 <= i < |steps| ==> !steps[i].Insert? && !steps[i].AdminReset?
  }

  /** Without new jobs and admin resets a run changes the table a bounded number of times, however
      many responses, watchdog passes and polls it holds. */
  lemma {:induction false} ProtocolTerminates(t: Table, steps: seq<Step>)
    requires Inv(t) && Runs(t, steps) && NoNewWork(steps)
    ensures CountChanges(t, steps) + Work(Exec(t, steps)) <= Work(t)
    decreases |steps|
  {
    if steps != [] {
      StepKeeps(t, steps[0]);
      ChangesUseWork(t, steps[0]);
      assert NoNewWork(steps[1..]);
      ProtocolTerminates(Apply(t, steps[0]), steps[1..]);
    }
  }

  predicate IsDelivery(a: Step) {
    a.Claim? || a.ResetStale?
  }

  /** A live job is never stuck: a pending one can be claimed by a worker that takes any type, and
      a processing one can be taken back by the watchdog once its timeout has passed. */
  lemma LiveJobIsNeverStuck(t: Table, j: JobId, timeout: nat, worker: string) returns (wait: nat, a: Step)
    requires Inv(t) && j in t.jobs && Live(t.jobs[j])
    ensures IsDelivery(a)
    ensures var w := Apply(t, Tick(wait));
            Enabled(w, a) && Apply(w, a).jobs.Keys == t.jobs.Keys && Apply(w, a).jobs[j] != t.jobs[j]
  {
    if t.jobs[j].status.Pending? {
      wait, a := 0, Claim(worker, {}, Some(j));
    } else {
      wait, a := timeout + t.jobs[j].startedAt.value + 1, ResetStale(timeout);
      assert Stale(t.jobs[j], timeout, t.clock + wait);
    }
  }

  /** No claim and no watchdog pass changes a row, now or at any later time. */
  ghost predicate Quiet(t: Table) {
    forall wait: nat, a: Step :: IsDelivery(a) && Enabled(Apply(t, Tick(wait)), a)
      ==> Apply(Apply(t, Tick(wait)), a).jobs == t.jobs
  }

  predicate AllTerminal(t: Table) {
    forall j :: j in t.jobs ==> Terminal(t.jobs[j])
  }

  lemma WaitingKeepsWork(t: Table, wait: nat)
    requires Inv(t)
    ensures Inv(Apply(t, Tick(wait))) && Work(Apply(t, Tick(wait))) == Work(t)
  {
    StepKeeps(t, Tick(wait));
    assert RowWorks(Apply(t, Tick(wait))) == RowWorks(t);
  }

  lemma DeliveryUsesWork(t: Table, a: Step)
    requires Inv(t) && IsDelivery(a) && Enabled(t, a) && Apply(t, a).jobs != t.jobs
    ensures Inv(Apply(t, a)) && Work(Apply(t, a)) < Work(t)
  {
    StepKeeps(t, a);
    ChangesUseWork(t, a);
  }

  /** While a job is live some delivery changes the table. */
  lemma SomeDelivery(t: Table) returns (wait: nat, a: Step)
    requires Inv(t) && !AllTerminal(t)
    ensures IsDelivery(a)
    ensures var w := Apply(t, Tick(wait));
            Enabled(w, a) && Apply(w, a).jobs != t.jobs && Apply(w, a).jobs.Keys == t.jobs.Keys
  {
    var j :| j in t.jobs && !Terminal(t.jobs[j]);
    wait, a := LiveJobIsNeverStuck(t, j, 0, "worker");
  }

  lemma QuietExactly(t: Table)
    requires Inv(t)
    ensures Quiet(t) <==> AllTerminal(t)
  {
    if !AllTerminal(t) { var wait, a := SomeDelivery(t); }
    if AllTerminal(t) {
      forall wait: nat, a: Step | IsDelivery(a) && Enabled(Apply(t, Tick(wait)), a)
        ensures Apply(Apply(t, Tick(wait)), a).jobs == t.jobs
      {
        TerminalRowsStay(Apply(t, Tick(wait)), a);
      }
    }
  }

  lemma TerminalRowsStay(t: Table, a: Step)
    requires AllTerminal(t) && IsDelivery(a) && Enabled(t, a)
    ensures Apply(t, a).jobs == t.jobs
  {}

  /** Every job settles. A run without inserts and admin resets changes the table at most Work(t)
      times; when after it no claim and no watchdog pass can ever change a row, and only then, every
      job still stored is completed or failed. */
  lemma EveryJobSettles(t: Table, steps: seq<Step>)
    requires Inv(t) && Runs(t, steps) && NoNewWork(steps)
    ensures CountChanges(t, steps) <= Work(t)
    ensures Quiet(Exec(t, steps)) <==> AllTerminal(Exec(t, steps))
  {
    ProtocolTerminates(t, steps);
    ExecKeeps(t, steps);
    QuietExactly(Exec(t, steps));
  }

  predicate OnlyDeliveries(steps: seq<Step>) {
    forall i :: 0 <= i < |steps| ==> steps[i].Tick? || IsDelivery(steps[i])
  }

  lemma Advance(t: Table) returns (wait: nat, a: Step, next: Table)
    requires Inv(t) && !AllTerminal(t)
    ensures IsDelivery(a) && Enabled(Apply(t, Tick(wait)), a) && next == Apply(Apply(t, Tick(wait)), a)
    ensures Inv(next) && Work(next) < Work(t) && next.jobs.Keys == t.jobs.Keys
  {
    wait, a := SomeDelivery(t);
    WaitingKeepsWork(t, wait);
    DeliveryUsesWork(Apply(t, Tick(wait)), a);
    next := Apply(Apply(t, Tick(wait)), a);
  }

  lemma WaitThenDeliver(t: Table, wait: nat, a: Step, rest: seq<Step>) returns (steps: seq<Step>)
    requires IsDelivery(a) && Enabled(Apply(t, Tick(wait)), a)
    requires Runs(Apply(Apply(t, Tick(wait)), a), rest) && OnlyDeliveries(rest)
    ensures Runs(t, steps) && OnlyDeliveries(steps) && Exec(t, steps) == Exec(Apply(Apply(t, Tick(wait)), a), rest)
  {
    steps := [Tick(wait), a] + rest;
    assert steps[1..] == [a] + rest && steps[1..][1..] == rest;
    assert Runs(Apply(t, Tick(wait)), steps[1..]);
  }

  /** And it can: from every table that keeps the invariant, claims and watchdog passes alone settle
      every job. */
  lemma {:induction false} CanSettle(t: Table) returns (steps: seq<Step>)
    requires Inv(t)
    ensures Runs(t, steps) && OnlyDeliveries(steps)
    ensures AllTerminal(Exec(t, steps)) && Exec(t, steps).jobs.Keys == t.jobs.Keys
    decreases Work(t)
  {
    if AllTerminal(t) {
      steps := [];
    } else {
      var wait, a, next := Advance(t);
      var rest := CanSettle(next);
      steps := WaitThenDeliver(t, wait, a, rest);
    }
  }

  // -- Idempotent enqueue, retention, admin reset -----------------------------

  /** After an enqueue under a key that did not fail, exactly one live job of the owner carries it. */
  lemma OneLiveJobPerKey(t: Table, owner: int, jobType: JobType, picture: Option<int>, key: string)
    requires Inv(t)
    requires HasConflict(t, owner, Some(key)) || InsertStep(t, owner, jobType, picture, Some(key)) != t
    ensures var t' := InsertStep(t, owner, jobType, picture, Some(key));
      exists i :: i in t'.jobs && Live(t'.jobs[i]) && t'.jobs[i].owner == owner && t'.jobs[i].key == Some(key)
        && forall j :: j in t'.jobs && Live(t'.jobs[j]) && t'.jobs[j].owner == owner && t'.jobs[j].key == Some(key)
             ==> j == i
  {
    var t' := InsertStep(t, owner, jobType, picture, Some(key));
    StepKeeps(t, Insert(owner, jobType, picture, Some(key)));
    var i: JobId;
    if HasConflict(t, owner, Some(key)) {
      i :| i in t.jobs && Live(t.jobs[i]) && t.jobs[i].owner == owner && t.jobs[i].key == Some(key);
    } else {
      i := t.nextId;
    }
    assert i in t'.jobs && Live(t'.jobs[i]) && t'.jobs[i].owner == owner && t'.jobs[i].key == Some(key);
    forall j | j in t'.jobs && Live(t'.jobs[j]) && t'.jobs[j].owner == owner && t'.jobs[j].key == Some(key)
      ensures j == i
    {
      assert Fits(t'.jobs, j, t'.jobs[j]);
      assert i != j ==> !SameLiveKey(t'.jobs[i], t'.jobs[j]);
    }
  }

  /** Retention only removes jobs that finished long enough ago, never a live one, and the fallback
      to the creation time is never needed. */
  lemma RetentionSparesRecentJobs(t: Table, retention: nat, j: JobId)
    requires Inv(t) && j in t.jobs
    ensures j !in DeleteTerminalStep(t, retention).jobs
      <==> Terminal(t.jobs[j]) && t.jobs[j].completedAt.Some? && t.jobs[j].completedAt.value + retention < t.clock
  {}

  /** An admin reset is documented for non-terminal jobs only. It acts on every job but a completed
      one, so it also revives a failed job, with a full retry budget, exactly when no live job took
      over its key or its picture edit meanwhile. */
  lemma ResetRevivesFailedJobs(t: Table, j: JobId)
    requires Inv(t) && j in t.jobs && t.jobs[j].status.Failed?
    ensures Apply(t, AdminReset(j)) != t <==> Fits(t.jobs, j, t.jobs[j].(status := Pending))
    ensures Apply(t, AdminReset(j)) != t ==> ClaimsLeft(Apply(t, AdminReset(j)), j) == t.jobs[j].maxRetries
  {
    StepKeeps(t, AdminReset(j));
    assert Fits(t.jobs, j, ResetRow(t.jobs[j])) <==> Fits(t.jobs, j, t.jobs[j].(status := Pending));
    if CanReset(t, j) { assert Apply(t, AdminReset(j)).jobs[j].status != t.jobs[j].status; }
  }

  /** A job that is cancelled and then reset is pending again, although it was terminal. */
  lemma CancelledJobComesBack()
    ensures var steps := [Insert(1, GenThumbnail, None, None), AdminCancel(0)];
            && Runs(Init(3), steps)
            && var t := Exec(Init(3), steps);
               && 0 in t.jobs && t.jobs[0].status.Failed? && Terminal(t.jobs[0])
               && Apply(t, AdminReset(0)).jobs[0].status.Pending?
  {
    var t0 := Init(3);
    var t1 := Apply(t0, Insert(1, GenThumbnail, None, None));
    var t2 := Apply(t1, AdminCancel(0));
    assert t1.jobs.Keys == {0} && t2.jobs.Keys == {0};
    assert t2.jobs[0].status.Failed?;
    var steps := [Insert(1, GenThumbnail, None, None), AdminCancel(0)];
    assert steps[1..] == [AdminCancel(0)] && steps[1..][1..] == [];
    assert Exec(t1, steps[1..]) == Exec(t2, steps[1..][1..]) == t2;
    assert Fits(t2.jobs, 0, ResetRow(t2.jobs[0]));
  }
}
