/** The repository object over the job table: each method is one statement of the protocol, changes
    the rows in place and returns what the statement returns. */
module JobStore {
  import opened Wrappers
  import opened JobLease

  /** `id` is the oldest pending row of the wanted types that no other transaction has locked. */
  predicate Oldest(t: Table, types: set<JobType>, locked: set<JobId>, id: JobId) {
    && Claimable(t, id, types) && id !in locked
    && forall i :: i in t.jobs && Claimable(t, i, types) && i !in locked ==> t.jobs[id].createdAt <= t.jobs[i].createdAt
  }

  lemma {:induction false} OldestExists(t: Table, types: set<JobType>, locked: set<JobId>, some: JobId)
    returns (id: JobId)
    requires Claimable(t, some, types) && some !in locked
    ensures Oldest(t, types, locked, id)
    decreases t.jobs[some].createdAt
  {
    if Oldest(t, types, locked, some) { return some; }
    var i :| i in t.jobs && Claimable(t, i, types) && i !in locked && t.jobs[i].createdAt < t.jobs[some].createdAt;
    id := OldestExists(t, types, locked, i);
  }

  class JobRepository {
    var jobs: map<JobId, Job>
    var clock: nat
    const defaultMax: nat
    var nextId: JobId
    var nextToken: Token

    ghost function Abs(): Table
      reads this
    {
      Table(jobs, clock, defaultMax, nextId, nextToken)
    }

    constructor (defaultMax: nat)
      ensures Abs() == Init(defaultMax)
    {
      jobs, clock, nextId, nextToken := map[], 0, 0, 0;
      this.defaultMax := defaultMax;
    }

    /** Enqueue a job, or find the live one that already carries the key. `Err` is a unique violation
        of the one-edit-per-picture index. */
    method Insert(owner: int, jobType: JobType, picture: Option<int>, key: Option<string>)
      returns (r: Result<(JobId, bool), string>)
      modifies this
      ensures Abs() == InsertStep(old(Abs()), owner, jobType, picture, key)
      ensures r.Ok? ==>
        r.value.0 in jobs && r.value.1 == (Abs() != old(Abs())) && r.value.1 == (r.value.0 !in old(jobs))
      ensures r.Ok? && key.Some? ==>
        Live(jobs[r.value.0]) && jobs[r.value.0].owner == owner && jobs[r.value.0].key == key
      ensures r.Err? ==> Abs() == old(Abs()) && !HasConflict(Abs(), owner, key)
      requires nextId !in jobs
    {
      var row := Job(owner, jobType, picture, key, Pending, 0, defaultMax, None, None, None, None, clock, None, None);
      if key.Some? && exists i :: i in jobs && Live(jobs[i]) && jobs[i].owner == owner && jobs[i].key == key {
        var i :| i in jobs && Live(jobs[i]) && jobs[i].owner == owner && jobs[i].key == key;
        return Ok((i, false));
      }
      if !Fits(jobs, nextId, row) { return Err("duplicate key value violates unique constraint"); }
      var id := nextId;
      jobs := jobs[id := row];
      nextId := nextId + 1;
      return Ok((id, true));
    }

    /** Claim the oldest free pending job, minting a fresh token. */
    method ClaimNext(worker: string, types: set<JobType>, locked: set<JobId>) returns (r: Option<(JobId, Token)>)
      modifies this
      ensures r.None? ==> Abs() == old(Abs()) && forall i :: i in jobs && Claimable(Abs(), i, types) ==> i in locked
      ensures r.Some? ==>
        && Oldest(old(Abs()), types, locked, r.value.0)
        && Abs() == ClaimStep(old(Abs()), worker, r.value.0)
        && Holds(Abs(), r.value.0, r.value.1) && r.value.1 == old(nextToken)
    {
      if !exists i :: i in jobs && jobs[i].status.Pending?
                      && (types == {} || jobs[i].jobType in types) && i !in locked {
        return None;
      }
      ghost var some :| some in jobs && jobs[some].status.Pending?
                        && (types == {} || jobs[some].jobType in types) && some !in locked;
      ghost var oldest := OldestExists(Abs(), types, locked, some);
      var id :| id in jobs && Oldest(Table(jobs, clock, defaultMax, nextId, nextToken), types, locked, id);
      var token := nextToken;
      nextToken := nextToken + 1;
      jobs := jobs[id := jobs[id].(status := Processing, startedAt := Some(clock),
                                   claimedBy := Some(worker), claimToken := Some(token))];
      return Some((id, token));
    }

    method Complete(id: JobId, token: Token, result: string) returns (r: Option<Job>)
      modifies this`jobs
      ensures Abs() == Apply(old(Abs()), Step.Complete(id, token, result))
      ensures r.Some? <==> Holds(old(Abs()), id, token)
      ensures r.Some? ==> r.value == jobs[id]
    {
      if id in jobs && jobs[id].claimToken == Some(token) && jobs[id].status == Processing {
        jobs := jobs[id := jobs[id].(status := Completed, completedAt := Some(clock), result := Some(result))];
        return Some(jobs[id]);
      }
      return None;
    }

    method Fail(id: JobId, token: Token, error: string, permanent: bool) returns (r: Option<Job>)
      modifies this`jobs
      ensures Abs() == Apply(old(Abs()), Step.Fail(id, token, error, permanent))
      ensures r.Some? <==> Holds(old(Abs()), id, token)
      ensures r.Some? ==> r.value == jobs[id]
    {
      if id !in jobs || jobs[id].claimToken != Some(token) || jobs[id].status != Processing { return None; }
      var job := jobs[id];
      if permanent || job.retryCount + 1 >= job.maxRetries {
        job := job.(status := Failed, completedAt := Some(clock));
      } else {
        job := job.(status := Pending, startedAt := None, completedAt := None);
      }
      job := job.(retryCount := job.retryCount + 1, error := Some(error), claimedBy := None, claimToken := None);
      jobs := jobs[id := job];
      return Some(job);
    }

    /** Take every job off a worker that holds it longer than `timeout`. */
    method ResetStale(timeout: nat) returns (taken: set<JobId>)
      modifies this`jobs
      ensures Abs() == ResetStaleStep(old(Abs()), timeout)
      ensures taken == set i | i in old(jobs) && Stale(old(jobs)[i], timeout, clock)
    {
      taken := set i | i in jobs && Stale(jobs[i], timeout, clock);
      jobs := map i | i in jobs :: if i in taken then StaleRow(jobs[i], clock) else jobs[i];
    }

    /** `Err` is a unique violation; the statement then changes nothing. */
    method AdminReset(id: JobId) returns (r: Result<Option<Job>, string>)
      modifies this`jobs
      ensures Abs() == Apply(old(Abs()), Step.AdminReset(id))
      ensures r.Ok? && r.value.Some? <==> CanReset(old(Abs()), id)
      ensures r == Ok(None) <==> id !in old(jobs) || old(jobs)[id].status.Completed?
    {
      if id !in jobs || jobs[id].status.Completed? { return Ok(None); }
      var job := jobs[id].(status := Pending, claimedBy := None, claimToken := None, startedAt := None,
                           retryCount := 0, error := Some("Reset by admin"));
      if !Fits(jobs, id, job) { return Err("duplicate key value violates unique constraint"); }
      jobs := jobs[id := job];
      return Ok(Some(job));
    }

    method AdminCancel(id: JobId) returns (r: Option<Job>)
      modifies this`jobs
      ensures Abs() == Apply(old(Abs()), Step.AdminCancel(id))
      ensures r.Some? <==> id in old(jobs) && Live(old(jobs)[id])
    {
      if id !in jobs || jobs[id].status.Completed? || jobs[id].status.Failed? { return None; }
      var job := jobs[id].(status := Failed, completedAt := Some(clock), claimedBy := None, claimToken := None,
                           error := Some("Cancelled by admin"));
      jobs := jobs[id := job];
      return Some(job);
    }

    method DeleteTerminalOlderThan(retention: nat) returns (deleted: nat)
      modifies this`jobs
      ensures Abs() == DeleteTerminalStep(old(Abs()), retention)
      ensures deleted + |jobs| == old(|jobs|)
    {
      var gone := set i | i in jobs && Expired(jobs[i], retention, clock);
      deleted := |gone|;
      ghost var before := jobs;
      jobs := map i | i in jobs && i !in gone :: jobs[i];
      assert before.Keys == jobs.Keys + gone;
      assert |before.Keys| == |jobs.Keys| + |gone|;
    }
  }
}
