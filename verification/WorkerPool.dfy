/** The workers around the job table: polling under permits, running claims, and responses that
    stay in flight and may be delivered at any time and more than once. */
module WorkerPool {
  import opened Wrappers
  import opened JobLease

  type Name = string

  /** A claimed job as its handler knows it. */
  datatype Task = Task(job: JobId, token: Token)

  /** A worker as the back-end of `table` sees it. It runs one polling loop per back-end over one
      semaphore: `free` permits are in it, one is held while this back-end is polled, one by each task
      it handed out, and `elsewhere` by the loops and tasks of other back-ends. */
  datatype Worker = Worker(limit: nat, free: nat, polling: bool, elsewhere: nat, tasks: set<Task>)

  datatype System = System(table: Table, workers: map<Name, Worker>, sent: set<Step>)

  datatype Move =
    | Acquire(w: Name)
    | PollClaims(w: Name, types: set<JobType>, pick: JobId)
    | ClaimIsLost(w: Name, types: set<JobType>, pick: JobId)
    | PollFails(w: Name)
    | TakenElsewhere(w: Name)
    | ReturnedElsewhere(w: Name)
    | Sends(w: Name, task: Task, response: Step)
    | Ends(w: Name, task: Task)
    | Dies(w: Name)
    | Delivers(response: Step)
    | Backend(step: Step)

  predicate IsResponse(a: Step, job: JobId, token: Token) {
    (a.Complete? || a.Fail?) && a.job == job && a.token == token
  }

  /** A move is possible; a claim whose reply is lost leaves the row claimed by nobody's task. */
  predicate CanMove(s: System, m: Move) {
    match m
    case Acquire(w) => w in s.workers && !s.workers[w].polling && s.workers[w].free > 0
    case PollClaims(w, types, pick) => w in s.workers && s.workers[w].polling && Claimable(s.table, pick, types)
    case ClaimIsLost(w, types, pick) => w in s.workers && s.workers[w].polling && Claimable(s.table, pick, types)
    case PollFails(w) => w in s.workers && s.workers[w].polling
    case TakenElsewhere(w) => w in s.workers && s.workers[w].free > 0
    case ReturnedElsewhere(w) => w in s.workers && s.workers[w].elsewhere > 0
    case Sends(w, task, response) =>
      w in s.workers && task in s.workers[w].tasks && IsResponse(response, task.job, task.token)
    case Ends(w, task) => w in s.workers && task in s.workers[w].tasks
    case Dies(w) => w in s.workers
    case Delivers(response) => response in s.sent && Enabled(s.table, response)
    case Backend(step) => !step.Claim? && !step.Complete? && !step.Fail?
  }

  /** The statement a move runs on the table, if any. */
  function Statement(m: Move): Option<Step> {
    match m
    case PollClaims(w, types, pick) => Some(Claim(w, types, Some(pick)))
    case ClaimIsLost(w, types, pick) => Some(Claim(w, types, Some(pick)))
    case Delivers(response) => Some(response)
    case Backend(step) => Some(step)
    case _ => None
  }

  function SetWorker(s: System, w: Name, worker: Worker): map<Name, Worker> {
    s.workers[w := worker]
  }

  function WorkersAfter(s: System, m: Move): map<Name, Worker>
    requires CanMove(s, m)
  {
    match m
    case Acquire(w) => SetWorker(s, w, s.workers[w].(free := s.workers[w].free - 1, polling := true))
    case PollClaims(w, _, pick) =>
      SetWorker(s, w, s.workers[w].(polling := false, tasks := s.workers[w].tasks + {Task(pick, s.table.nextToken)}))
    case PollFails(w) => SetWorker(s, w, s.workers[w].(polling := false, free := s.workers[w].free + 1))
    case TakenElsewhere(w) =>
      SetWorker(s, w, s.workers[w].(free := s.workers[w].free - 1, elsewhere := s.workers[w].elsewhere + 1))
    case ReturnedElsewhere(w) =>
      SetWorker(s, w, s.workers[w].(free := s.workers[w].free + 1, elsewhere := s.workers[w].elsewhere - 1))
    case ClaimIsLost(w, _, _) => SetWorker(s, w, s.workers[w].(polling := false, free := s.workers[w].free + 1))
    case Ends(w, task) =>
      SetWorker(s, w, s.workers[w].(tasks := s.workers[w].tasks - {task}, free := s.workers[w].free + 1))
    case Dies(w) => SetWorker(s, w, Worker(s.workers[w].limit, s.workers[w].limit, false, 0, {}))
    case _ => s.workers
  }

  function After(s: System, m: Move): System
    requires CanMove(s, m)
  {
    var statement := Statement(m);
    System(if statement.Some? then Apply(s.table, statement.value) else s.table,
           WorkersAfter(s, m),
           if m.Sends? then s.sent + {m.response} else s.sent)
  }

  // -- The invariant ----------------------------------------------------------

  /** Every permit is in the semaphore, with the poll, with one running task, or elsewhere. */
  predicate PermitsOk(w: Worker) {
    w.free + (if w.polling then 1 else 0) + w.elsewhere + |w.tasks| == w.limit
  }

  /** The token was issued, and no row but `job`'s can be under it. */
  ghost predicate Bound(t: Table, job: JobId, token: Token) {
    token < t.nextToken && forall i :: i in t.jobs && t.jobs[i].claimToken == Some(token) ==> i == job
  }

  ghost predicate TasksBound(t: Table, workers: map<Name, Worker>) {
    forall w, task :: w in workers && task in workers[w].tasks ==> Bound(t, task.job, task.token)
  }

  /** A token belongs to one task of one worker. */
  ghost predicate TasksDistinct(workers: map<Name, Worker>) {
    forall v, w, a, b ::
      (v in workers && w in workers && a in workers[v].tasks && b in workers[w].tasks && a.token == b.token) ==>
      v == w && a == b
  }

  ghost predicate SentBound(t: Table, sent: set<Step>) {
    forall r :: r in sent ==> (r.Complete? || r.Fail?) && Bound(t, r.job, r.token)
  }

  ghost predicate SystemInv(s: System) {
    && Inv(s.table)
    && (forall w :: w in s.workers ==> PermitsOk(s.workers[w]))
    && TasksBound(s.table, s.workers) && TasksDistinct(s.workers) && SentBound(s.table, s.sent)
  }

  /** Rows get a token only from a claim, and then a fresh one. */
  lemma TokenOrigin(t: Table, a: Step, i: JobId)
    requires Inv(t) && Enabled(t, a) && i in Apply(t, a).jobs && Apply(t, a).jobs[i].claimToken.Some?
    ensures t.nextToken <= Apply(t, a).nextToken
    ensures (i in t.jobs && Apply(t, a).jobs[i].claimToken == t.jobs[i].claimToken)
         || (a.Claim? && a.pick == Some(i) && Apply(t, a).jobs[i].claimToken == Some(t.nextToken))
  {}

  lemma TokensGrow(t: Table, a: Step)
    requires Enabled(t, a)
    ensures t.nextToken <= Apply(t, a).nextToken
  {}

  lemma StaysBound(t: Table, a: Step, job: JobId, token: Token)
    requires Inv(t) && Enabled(t, a) && Bound(t, job, token)
    ensures Bound(Apply(t, a), job, token)
  {
    TokensGrow(t, a);
    forall i | i in Apply(t, a).jobs && Apply(t, a).jobs[i].claimToken == Some(token) ensures i == job {
      TokenOrigin(t, a, i);
    }
  }

  /** A fresh claim binds its token to the claimed job. */
  lemma ClaimBinds(t: Table, w: Name, types: set<JobType>, pick: JobId)
    requires Inv(t) && Claimable(t, pick, types)
    ensures Bound(Apply(t, Claim(w, types, Some(pick))), pick, t.nextToken)
  {}

  lemma StatementsKeepBounds(s: System, a: Step)
    requires SystemInv(s) && Enabled(s.table, a)
    ensures Inv(Apply(s.table, a)) && TasksBound(Apply(s.table, a), s.workers) && SentBound(Apply(s.table, a), s.sent)
  {
    StepKeeps(s.table, a);
    forall w, task | w in s.workers && task in s.workers[w].tasks
      ensures Bound(Apply(s.table, a), task.job, task.token)
    {
      StaysBound(s.table, a, task.job, task.token);
    }
    forall r | r in s.sent ensures Bound(Apply(s.table, a), r.job, r.token) { StaysBound(s.table, a, r.job, r.token); }
  }

  lemma PermitsStayOk(s: System, m: Move, w: Name)
    requires SystemInv(s) && CanMove(s, m) && w in s.workers
    ensures w in WorkersAfter(s, m) && PermitsOk(WorkersAfter(s, m)[w])
  {
    if m.PollClaims? && m.w == w {
      assert Task(m.pick, s.table.nextToken) !in s.workers[w].tasks;
    }
  }

  lemma TasksStayDistinct(s: System, m: Move)
    requires SystemInv(s) && CanMove(s, m)
    ensures TasksDistinct(WorkersAfter(s, m))
  {
    var after := WorkersAfter(s, m);
    forall v, w, a, b | v in after && w in after && a in after[v].tasks && b in after[w].tasks && a.token == b.token
      ensures v == w && a == b
    {
      OldOrFresh(s, m, v, a);
      OldOrFresh(s, m, w, b);
    }
  }

  /** A task after a move was there before, or is the one just claimed. */
  lemma OldOrFresh(s: System, m: Move, v: Name, a: Task)
    requires SystemInv(s) && CanMove(s, m) && v in WorkersAfter(s, m) && a in WorkersAfter(s, m)[v].tasks
    ensures (v in s.workers && a in s.workers[v].tasks && a.token < s.table.nextToken)
         || (m.PollClaims? && v == m.w && a == Task(m.pick, s.table.nextToken))
  {}

  /** Every move of workers, network, watchdog and admins keeps the invariant. */
  lemma SystemKeeps(s: System, m: Move)
    requires SystemInv(s) && CanMove(s, m)
    ensures SystemInv(After(s, m))
  {
    var table := After(s, m).table;
    if Statement(m).Some? { StatementsKeepBounds(s, Statement(m).value); }
    TasksStayDistinct(s, m);
    forall w | w in WorkersAfter(s, m) ensures PermitsOk(WorkersAfter(s, m)[w]) { PermitsStayOk(s, m, w); }
    forall w, task | w in WorkersAfter(s, m) && task in WorkersAfter(s, m)[w].tasks
      ensures Bound(table, task.job, task.token)
    {
      OldOrFresh(s, m, w, task);
      if m.PollClaims? { ClaimBinds(s.table, m.w, m.types, m.pick); }
    }
  }

  /** Before anything happens: an empty table, idle workers, nothing in flight. */
  lemma InitSystem(defaultMax: nat, limits: map<Name, nat>)
    requires defaultMax >= 1
    ensures SystemInv(System(Init(defaultMax), map w | w in limits :: Worker(limits[w], limits[w], false, 0, {}), {}))
  {}

  // -- Whole runs -------------------------------------------------------------

  predicate CanRun(s: System, moves: seq<Move>)
    decreases |moves|
  {
    moves == [] || (CanMove(s, moves[0]) && CanRun(After(s, moves[0]), moves[1..]))
  }

  function Run(s: System, moves: seq<Move>): System
    requires CanRun(s, moves)
    decreases |moves|
  {
    if moves == [] then s else Run(After(s, moves[0]), moves[1..])
  }

  /** The statements of a run, in order. */
  function Statements(moves: seq<Move>): seq<Step> {
    if moves == [] then []
    else (if Statement(moves[0]).Some? then [Statement(moves[0]).value] else []) + Statements(moves[1..])
  }

  lemma {:induction false} RunKeeps(s: System, moves: seq<Move>)
    requires SystemInv(s) && CanRun(s, moves)
    ensures SystemInv(Run(s, moves))
    decreases |moves|
  {
    if moves != [] {
      SystemKeeps(s, moves[0]);
      RunKeeps(After(s, moves[0]), moves[1..]);
    }
  }

  /** What the workers do to the table is a run of the lease protocol, so everything proved of every
      such run holds with workers that answer late, twice, or never. */
  lemma {:induction false} WorkersRefineTheProtocol(s: System, moves: seq<Move>)
    requires CanRun(s, moves)
    ensures Runs(s.table, Statements(moves)) && Run(s, moves).table == Exec(s.table, Statements(moves))
    decreases |moves|
  {
    if moves != [] {
      var s', rest := After(s, moves[0]), Statements(moves[1..]);
      WorkersRefineTheProtocol(s', moves[1..]);
      if Statement(moves[0]).Some? {
        assert Statements(moves) == [Statement(moves[0]).value] + rest;
        assert Statements(moves)[1..] == rest;
      } else {
        assert Statements(moves) == rest;
      }
    }
  }

  /** No worker ever runs more jobs than its limit, and among all tasks of all workers at most one
      per job is under the job's current claim. */
  lemma OneEffectiveTaskPerJob(s: System, moves: seq<Move>, v: Name, w: Name, a: Task, b: Task)
    requires SystemInv(s) && CanRun(s, moves)
    requires v in Run(s, moves).workers && a in Run(s, moves).workers[v].tasks
    requires w in Run(s, moves).workers && b in Run(s, moves).workers[w].tasks
    ensures var e := Run(s, moves); |e.workers[v].tasks| + e.workers[v].elsewhere <= e.workers[v].limit
    ensures var e := Run(s, moves);
            Holds(e.table, a.job, a.token) && Holds(e.table, b.job, b.token) && a.job == b.job ==> v == w && a == b
  {
    RunKeeps(s, moves);
  }

  /** A delivered response settles the job it was claimed for or changes nothing, and delivering it
      again changes nothing more. */
  lemma DeliveryIsIdempotent(s: System, response: Step)
    requires SystemInv(s) && CanMove(s, Delivers(response))
    ensures forall i :: i in s.table.jobs && i != response.job ==>
      i in After(s, Delivers(response)).table.jobs && After(s, Delivers(response)).table.jobs[i] == s.table.jobs[i]
    ensures var once := After(s, Delivers(response));
            CanMove(once, Delivers(response)) && After(once, Delivers(response)) == once
  {}
}
