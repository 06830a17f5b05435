/** The drain as one waiter among the runners. The semaphore is fair: permits go to the waiters in the
    order in which they queued, so a drain that waits for more permits than are free holds up every
    runner that queues after it. */
module RoutineShutdown {
  import opened Wrappers
  import opened Routines
  import opened RoutineTheorems
  import RoutineDrain

  /** A scheduler whose drain asks for `n` permits: the waiting runners that queued before it, and
      whether it has been given its permits and dropped them again. */
  datatype Shutdown = Shutdown(s: State, n: nat, ahead: set<nat>, returned: bool)

  datatype Move = Task(a: Step) | Return

  predicate CanStep(q: Shutdown, m: Move) {
    match m
    case Task(a) => Enabled(q.s, a) && (a.Acquire? ==> q.returned || a.runner in q.ahead)
    case Return => !q.returned && (q.n == 0 || (q.ahead == {} && RoutineDrain.Returns(q.s, q.n)))
  }

  function Stepped(q: Shutdown, m: Move): Shutdown
    requires CanStep(q, m)
  {
    match m
    case Task(a) => q.(s := Apply(q.s, a), ahead := if a.Acquire? then q.ahead - {a.runner} else q.ahead)
    case Return => q.(returned := true)
  }

  predicate Plays(q: Shutdown, moves: seq<Move>)
    decreases |moves|
  {
    moves == [] || (CanStep(q, moves[0]) && Plays(Stepped(q, moves[0]), moves[1..]))
  }

  function After(q: Shutdown, moves: seq<Move>): Shutdown
    requires Plays(q, moves)
    decreases |moves|
  {
    if moves == [] then q else After(Stepped(q, moves[0]), moves[1..])
  }

  predicate NoTriggers(moves: seq<Move>) {
    forall i :: 0 <= i < |moves| && moves[i].Task? ==> !moves[i].a.Schedule?
  }

  /** The drain is still waiting, behind runners that wait too. */
  ghost predicate Draining(q: Shutdown) {
    Inv(q.s) && !q.returned && forall r :: r in q.ahead ==> AtPc(q.s, r, Waiting)
  }

  /** A runner that queued behind the drain. */
  predicate Behind(q: Shutdown, r: nat) {
    AtPc(q.s, r, Waiting) && r !in q.ahead
  }

  lemma Onward(q: Shutdown, m: Move, rest: seq<Move>)
    requires CanStep(q, m) && Plays(Stepped(q, m), rest) && NoTriggers(rest) && (m.Task? ==> !m.a.Schedule?)
    ensures Plays(q, [m] + rest) && After(q, [m] + rest) == After(Stepped(q, m), rest) && NoTriggers([m] + rest)
  {
    assert ([m] + rest)[1..] == rest;
  }

  // -- What one move keeps ----------------------------------------------------

  lemma KeysDiffer(s: State, r: nat, p: nat)
    requires Inv(s) && r in s.runners && p in s.runners && r != p
    ensures s.runners[r].key != s.runners[p].key
  {
    RunnerHasEntry(s, r);
    var v := ViewOf(s, s.runners[r].key);
    assert p in v.tasks <==> s.runners[p].key == s.runners[r].key;
  }

  lemma WaiterStays(s: State, a: Step, r: nat)
    requires Inv(s) && Enabled(s, a) && AtPc(s, r, Waiting) && a != Acquire(r)
    ensures AtPc(Apply(s, a), r, Waiting) && Apply(s, a).runners[r].key == s.runners[r].key
    ensures Picks(Apply(s, a), s.runners[r].key) == Picks(s, s.runners[r].key)
  {
    if a.Pick? { KeysDiffer(s, r, a.runner); }
  }

  lemma DrainingStep(q: Shutdown, m: Move)
    requires Draining(q) && CanStep(q, m) && m.Task?
    ensures Draining(Stepped(q, m)) && Stepped(q, m).s.limit == q.s.limit
  {
    StepKeeps(q.s, m.a);
    forall r | r in Stepped(q, m).ahead ensures AtPc(Stepped(q, m).s, r, Waiting) { WaiterStays(q.s, m.a, r); }
  }

  // -- A raised drain ---------------------------------------------------------

  /** A drain of more permits than there are never returns, and over every run, whatever is triggered
      meanwhile, a runner behind it keeps waiting: its entry stays and its key is never picked again. */
  lemma {:induction false} RaisedDrainStarves(q: Shutdown, moves: seq<Move>, r: nat)
    requires Draining(q) && Plays(q, moves) && q.n > q.s.limit && Behind(q, r)
    ensures var k, e := q.s.runners[r].key, After(q, moves);
            !e.returned && Behind(e, r) && k in e.s.entries && Picks(e.s, k) == Picks(q.s, k)
    decreases |moves|
  {
    if moves == [] {
      RunnerHasEntry(q.s, r);
    } else {
      assert moves[0].Task?;
      DrainingStep(q, moves[0]);
      WaiterStays(q.s, moves[0].a, r);
      RaisedDrainStarves(Stepped(q, moves[0]), moves[1..], r);
    }
  }

  lemma {:induction false} RaisedDrainWaits(q: Shutdown, moves: seq<Move>)
    requires Draining(q) && Plays(q, moves) && q.n > q.s.limit
    ensures !After(q, moves).returned
    decreases |moves|
  {
    if moves != [] {
      assert moves[0].Task?;
      DrainingStep(q, moves[0]);
      RaisedDrainWaits(Stepped(q, moves[0]), moves[1..]);
    }
  }

  // -- A drain that can return ------------------------------------------------

  /** While permits are short some runner owns one, and can move. */
  lemma HolderMoves(s: State, n: nat) returns (a: Step)
    requires Inv(s) && s.free < n <= s.limit
    ensures Enabled(s, a) && Moves(a) && !a.Acquire?
  {
    assert |Holders(s)| > 0;
    var h: nat :| h in Holders(s);
    a := NextMove(h, s.runners[h].pc);
  }

  /** The waiters ahead are served, then enough permits come back. */
  lemma NextMoveOf(q: Shutdown) returns (a: Step)
    requires Draining(q) && q.n <= q.s.limit && !CanStep(q, Return)
    ensures CanStep(q, Task(a)) && Moves(a)
  {
    if q.ahead != {} && q.s.free > 0 {
      var r :| r in q.ahead;
      a := Acquire(r);
    } else {
      a := HolderMoves(q.s, if q.ahead != {} then 1 else q.n);
    }
  }

  lemma {:induction false} ReturnIsReached(q: Shutdown) returns (moves: seq<Move>)
    requires Draining(q) && q.n <= q.s.limit
    ensures Plays(q, moves) && NoTriggers(moves)
    ensures After(q, moves).returned && Inv(After(q, moves).s)
    decreases Work(q.s)
  {
    if CanStep(q, Return) {
      Onward(q, Return, []);
      return [Return] + [];
    }
    var a := NextMoveOf(q);
    MovesUseWork(q.s, a);
    DrainingStep(q, Task(a));
    var rest := ReturnIsReached(Stepped(q, Task(a)));
    Onward(q, Task(a), rest);
    moves := [Task(a)] + rest;
  }

  /** In every state, behind any of the waiting runners, the drain can return without further triggers
      exactly when the setting was not raised. */
  lemma DrainCanReturnExactly(q: Shutdown)
    requires Draining(q)
    ensures (exists moves :: Plays(q, moves) && NoTriggers(moves) && After(q, moves).returned) <==> q.n <= q.s.limit
  {
    if q.n <= q.s.limit {
      var moves := ReturnIsReached(q);
    } else {
      forall moves | Plays(q, moves) ensures !After(q, moves).returned { RaisedDrainWaits(q, moves); }
    }
  }

  // -- The runners behind it --------------------------------------------------

  function Tasks(steps: seq<Step>): seq<Move> {
    if steps == [] then [] else [Task(steps[0])] + Tasks(steps[1..])
  }

  /** Once the drain has returned, every run of the scheduler goes on as without it. */
  lemma {:induction false} FreeAgain(q: Shutdown, steps: seq<Step>)
    requires q.returned && Runs(q.s, steps) && TriggerFree(steps)
    ensures Plays(q, Tasks(steps)) && NoTriggers(Tasks(steps)) && After(q, Tasks(steps)).s == Exec(q.s, steps)
    decreases |steps|
  {
    if steps != [] {
      var m := Task(steps[0]);
      FreeAgain(Stepped(q, m), steps[1..]);
      Onward(q, m, Tasks(steps[1..]));
    }
  }

  lemma {:induction false} Joined(q: Shutdown, first: seq<Move>, second: seq<Move>)
    requires Plays(q, first) && Plays(After(q, first), second) && NoTriggers(first) && NoTriggers(second)
    ensures Plays(q, first + second) && NoTriggers(first + second)
    ensures After(q, first + second) == After(After(q, first), second)
    decreases |first|
  {
    if first == [] {
      assert first + second == second;
    } else {
      Joined(Stepped(q, first[0]), first[1..], second);
      assert first + second == [first[0]] + (first[1..] + second);
      Onward(q, first[0], first[1..] + second);
    }
  }

  /** With a runner behind the drain, the scheduler can still empty its map without further triggers
      exactly when the setting was not raised. */
  lemma MapCanEmptyExactly(q: Shutdown, r: nat)
    requires Draining(q) && Behind(q, r)
    ensures (exists moves :: Plays(q, moves) && NoTriggers(moves) && After(q, moves).s.entries == map[])
      <==> q.n <= q.s.limit
  {
    if q.n <= q.s.limit {
      var first := ReturnIsReached(q);
      var idle := CanBecomeIdle(After(q, first).s);
      FreeAgain(After(q, first), idle);
      Joined(q, first, Tasks(idle));
    } else {
      forall moves | Plays(q, moves) ensures After(q, moves).s.entries != map[] { RaisedDrainStarves(q, moves, r); }
    }
  }
}
