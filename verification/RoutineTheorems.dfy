/** What the scheduler promises over every run: mutual exclusion per key, no lost trigger, bounded
    picks, quiescence, and exactly when a debounce window holds. */
module RoutineTheorems {
  import opened Wrappers
  import opened MapSum
  import opened Routines

  predicate TriggerFree(steps: seq<Step>) {
    forall i :: 0 <= i < |steps| ==> !steps[i].Schedule?
  }

  predicate NoTriggerOf(steps: seq<Step>, k: Key) {
    forall i :: 0 <= i < |steps| && steps[i].Schedule? ==> steps[i].input.key != k
  }

  function RunnersOf(s: State, k: Key): set<nat> {
    set i | i in s.runners && s.runners[i].key == k
  }

  // -- Mutual exclusion and permits -------------------------------------------

  /** In every reachable state a key has exactly one runner when its entry is Running and none
      otherwise, and every runner finds its entry. */
  lemma RunsOfOneKeyNeverOverlap(concurrency: nat, steps: seq<Step>, k: Key)
    requires Runs(Init(concurrency), steps)
    ensures var s := Exec(Init(concurrency), steps);
      && |RunnersOf(s, k)| == (if k in s.entries && s.entries[k].phase.Running? then 1 else 0)
      && (forall i :: i in s.runners ==> s.runners[i].key in s.entries)
  {
    InitInv(concurrency);
    ExecKeeps(Init(concurrency), steps);
    var s := Exec(Init(concurrency), steps);
    assert KeyOk(s, k);
    assert RunnersOf(s, k) == ViewOf(s, k).tasks.Keys;
    if k in s.entries && s.entries[k].phase.Running? {
      var r: nat :| Solo(ViewOf(s, k), r);
      assert RunnersOf(s, k) == {r};
    }
    forall i | i in s.runners ensures s.runners[i].key in s.entries {
      RunnerHasEntry(s, i);
    }
  }

  /** Permits are conserved, the in-flight counter is exact and never underflows, and while every
      permit is free no run is in flight. */
  lemma PermitsAreConserved(concurrency: nat, steps: seq<Step>)
    requires Runs(Init(concurrency), steps)
    ensures var s := Exec(Init(concurrency), steps);
      && s.free + |Holders(s)| == s.limit == (if concurrency == 0 then 1 else concurrency)
      && s.status.inFlight == |InFlight(s)| <= s.limit
      && (forall i :: i in s.runners && s.runners[i].pc.InRun? ==> s.status.inFlight > 0)
      && (s.free == s.limit ==> s.status.inFlight == 0 && Holders(s) == {})
  {
    InitInv(concurrency);
    ExecKeeps(Init(concurrency), steps);
    LimitIsFixed(Init(concurrency), steps);
    var s := Exec(Init(concurrency), steps);
    assert InFlight(s) <= Holders(s);
    SubsetSize(InFlight(s), Holders(s));
    forall i | i in s.runners && s.runners[i].pc.InRun? ensures s.status.inFlight > 0 {
      assert i in InFlight(s);
    }
  }

  lemma {:induction false} LimitIsFixed(s: State, steps: seq<Step>)
    requires Runs(s, steps)
    ensures Exec(s, steps).limit == s.limit
    decreases |steps|
  {
    if steps != [] { LimitIsFixed(Apply(s, steps[0]), steps[1..]); }
  }

  // -- No trigger is lost -----------------------------------------------------

  /** Trigger number i of a key is either covered by a pick that took an input at least as recent,
      or the entry holds the newest input and a timer, an un-picked runner or the rerun flag will
      bring it to a run. */
  lemma NoTriggerIsLost(concurrency: nat, steps: seq<Step>, k: Key, i: nat)
    requires Runs(Init(concurrency), steps)
    requires i < |Triggers(Exec(Init(concurrency), steps), k)|
    ensures var s := Exec(Init(concurrency), steps);
      var ts := Triggers(s, k);
      || (i < Covered(s, k) <= |ts| && Picks(s, k) != []
          && Picks(s, k)[|Picks(s, k)| - 1] == ts[Covered(s, k) - 1])
      || (k in s.entries && s.entries[k].nextInput == ts[|ts| - 1]
          && if s.entries[k].phase.Pending? then exists t :: t in s.timers && s.timers[t].key == k
             else s.entries[k].rerun || exists r :: r in RunnersOf(s, k) && Unpicked(s.runners[r].pc))
  {
    InitInv(concurrency);
    ExecKeeps(Init(concurrency), steps);
    var s := Exec(Init(concurrency), steps);
    var v := ViewOf(s, k);
    assert KeyOk(s, k);
    if Covered(s, k) <= i {
      assert Owed(v) > 0;
      if s.entries[k].phase.Pending? {
        var t :| t in v.timers;
        assert t in s.timers && s.timers[t].key == k;
      } else if !s.entries[k].rerun {
        var r :| r in v.tasks && Unpicked(v.tasks[r]);
        assert r in RunnersOf(s, k);
      }
    }
  }

  /** A pick takes the newest input triggered for its key and covers all of them. */
  lemma PickTakesTheNewest(s: State, r: nat)
    requires Inv(s) && AtPc(s, r, Permitted)
    ensures var k := s.runners[r].key;
      var s' := PickStep(s, r);
      var ts := Triggers(s, k);
      && ts != [] && r in s'.runners && s'.runners[r].pc == Picked(ts[|ts| - 1])
      && Covered(s', k) == |ts| && Triggers(s', k) == ts
  {
    RunnerHasEntry(s, r);
    assert KeyOk(s, s.runners[r].key);
  }

  // -- How many runs a burst costs --------------------------------------------

  lemma OwedAtMostTwo(s: State, k: Key)
    ensures Owed(ViewOf(s, k)) <= 2
  {}

  /** Picks of a key never exceed its triggers. */
  lemma PicksNeverExceedTriggers(concurrency: nat, steps: seq<Step>, k: Key)
    requires Runs(Init(concurrency), steps)
    ensures var s := Exec(Init(concurrency), steps); |Picks(s, k)| <= |Triggers(s, k)|
  {
    InitInv(concurrency);
    ExecKeeps(Init(concurrency), steps);
    assert KeyOk(Exec(Init(concurrency), steps), k);
  }

  lemma StepPicks(s: State, a: Step, k: Key)
    requires Inv(s) && Enabled(s, a) && !(a.Schedule? && a.input.key == k)
    ensures |Picks(Apply(s, a), k)| + Owed(ViewOf(Apply(s, a), k)) == |Picks(s, k)| + Owed(ViewOf(s, k))
    ensures Picks(s, k) <= Picks(Apply(s, a), k)
  {
    StepViews(s, a, k);
    assert KeyOk(s, k);
    assert ViewOf(Apply(s, a), k).picks == Picks(Apply(s, a), k) && ViewOf(s, k).picks == Picks(s, k);
    if StepKey(s, a) == Some(k) {
      StepViewOk(s, a, k);
      if a.Pick? { assert a.runner in ViewOf(s, k).tasks; PickViewOk(ViewOf(s, k), k, a.runner); }
    }
  }

  /** After the last trigger of a key, the picks that still happen are exactly the owed ones that
      get paid, so at most two, and exactly the owed ones when the key leaves the map. */
  lemma {:induction false} PicksAfterTheLastTrigger(s: State, steps: seq<Step>, k: Key)
    requires Inv(s) && Runs(s, steps) && NoTriggerOf(steps, k)
    ensures var s' := Exec(s, steps);
      && |Picks(s', k)| + Owed(ViewOf(s', k)) == |Picks(s, k)| + Owed(ViewOf(s, k))
      && Picks(s, k) <= Picks(s', k)
      && |Picks(s', k)| <= |Picks(s, k)| + 2
      && (k !in s'.entries ==> |Picks(s', k)| == |Picks(s, k)| + Owed(ViewOf(s, k)))
    decreases |steps|
  {
    if steps != [] {
      StepPicks(s, steps[0], k);
      StepKeeps(s, steps[0]);
      assert NoTriggerOf(steps[1..], k);
      PicksAfterTheLastTrigger(Apply(s, steps[0]), steps[1..], k);
    }
  }

  // -- Quiescence -------------------------------------------------------------

  function PcWeight(pc: Pc): nat {
    match pc
    case Waiting => 6
    case Permitted => 5
    case Picked(_) => 4
    case InRun(_) => 3
    case Finished => 2
    case Released => 1
  }

  function EntryWeight(e: RunState): nat {
    if e.phase.Pending? then 7 else if e.rerun then 8 else 0
  }

  function EntryWeights(s: State): map<Key, nat> {
    map k | k in s.entries :: EntryWeight(s.entries[k])
  }

  function RunnerWeights(s: State): map<nat, nat> {
    map i | i in s.runners :: PcWeight(s.runners[i].pc)
  }

  /** The work left before the scheduler is idle. */
  ghost function Work(s: State): nat {
    |s.timers| + Sum(EntryWeights(s)) + Sum(RunnerWeights(s))
  }

  predicate Moves(a: Step) {
    !a.Schedule? && !a.Tick?
  }

  function CountMoves(steps: seq<Step>): nat {
    if steps == [] then 0 else (if Moves(steps[0]) then 1 else 0) + CountMoves(steps[1..])
  }

  lemma WorkSpawnRun(s: State, k: Key)
    requires s.nextId !in s.runners
    ensures Work(SpawnRun(s, k)) == Work(s) + 6
  {
    assert RunnerWeights(SpawnRun(s, k)) == RunnerWeights(s)[s.nextId := 6];
    SumInsert(RunnerWeights(s), s.nextId, 6);
    assert EntryWeights(SpawnRun(s, k)) == EntryWeights(s);
  }

  lemma WorkSpawnTimer(s: State, k: Key, delay: nat)
    requires s.nextId !in s.timers
    ensures Work(SpawnTimer(s, k, delay)) == Work(s) + 1
  {}

  lemma WorkDropTimer(s: State, t: nat)
    requires t in s.timers
    ensures Work(s.(timers := s.timers - {t})) == Work(s) - 1
  {}

  lemma WorkSetEntry(s: State, k: Key, e: RunState)
    requires k in s.entries
    ensures Work(SetEntry(s, k, e)) + EntryWeight(s.entries[k]) == Work(s) + EntryWeight(e)
  {
    assert EntryWeights(SetEntry(s, k, e)) == EntryWeights(s)[k := EntryWeight(e)];
    SumUpdate(EntryWeights(s), k, EntryWeight(e));
    assert RunnerWeights(SetEntry(s, k, e)) == RunnerWeights(s);
  }

  lemma WorkDropEntry(s: State, k: Key)
    requires k in s.entries
    ensures Work(s.(entries := s.entries - {k})) + EntryWeight(s.entries[k]) == Work(s)
  {
    var s' := s.(entries := s.entries - {k});
    assert EntryWeights(s') == EntryWeights(s) - {k};
    SumSplit(EntryWeights(s), k);
    assert RunnerWeights(s') == RunnerWeights(s);
  }

  lemma WorkSetPc(s: State, r: nat, pc: Pc)
    requires r in s.runners
    ensures Work(SetPc(s, r, pc)) + PcWeight(s.runners[r].pc) == Work(s) + PcWeight(pc)
  {
    assert RunnerWeights(SetPc(s, r, pc)) == RunnerWeights(s)[r := PcWeight(pc)];
    SumUpdate(RunnerWeights(s), r, PcWeight(pc));
    assert EntryWeights(SetPc(s, r, pc)) == EntryWeights(s);
  }

  lemma WorkDropRunner(s: State, r: nat)
    requires r in s.runners
    ensures Work(DropRunner(s, r)) + PcWeight(s.runners[r].pc) == Work(s)
  {
    assert RunnerWeights(DropRunner(s, r)) == RunnerWeights(s) - {r};
    SumSplit(RunnerWeights(s), r);
    assert EntryWeights(DropRunner(s, r)) == EntryWeights(s);
  }

  lemma FireWorks(s: State, t: nat)
    requires Inv(s) && t in s.timers
    ensures Work(FireStep(s, t)) < Work(s)
  {
    var k := s.timers[t].key;
    var m := s.(timers := s.timers - {t});
    WorkDropTimer(s, t);
    if IsPending(s, k) {
      assert KeyOk(s, k);
      var e := s.entries[k].(phase := Running);
      WorkSetEntry(m, k, e);
      WorkSpawnRun(SetEntry(m, k, e), k);
    }
  }

  lemma RerunWorks(s: State, r: nat, window: nat, delay: nat)
    requires AtPc(s, r, Released) && s.nextId !in s.timers
    requires var k := s.runners[r].key; k in s.entries && s.entries[k].rerun && s.entries[k].phase.Running?
    ensures Work(DecideStep(s, r, window, delay)) < Work(s)
  {
    var k, s' := s.runners[r].key, DecideStep(s, r, window, delay);
    var m := SetEntry(s, k, s'.entries[k]);
    WorkSetEntry(s, k, s'.entries[k]);
    if s.entries[k].immediate || window == 0 {
      WorkSetPc(m, r, Waiting);
      assert s' == SetPc(m, r, Waiting);
    } else {
      WorkDropRunner(m, r);
      WorkSpawnTimer(DropRunner(m, r), k, delay);
      assert s' == SpawnTimer(DropRunner(m, r), k, delay);
    }
  }

  lemma LeaveWorks(s: State, r: nat, window: nat, delay: nat)
    requires AtPc(s, r, Released)
    requires var k := s.runners[r].key; k in s.entries && !s.entries[k].rerun
    ensures Work(DecideStep(s, r, window, delay)) < Work(s)
  {
    var k := s.runners[r].key;
    WorkDropEntry(s, k);
    WorkDropRunner(s.(entries := s.entries - {k}), r);
  }

  lemma DecideWorks(s: State, r: nat, window: nat, delay: nat)
    requires Inv(s) && AtPc(s, r, Released)
    ensures Work(DecideStep(s, r, window, delay)) < Work(s)
  {
    RunnerHasEntry(s, r);
    if s.entries[s.runners[r].key].rerun { RerunWorks(s, r, window, delay); } else { LeaveWorks(s, r, window, delay); }
  }

  lemma WorkIgnoresCounters(s: State, s': State)
    requires s'.entries == s.entries && s'.runners == s.runners && s'.timers == s.timers
    ensures Work(s') == Work(s)
  {}

  /** Every step but a trigger or the passing of time uses up work. */
  lemma MovesUseWork(s: State, a: Step)
    requires Inv(s) && Enabled(s, a) && Moves(a)
    ensures Work(Apply(s, a)) < Work(s)
  {
    match a
    case Fire(t) => FireWorks(s, t);
    case Decide(r, window, delay) => DecideWorks(s, r, window, delay);
    case Pick(r) =>
      RunnerHasEntry(s, r);
      var pc := Picked(s.entries[s.runners[r].key].nextInput);
      WorkSetPc(s, r, pc);
      WorkIgnoresCounters(SetPc(s, r, pc), PickStep(s, r));
    case Acquire(r) => WorkSetPc(s, r, Permitted); WorkIgnoresCounters(SetPc(s, r, Permitted), Apply(s, a));
    case Start(r) =>
      var pc := InRun(s.runners[r].pc.input);
      WorkSetPc(s, r, pc); WorkIgnoresCounters(SetPc(s, r, pc), Apply(s, a));
    case Finish(r, _) => WorkSetPc(s, r, Finished); WorkIgnoresCounters(SetPc(s, r, Finished), Apply(s, a));
    case Release(r) => WorkSetPc(s, r, Released); WorkIgnoresCounters(SetPc(s, r, Released), Apply(s, a));
  }

  lemma {:induction false} TriggerFreeRunsAreBounded(s: State, steps: seq<Step>)
    requires Inv(s) && Runs(s, steps) && TriggerFree(steps)
    ensures CountMoves(steps) + Work(Exec(s, steps)) <= Work(s)
    decreases |steps|
  {
    if steps != [] {
      var s' := Apply(s, steps[0]);
      StepKeeps(s, steps[0]);
      if Moves(steps[0]) { MovesUseWork(s, steps[0]); } else { WorkIgnoresCounters(s, s'); }
      assert TriggerFree(steps[1..]);
      TriggerFreeRunsAreBounded(s', steps[1..]);
    }
  }

  /** Step `a` is possible after `wait` time units. */
  predicate CanMove(s: State, wait: nat, a: Step) {
    Moves(a) && Enabled(s.(clock := s.clock + wait), a)
  }

  /** A runner that is not waiting for a permit can always move. */
  function NextMove(r: nat, pc: Pc): Step {
    match pc
    case Waiting => Acquire(r)
    case Permitted => Pick(r)
    case Picked(_) => Start(r)
    case InRun(_) => Finish(r, None)
    case Finished => Release(r)
    case Released => Decide(r, 0, 0)
  }

  /** While the map is not empty some task can move, possibly after waiting for a timer. */
  lemma NeverStuck(s: State) returns (wait: nat, a: Step)
    requires Inv(s) && s.entries != map[]
    ensures CanMove(s, wait, a)
  {
    var k := SomeKey(s.entries);
    assert KeyOk(s, k);
    if s.entries[k].phase.Pending? {
      var t :| t in ViewOf(s, k).timers;
      wait := if s.timers[t].due <= s.clock then 0 else s.timers[t].due - s.clock;
      a := Fire(t);
    } else {
      wait := 0;
      var r: nat :| Solo(ViewOf(s, k), r);
      assert r in s.runners;
      if s.runners[r].pc.Waiting? && s.free == 0 {
        assert |Holders(s)| == s.limit;
        var h: nat :| h in Holders(s);
        a := NextMove(h, s.runners[h].pc);
      } else {
        a := NextMove(r, s.runners[r].pc);
      }
    }
  }

  /** Without further triggers every run ends: after at most Work(s) moves nothing can move, and
      then the map is empty and every trigger of every key has been covered by a pick. */
  lemma EveryTriggerIsServed(s: State, steps: seq<Step>, k: Key)
    requires Inv(s) && Runs(s, steps) && TriggerFree(steps)
    ensures CountMoves(steps) <= Work(s)
    ensures (forall wait: nat, a: Step :: !CanMove(Exec(s, steps), wait, a))
      ==> Exec(s, steps).entries == map[]
    ensures Exec(s, steps).entries == map[]
      ==> Covered(Exec(s, steps), k) == |Triggers(Exec(s, steps), k)| && Exec(s, steps).runners == map[]
  {
    TriggerFreeRunsAreBounded(s, steps);
    ExecKeeps(s, steps);
    var s' := Exec(s, steps);
    if s'.entries != map[] {
      var wait, a := NeverStuck(s');
    } else {
      assert KeyOk(s', k);
      forall r ensures r !in s'.runners {
        if r in s'.runners { RunnerHasEntry(s', r); }
      }
    }
  }

  /** From every state that keeps the invariant, some run without triggers empties the map. */
  lemma {:induction false} CanBecomeIdle(s: State) returns (steps: seq<Step>)
    requires Inv(s)
    ensures Runs(s, steps) && TriggerFree(steps) && Exec(s, steps).entries == map[]
    decreases Work(s)
  {
    if s.entries == map[] { return []; }
    var wait, a := NeverStuck(s);
    var w := Apply(s, Tick(wait));
    assert w == s.(clock := s.clock + wait);
    StepKeeps(s, Tick(wait));
    WorkIgnoresCounters(s, w);
    MovesUseWork(w, a);
    StepKeeps(w, a);
    var rest := CanBecomeIdle(Apply(w, a));
    steps := [Tick(wait), a] + rest;
    assert steps[1..] == [a] + rest && steps[1..][1..] == rest;
    assert Runs(w, [a] + rest);
  }

  // -- When a debounce window holds -------------------------------------------

  /** No promotion of the key: every trigger of it goes through an enabled window. */
  predicate OnlyDebounced(steps: seq<Step>, k: Key) {
    forall i :: 0 <= i < |steps| && steps[i].Schedule? && steps[i].input.key == k
      ==> !Immediate(steps[i].debounced, steps[i].window)
  }

  predicate IsPending(s: State, k: Key) {
    k in s.entries && s.entries[k].phase.Pending?
  }

  /** No timer of the key wakes before `due`. */
  predicate NoEarlierTimer(s: State, k: Key, due: nat) {
    forall t :: t in s.timers && s.timers[t].key == k ==> due <= s.timers[t].due
  }

  lemma {:induction false} ClockNeverGoesBack(s: State, steps: seq<Step>)
    requires Runs(s, steps)
    ensures s.clock <= Exec(s, steps).clock
    decreases |steps|
  {
    if steps != [] { ClockNeverGoesBack(Apply(s, steps[0]), steps[1..]); }
  }

  lemma WindowStep(s: State, a: Step, k: Key, due: nat)
    requires Inv(s) && Enabled(s, a) && s.clock < due
    requires IsPending(s, k) && NoEarlierTimer(s, k, due) && OnlyDebounced([a], k)
    ensures IsPending(Apply(s, a), k) && NoEarlierTimer(Apply(s, a), k, due)
  {
    assert [a][0] == a;
    forall r | r in s.runners ensures s.runners[r].key != k { RunnerHasEntry(s, r); }
  }

  /** With no earlier timer alive, debounced triggers cannot start the key before the window ends. */
  lemma {:induction false} WindowHolds(s: State, steps: seq<Step>, k: Key, due: nat)
    requires Inv(s) && Runs(s, steps) && Exec(s, steps).clock < due
    requires IsPending(s, k) && NoEarlierTimer(s, k, due) && OnlyDebounced(steps, k)
    ensures IsPending(Exec(s, steps), k)
    decreases |steps|
  {
    if steps != [] {
      ClockNeverGoesBack(s, steps);
      assert OnlyDebounced([steps[0]], k);
      WindowStep(s, steps[0], k, due);
      StepKeeps(s, steps[0]);
      assert OnlyDebounced(steps[1..], k);
      WindowHolds(Apply(s, steps[0]), steps[1..], k, due);
    }
  }

  /** A window of a pending key lasts to its end, in every run without an immediate trigger of the
      key, exactly when no timer of the key left over from before wakes earlier. */
  lemma WindowHoldsExactlyWithoutStaleTimers(s: State, k: Key, due: nat)
    requires Inv(s) && IsPending(s, k) && s.clock < due
    ensures (forall steps: seq<Step> | Runs(s, steps) && OnlyDebounced(steps, k) && Exec(s, steps).clock < due ::
               IsPending(Exec(s, steps), k))
       <==> NoEarlierTimer(s, k, due)
  {
    if NoEarlierTimer(s, k, due) {
      forall steps: seq<Step> | Runs(s, steps) && OnlyDebounced(steps, k) && Exec(s, steps).clock < due
        ensures IsPending(Exec(s, steps), k)
      {
        WindowHolds(s, steps, k, due);
      }
    } else {
      var t :| t in s.timers && s.timers[t].key == k && s.timers[t].due < due;
      var wait := if s.timers[t].due <= s.clock then 0 else s.timers[t].due - s.clock;
      var steps := [Tick(wait), Fire(t)];
      var w := Apply(s, Tick(wait));
      Prepend(w, Fire(t), []);
      Prepend(s, Tick(wait), [Fire(t)]);
      assert steps == [Tick(wait)] + [Fire(t)] && [Fire(t)] == [Fire(t)] + [];
      assert Exec(s, steps) == FireStep(w, t);
      assert OnlyDebounced(steps, k);
    }
  }

  /** A debounced trigger, then an immediate one: the key is promoted and the timer stays. */
  lemma Promoted() returns (s: State, steps: seq<Step>)
    ensures Runs(Init(4), steps) && s == Exec(Init(4), steps)
    ensures s.entries == map[1 := RunState(Running, false, false, Input(1, 1))] && s.free == 4 && s.clock == 0
    ensures s.runners == map[1 := Runner(1, Waiting)] && s.timers == map[0 := Timer(1, 30)] && s.nextId == 2
  {
    s, steps := Init(4), [];
    s, steps := Extend(s, steps, Schedule(Input(1, 0), true, 30, 30));
    assert s.entries == map[1 := RunState(Pending, false, false, Input(1, 0))];
    s, steps := Extend(s, steps, Schedule(Input(1, 1), false, 30, 30));
  }

  /** The promoted run ends and the key leaves the map, with the timer still asleep. */
  lemma PromotedRunEnds() returns (s: State, steps: seq<Step>)
    ensures Runs(Init(4), steps) && s == Exec(Init(4), steps)
    ensures s.entries == map[] && s.timers == map[0 := Timer(1, 30)] && s.nextId == 2 && s.clock == 0
  {
    s, steps := Promoted();
    var entries := s.entries;
    s, steps := Extend(s, steps, Acquire(1));
    s, steps := Extend(s, steps, Pick(1));
    s, steps := Extend(s, steps, Start(1));
    s, steps := Extend(s, steps, Finish(1, None));
    s, steps := Extend(s, steps, Release(1));
    assert s.entries == entries && s.timers == map[0 := Timer(1, 30)] && s.runners[1] == Runner(1, Released);
    s, steps := Extend(s, steps, Decide(1, 30, 30));
  }

  /** Stale timers do occur: a window of 30 is promoted, its run ends and the key is idle, but the
      old timer sleeps on. At 29 a fresh window of 30 opens with that timer due after one unit. */
  lemma StaleTimerCutsTheNextWindow() returns (s: State, steps: seq<Step>)
    ensures Runs(Init(4), steps) && s == Exec(Init(4), steps)
    ensures s.clock == 29 && IsPending(s, 1) && s.timers == map[0 := Timer(1, 30), 2 := Timer(1, 59)]
  {
    s, steps := PromotedRunEnds();
    s, steps := Extend(s, steps, Tick(29));
    s, steps := Extend(s, steps, Schedule(Input(1, 2), true, 30, 30));
  }

  /** One more step at the end of a run. */
  lemma Extend(s: State, steps: seq<Step>, a: Step) returns (s': State, steps': seq<Step>)
    requires Runs(Init(4), steps) && s == Exec(Init(4), steps) && Enabled(s, a)
    ensures s' == Apply(s, a) && steps' == steps + [a] && Runs(Init(4), steps') && s' == Exec(Init(4), steps')
  {
    Append(Init(4), steps, a);
    s', steps' := Apply(s, a), steps + [a];
  }

  lemma {:induction false} Append(s: State, steps: seq<Step>, a: Step)
    requires Runs(s, steps) && Enabled(Exec(s, steps), a)
    ensures Runs(s, steps + [a]) && Exec(s, steps + [a]) == Apply(Exec(s, steps), a)
    decreases |steps|
  {
    if steps == [] {
      assert [a][1..] == [];
      assert Runs(Apply(s, a), []);
      assert steps + [a] == [a];
    } else {
      Append(Apply(s, steps[0]), steps[1..], a);
      assert (steps + [a])[1..] == steps[1..] + [a];
    }
  }

  lemma Prepend(s: State, a: Step, rest: seq<Step>)
    requires Enabled(s, a) && Runs(Apply(s, a), rest)
    ensures Runs(s, [a] + rest) && Exec(s, [a] + rest) == Exec(Apply(s, a), rest)
  {}
}
