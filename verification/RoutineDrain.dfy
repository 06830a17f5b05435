/** The drain at shutdown. It acquires as many permits as the concurrency setting says at that moment
    and drops them at once, while the semaphore was sized by the setting at spawn. */
module RoutineDrain {
  import opened Wrappers
  import opened Routines
  import opened RoutineTheorems

  /** What the drain asks for: the setting, at least one, cast to 32 bits. */
  function DrainCount(concurrency: nat): nat {
    (if concurrency == 0 then 1 else concurrency) % 0x1_0000_0000
  }

  /** A drain of `n` permits may return here. */
  predicate Returns(s: State, n: nat) {
    s.free >= n
  }

  ghost predicate Reachable(concurrency: nat, s: State) {
    exists steps :: Runs(Init(concurrency), steps) && s == Exec(Init(concurrency), steps)
  }

  lemma ReachableInv(concurrency: nat, s: State)
    requires Reachable(concurrency, s)
    ensures Inv(s) && s.limit == Init(concurrency).limit
  {
    var steps :| Runs(Init(concurrency), steps) && s == Exec(Init(concurrency), steps);
    InitInv(concurrency);
    ExecKeeps(Init(concurrency), steps);
    LimitIsFixed(Init(concurrency), steps);
  }

  // -- What a returned drain knows --------------------------------------------

  /** The only runner gets a permit, picks and starts. */
  lemma RunStarts(s: State, r: nat) returns (steps: seq<Step>)
    requires s.runners == map[r := Runner(1, Waiting)] && s.free > 0
    requires s.entries == map[1 := RunState(Running, false, false, Input(1, 100))]
    ensures steps == [Acquire(r), Pick(r), Start(r)] && Runs(s, steps)
    ensures var e := Exec(s, steps); e.free == s.free - 1 && InFlight(e) == {r} && r in Holders(e)
  {
    var s1 := Apply(s, Acquire(r));
    var s2 := Apply(s1, Pick(r));
    assert s2.runners == map[r := Runner(1, Picked(Input(1, 100)))];
    var s3 := Apply(s2, Start(r));
    assert s3.runners == map[r := Runner(1, InRun(Input(1, 100)))];
    Prepend(s2, Start(r), []);
    Prepend(s1, Pick(r), [Start(r)]);
    Prepend(s, Acquire(r), [Pick(r), Start(r)]);
    assert [Start(r)] + [] == [Start(r)] && [Pick(r)] + [Start(r)] == [Pick(r), Start(r)];
    assert [Acquire(r)] + [Pick(r), Start(r)] == [Acquire(r), Pick(r), Start(r)];
    steps := [Acquire(r), Pick(r), Start(r)];
  }

  /** From the start: an immediate trigger, up to the moment its run is in flight. */
  lemma OneRunInFlight(concurrency: nat) returns (s: State)
    ensures Reachable(concurrency, s) && s.free == Init(concurrency).limit - 1 && InFlight(s) == {0} && 0 in Holders(s)
  {
    var first := Schedule(Input(1, 100), false, 30, 30);
    var s0 := Apply(Init(concurrency), first);
    assert s0.runners == map[0 := Runner(1, Waiting)];
    assert s0.entries == map[1 := RunState(Running, false, false, Input(1, 100))];
    var steps := RunStarts(s0, 0);
    Prepend(Init(concurrency), first, steps);
    s := Exec(s0, steps);
  }

  /** That no run holds a permit when the drain returns is guaranteed exactly when the setting was not
      lowered since the semaphore was sized. */
  lemma ReturnedDrainIsQuietExactly(concurrency: nat, n: nat)
    ensures (forall s | Reachable(concurrency, s) && Returns(s, n) :: Holders(s) == {})
      <==> n >= Init(concurrency).limit
    ensures (forall s | Reachable(concurrency, s) && Returns(s, n) :: InFlight(s) == {})
      <==> n >= Init(concurrency).limit
  {
    if n >= Init(concurrency).limit {
      forall s | Reachable(concurrency, s) && Returns(s, n) ensures Holders(s) == {} && InFlight(s) == {} {
        ReachableInv(concurrency, s);
        assert InFlight(s) <= Holders(s);
      }
    } else {
      var s := OneRunInFlight(concurrency);
      assert Reachable(concurrency, s) && Returns(s, n);
    }
  }

  /** Spawned with two permits and lowered to one: the drain returns with a run in flight. */
  lemma LoweredDrainReturnsEarly() returns (s: State)
    ensures Reachable(2, s) && Returns(s, DrainCount(1)) && InFlight(s) == {0}
  {
    s := OneRunInFlight(2);
  }

  // -- When a drain is final --------------------------------------------------

  /** Without further triggers no run is in flight from here on, now included. */
  ghost predicate Final(s: State) {
    forall steps | Runs(s, steps) && TriggerFree(steps) :: InFlight(Exec(s, steps)) == {}
  }

  /** No pick is owed to any key, and no runner has taken an input it has not finished with. */
  ghost predicate Settled(s: State) {
    && (forall k: Key :: Owed(ViewOf(s, k)) == 0)
    && (forall r :: r in s.runners ==> !s.runners[r].pc.Picked? && !s.runners[r].pc.InRun?)
  }

  lemma FinalStep(s: State, a: Step)
    requires Final(s) && Enabled(s, a) && !a.Schedule?
    ensures Final(Apply(s, a))
  {
    forall steps | Runs(Apply(s, a), steps) && TriggerFree(steps) ensures InFlight(Exec(Apply(s, a), steps)) == {} {
      Prepend(s, a, steps);
      assert TriggerFree([a] + steps);
    }
  }

  lemma InRunIsNotFinal(s: State, r: nat)
    requires r in s.runners && s.runners[r].pc.InRun?
    ensures !Final(s)
  {
    assert Runs(s, []) && TriggerFree([]) && r in InFlight(Exec(s, []));
  }

  lemma PickedIsNotFinal(s: State, r: nat)
    requires r in s.runners && s.runners[r].pc.Picked?
    ensures !Final(s)
  {
    InRunIsNotFinal(Apply(s, Start(r)), r);
    if Final(s) { FinalStep(s, Start(r)); }
  }

  lemma FinalHasNoInput(s: State, r: nat)
    requires Final(s) && r in s.runners
    ensures !s.runners[r].pc.Picked? && !s.runners[r].pc.InRun?
  {
    if s.runners[r].pc.InRun? { InRunIsNotFinal(s, r); } else if s.runners[r].pc.Picked? { PickedIsNotFinal(s, r); }
  }

  lemma {:induction false} FinalKeepsPicks(s: State, steps: seq<Step>, k: Key)
    requires Inv(s) && Final(s) && Runs(s, steps) && TriggerFree(steps)
    ensures Picks(Exec(s, steps), k) == Picks(s, k)
    decreases |steps|
  {
    if steps != [] {
      var a, s' := steps[0], Apply(s, steps[0]);
      FinalStep(s, a);
      StepKeeps(s, a);
      if a.Pick? {
        RunnerHasEntry(s, a.runner);
        FinalHasNoInput(s', a.runner);
      }
      assert TriggerFree(steps[1..]);
      FinalKeepsPicks(s', steps[1..], k);
    }
  }

  /** An un-picked runner is owed its pick. */
  lemma UnpickedIsOwed(s: State, r: nat)
    requires Inv(s) && r in s.runners && Unpicked(s.runners[r].pc)
    ensures Owed(ViewOf(s, s.runners[r].key)) > 0
  {
    RunnerHasEntry(s, r);
    assert r in ViewOf(s, s.runners[r].key).tasks;
  }

  lemma SettledStep(s: State, a: Step)
    requires Inv(s) && Settled(s) && Enabled(s, a) && !a.Schedule?
    ensures Settled(Apply(s, a))
  {
    forall k: Key ensures Owed(ViewOf(Apply(s, a), k)) == 0 { StepPicks(s, a, k); }
    if a.Pick? { UnpickedIsOwed(s, a.runner); }
  }

  lemma {:induction false} SettledIsFinal(s: State, steps: seq<Step>)
    requires Inv(s) && Settled(s) && Runs(s, steps) && TriggerFree(steps)
    ensures InFlight(Exec(s, steps)) == {}
    decreases |steps|
  {
    if steps != [] {
      SettledStep(s, steps[0]);
      StepKeeps(s, steps[0]);
      assert TriggerFree(steps[1..]);
      SettledIsFinal(Apply(s, steps[0]), steps[1..]);
    }
  }

  /** After the drain has returned no run is in flight ever again, whatever the tasks do, exactly when
      at that moment no pick was owed to any key and no runner held an input; the latter goes without
      saying when the setting was not lowered. */
  lemma DrainIsFinalExactly(concurrency: nat, s: State, n: nat)
    requires Reachable(concurrency, s) && Returns(s, n)
    ensures Final(s) <==> Settled(s)
    ensures n >= Init(concurrency).limit ==> (Final(s) <==> forall k: Key :: Owed(ViewOf(s, k)) == 0)
  {
    ReachableInv(concurrency, s);
    if Settled(s) {
      forall steps | Runs(s, steps) && TriggerFree(steps) ensures InFlight(Exec(s, steps)) == {} {
        SettledIsFinal(s, steps);
      }
    }
    if Final(s) {
      forall r | r in s.runners ensures !s.runners[r].pc.Picked? && !s.runners[r].pc.InRun? { FinalHasNoInput(s, r); }
      var idle := CanBecomeIdle(s);
      forall k: Key ensures Owed(ViewOf(s, k)) == 0 {
        FinalKeepsPicks(s, idle, k);
        PicksAfterTheLastTrigger(s, idle, k);
      }
    }
    if n >= s.limit {
      assert Holders(s) == {};
      forall r | r in s.runners ensures !s.runners[r].pc.Picked? && !s.runners[r].pc.InRun? { assert r !in Holders(s); }
    }
  }

  lemma Sleeping() returns (s: State)
    ensures Reachable(4, s) && s.free == 4 && s.runners == map[] && s.nextId == 1 && s.clock == 0
    ensures s.entries == map[1 := RunState(Pending, false, false, Input(1, 100))] && s.timers == map[0 := Timer(1, 30)]
  {
    var first := Schedule(Input(1, 100), true, 30, 30);
    s := Apply(Init(4), first);
    Prepend(Init(4), first, []);
    assert [first] + [] == [first];
    assert Runs(Init(4), [first]) && s == Exec(Init(4), [first]);
  }

  /** The sleeping timer fires and its run starts. */
  lemma LateRunStarts(s: State) returns (steps: seq<Step>)
    requires s.entries == map[1 := RunState(Pending, false, false, Input(1, 100))] && s.timers == map[0 := Timer(1, 30)]
    requires s.runners == map[] && s.nextId == 1 && s.clock == 0 && s.free > 0
    ensures steps == [Tick(30), Fire(0), Acquire(1), Pick(1), Start(1)]
    ensures Runs(s, steps) && TriggerFree(steps) && InFlight(Exec(s, steps)) == {1}
  {
    var s1 := Apply(s, Tick(30));
    var s2 := Apply(s1, Fire(0));
    assert s2.entries == map[1 := RunState(Running, false, false, Input(1, 100))];
    assert s2.runners == map[1 := Runner(1, Waiting)];
    var run := RunStarts(s2, 1);
    Prepend(s1, Fire(0), run);
    Prepend(s, Tick(30), [Fire(0)] + run);
    steps := [Tick(30)] + ([Fire(0)] + run);
  }

  /** A debounced trigger sleeps while the drain of an unchanged setting returns; its run starts
      thirty time units later. */
  lemma DrainCanBeOvertaken() returns (s: State, later: seq<Step>)
    ensures Reachable(4, s) && Returns(s, DrainCount(4)) && InFlight(s) == {}
    ensures Runs(s, later) && TriggerFree(later) && InFlight(Exec(s, later)) == {1}
  {
    s := Sleeping();
    later := LateRunStarts(s);
  }
}
