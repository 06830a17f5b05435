/** What triggers and decisions do, told from the steps of a run: which of them start a runner at once,
    which open a window, and what the monitoring counters say. */
module RoutineDecisions {
  import opened Wrappers
  import opened Routines
  import opened RoutineTheorems

  lemma {:induction false} PrefixRuns(s: State, steps: seq<Step>, n: nat)
    requires Runs(s, steps) && n <= |steps|
    ensures Runs(s, steps[..n])
    decreases n
  {
    if n > 0 {
      PrefixRuns(Apply(s, steps[0]), steps[1..], n - 1);
      assert steps[..n][1..] == steps[1..][..n - 1];
    }
  }

  /** The state before step `n`. */
  function At(s: State, steps: seq<Step>, n: nat): State
    requires Runs(s, steps) && n <= |steps|
  {
    PrefixRuns(s, steps, n);
    Exec(s, steps[..n])
  }

  lemma {:induction false} NextState(s: State, steps: seq<Step>, n: nat)
    requires Runs(s, steps) && n < |steps|
    ensures Enabled(At(s, steps, n), steps[n]) && At(s, steps, n + 1) == Apply(At(s, steps, n), steps[n])
    decreases n
  {
    PrefixRuns(s, steps, n);
    PrefixRuns(s, steps, n + 1);
    if n == 0 {
      assert steps[..1][1..] == [];
      assert Exec(Apply(s, steps[0]), steps[..1][1..]) == Apply(s, steps[0]);
    } else {
      var rest := steps[1..];
      NextState(Apply(s, steps[0]), rest, n - 1);
      assert steps[..n][1..] == rest[..n - 1] && steps[..n + 1][1..] == rest[..n];
      assert At(s, steps, n) == At(Apply(s, steps[0]), rest, n - 1);
      assert At(s, steps, n + 1) == At(Apply(s, steps[0]), rest, n);
    }
  }

  predicate IsRunning(s: State, k: Key) {
    k in s.entries && s.entries[k].phase.Running?
  }

  // -- The triggers a decision answers ----------------------------------------

  /** Step `i` triggers the key while it is running. */
  predicate TriggersWhileRunning(s: State, steps: seq<Step>, i: nat, k: Key)
    requires Runs(s, steps)
  {
    i < |steps| && steps[i].Schedule? && steps[i].input.key == k && IsRunning(At(s, steps, i), k)
  }

  /** Step `j` decides what comes after a run of the key. */
  predicate DecidesFor(s: State, steps: seq<Step>, j: nat, k: Key)
    requires Runs(s, steps)
  {
    j < |steps| && steps[j].Decide? && steps[j].runner in At(s, steps, j).runners
    && At(s, steps, j).runners[steps[j].runner].key == k
  }

  /** The trigger at step `i` is still to be answered at step `n`: it came during a run and no decision
      about the key has come since. */
  ghost predicate Unanswered(s: State, steps: seq<Step>, i: nat, n: nat, k: Key)
    requires Runs(s, steps)
  {
    i < n && TriggersWhileRunning(s, steps, i, k) && forall j: nat :: i < j < n ==> !DecidesFor(s, steps, j, k)
  }

  ghost predicate Asked(s: State, steps: seq<Step>, n: nat, k: Key)
    requires Runs(s, steps)
  {
    exists i: nat :: Unanswered(s, steps, i, n, k)
  }

  /** A trigger that was not debounced, or that read a window of zero. */
  predicate SkipsWindow(a: Step) {
    a.Schedule? && (!a.debounced || a.window == 0)
  }

  /** One of the unanswered triggers skips the window. */
  ghost predicate Urgent(s: State, steps: seq<Step>, n: nat, k: Key)
    requires Runs(s, steps)
  {
    exists i: nat :: Unanswered(s, steps, i, n, k) && SkipsWindow(steps[i])
  }

  lemma UnansweredAtNext(s: State, steps: seq<Step>, i: nat, n: nat, k: Key)
    requires Runs(s, steps) && n < |steps|
    ensures Unanswered(s, steps, i, n + 1, k)
      <==> if i == n then TriggersWhileRunning(s, steps, n, k)
           else Unanswered(s, steps, i, n, k) && !DecidesFor(s, steps, n, k)
  {}

  lemma AskedAtNext(s: State, steps: seq<Step>, n: nat, k: Key)
    requires Runs(s, steps) && n < |steps|
    ensures Asked(s, steps, n + 1, k)
      <==> TriggersWhileRunning(s, steps, n, k) || (Asked(s, steps, n, k) && !DecidesFor(s, steps, n, k))
  {
    if TriggersWhileRunning(s, steps, n, k) { assert Unanswered(s, steps, n, n + 1, k); }
    if Asked(s, steps, n, k) && !DecidesFor(s, steps, n, k) {
      var i: nat :| Unanswered(s, steps, i, n, k);
      assert Unanswered(s, steps, i, n + 1, k);
    }
    if Asked(s, steps, n + 1, k) {
      var i: nat :| Unanswered(s, steps, i, n + 1, k);
      UnansweredAtNext(s, steps, i, n, k);
    }
  }

  lemma UrgentAtNext(s: State, steps: seq<Step>, n: nat, k: Key)
    requires Runs(s, steps) && n < |steps|
    ensures Urgent(s, steps, n + 1, k)
      <==> || (TriggersWhileRunning(s, steps, n, k) && SkipsWindow(steps[n]))
           || (Urgent(s, steps, n, k) && !DecidesFor(s, steps, n, k))
  {
    if TriggersWhileRunning(s, steps, n, k) && SkipsWindow(steps[n]) { assert Unanswered(s, steps, n, n + 1, k); }
    if Urgent(s, steps, n, k) && !DecidesFor(s, steps, n, k) {
      var i: nat :| Unanswered(s, steps, i, n, k) && SkipsWindow(steps[i]);
      assert Unanswered(s, steps, i, n + 1, k);
    }
    if Urgent(s, steps, n + 1, k) {
      var i: nat :| Unanswered(s, steps, i, n + 1, k) && SkipsWindow(steps[i]);
      UnansweredAtNext(s, steps, i, n, k);
    }
  }

  /** The flags of a running entry say which triggers are unanswered; where the key does not run, none
      is. */
  ghost predicate FlagsTell(e: State, k: Key, asked: bool, urgent: bool) {
    if IsRunning(e, k) then (e.entries[k].rerun <==> asked) && (e.entries[k].immediate <==> urgent)
    else !asked && !urgent
  }

  predicate Decides(s: State, a: Step, k: Key) {
    a.Decide? && a.runner in s.runners && s.runners[a.runner].key == k
  }

  predicate Retriggers(s: State, a: Step, k: Key) {
    a.Schedule? && a.input.key == k && IsRunning(s, k)
  }

  lemma FlagsAfterTrigger(s: State, a: Step, k: Key, asked: bool, urgent: bool)
    requires Inv(s) && a.Schedule? && FlagsTell(s, k, asked, urgent)
    ensures FlagsTell(Apply(s, a), k, Retriggers(s, a, k) || asked, (Retriggers(s, a, k) && SkipsWindow(a)) || urgent)
  {
    assert KeyOk(s, k);
  }

  lemma FlagsAfterDecision(s: State, a: Step, k: Key, asked: bool, urgent: bool)
    requires Inv(s) && a.Decide? && Enabled(s, a) && FlagsTell(s, k, asked, urgent)
    ensures FlagsTell(Apply(s, a), k, asked && !Decides(s, a, k), urgent && !Decides(s, a, k))
  {
    assert KeyOk(s, k);
    RunnerHasEntry(s, a.runner);
  }

  lemma FlagsStep(s: State, a: Step, k: Key, asked: bool, urgent: bool)
    requires Inv(s) && Enabled(s, a) && FlagsTell(s, k, asked, urgent)
    ensures FlagsTell(Apply(s, a), k,
                      Retriggers(s, a, k) || (asked && !Decides(s, a, k)),
                      (Retriggers(s, a, k) && SkipsWindow(a)) || (urgent && !Decides(s, a, k)))
  {
    if a.Schedule? {
      FlagsAfterTrigger(s, a, k, asked, urgent);
    } else if a.Decide? {
      FlagsAfterDecision(s, a, k, asked, urgent);
    } else {
      assert KeyOk(s, k);
    }
  }

  lemma {:induction false} FlagsTellTheRun(s: State, steps: seq<Step>, n: nat, k: Key)
    requires Inv(s) && Runs(s, steps) && n <= |steps| && !IsRunning(s, k)
    ensures Inv(At(s, steps, n)) && FlagsTell(At(s, steps, n), k, Asked(s, steps, n, k), Urgent(s, steps, n, k))
    decreases n
  {
    PrefixRuns(s, steps, n);
    if n > 0 {
      FlagsTellTheRun(s, steps, n - 1, k);
      NextState(s, steps, n - 1);
      AskedAtNext(s, steps, n - 1, k);
      UrgentAtNext(s, steps, n - 1, k);
      StepKeeps(At(s, steps, n - 1), steps[n - 1]);
      FlagsStep(At(s, steps, n - 1), steps[n - 1], k, Asked(s, steps, n - 1, k), Urgent(s, steps, n - 1, k));
    } else {
      assert At(s, steps, 0) == s;
    }
  }

  // -- Decisions --------------------------------------------------------------

  /** From `s` to `after` runner `r` of the key has decided: nothing asked for another run and the key
      is out of the map; or the runner waits for its next permit; or the runner is gone and the key
      sleeps on one new timer. */
  ghost predicate Decided(s: State, after: State, r: nat, k: Key, due: nat, asked: bool, atOnce: bool) {
    && (k in after.entries <==> asked)
    && (r in after.runners <==> asked && atOnce)
    && (asked && atOnce ==> IsRunning(after, k) && AtPc(after, r, Waiting))
    && (asked && !atOnce ==>
          IsPending(after, k) && exists t: nat :: t !in s.timers && after.timers == s.timers[t := Timer(k, due)])
    && (!asked || atOnce ==> after.timers == s.timers)
  }

  lemma DecisionByFlags(s: State, r: nat, k: Key, window: nat, delay: nat, asked: bool, urgent: bool)
    requires Inv(s) && AtPc(s, r, Released) && s.runners[r].key == k && IsRunning(s, k)
    requires FlagsTell(s, k, asked, urgent)
    ensures Decided(s, Apply(s, Decide(r, window, delay)), r, k, s.clock + delay, asked, urgent || window == 0)
  {
    assert KeyOk(s, k);
    if asked && !urgent && window != 0 {
      var after := Apply(s, Decide(r, window, delay));
      assert s.nextId !in s.timers && after.timers == s.timers[s.nextId := Timer(k, s.clock + delay)];
    }
  }

  lemma WholeRun(s: State, steps: seq<Step>)
    requires Runs(s, steps)
    ensures At(s, steps, |steps|) == Exec(s, steps)
  {
    assert steps[..|steps|] == steps;
  }

  lemma DecisionFrom(s: State, r: nat, window: nat, delay: nat, asked: bool, urgent: bool, atOnce: bool)
    requires Inv(s) && AtPc(s, r, Released) && FlagsTell(s, s.runners[r].key, asked, urgent)
    requires atOnce <==> urgent || window == 0
    ensures Decided(s, Apply(s, Decide(r, window, delay)), r, s.runners[r].key, s.clock + delay, asked, atOnce)
  {
    RunnerHasEntry(s, r);
    DecisionByFlags(s, r, s.runners[r].key, window, delay, asked, urgent);
  }

  lemma FlagsAtTheEnd(concurrency: nat, steps: seq<Step>, k: Key)
    requires Runs(Init(concurrency), steps)
    ensures var s0, s := Init(concurrency), Exec(Init(concurrency), steps);
            Inv(s) && FlagsTell(s, k, Asked(s0, steps, |steps|, k), Urgent(s0, steps, |steps|, k))
  {
    InitInv(concurrency);
    WholeRun(Init(concurrency), steps);
    FlagsTellTheRun(Init(concurrency), steps, |steps|, k);
  }

  /** At the end of a run: the key of runner `r` was triggered while running and that is unanswered; one of
      those triggers, or the window, lets it run at once. */
  ghost predicate RunsAgain(s0: State, steps: seq<Step>, r: nat)
    requires Runs(s0, steps) && r in Exec(s0, steps).runners
  {
    Asked(s0, steps, |steps|, Exec(s0, steps).runners[r].key)
  }

  ghost predicate RunsAtOnce(s0: State, steps: seq<Step>, r: nat, window: nat)
    requires Runs(s0, steps) && r in Exec(s0, steps).runners
  {
    Urgent(s0, steps, |steps|, Exec(s0, steps).runners[r].key) || window == 0
  }

  /** What a decision about a key leads to, told from the triggers of the run alone: the key runs again
      exactly when it was triggered while running and no decision has answered that; and it does so at
      once exactly when one of those triggers skipped the window or the window read now is zero, and
      else after the delay read now. */
  lemma DecisionAnswersTheTriggers(concurrency: nat, steps: seq<Step>, r: nat, window: nat, delay: nat)
    requires Runs(Init(concurrency), steps) && AtPc(Exec(Init(concurrency), steps), r, Released)
    ensures var s0, s := Init(concurrency), Exec(Init(concurrency), steps);
            Decided(s, Apply(s, Decide(r, window, delay)), r, s.runners[r].key, s.clock + delay,
                    RunsAgain(s0, steps, r), RunsAtOnce(s0, steps, r, window))
  {
    var s0 := Init(concurrency);
    var s := Exec(s0, steps);
    var k := s.runners[r].key;
    FlagsAtTheEnd(concurrency, steps, k);
    DecisionFrom(s, r, window, delay, RunsAgain(s0, steps, r), Urgent(s0, steps, |steps|, k),
                 RunsAtOnce(s0, steps, r, window));
  }

  // -- Triggers ---------------------------------------------------------------

  /** A trigger of a key that is not running: one that skips the window starts exactly one runner and
      leaves all timers asleep; a debounced one starts none, and arms one timer, due after the delay,
      exactly when no window was open. A trigger of a running key does neither. */
  lemma TriggerStartsExactly(s: State, input: Input, debounced: bool, window: nat, delay: nat)
    requires Inv(s)
    ensures var k, after := input.key, Apply(s, Schedule(input, debounced, window, delay));
            var skips := SkipsWindow(Schedule(input, debounced, window, delay));
            && k in after.entries && after.entries[k].nextInput == input
            && (IsRunning(after, k) <==> IsRunning(s, k) || skips)
            && (if skips && !IsRunning(s, k) then
                  exists r: nat :: r !in s.runners && after.runners == s.runners[r := Runner(k, Waiting)]
                else after.runners == s.runners)
            && (if k !in s.entries && !skips then
                  exists t: nat :: t !in s.timers && after.timers == s.timers[t := Timer(k, s.clock + delay)]
                else after.timers == s.timers)
  {
    var k, after := input.key, Apply(s, Schedule(input, debounced, window, delay));
    var skips := SkipsWindow(Schedule(input, debounced, window, delay));
    if skips && !IsRunning(s, k) {
      assert s.nextId !in s.runners && after.runners == s.runners[s.nextId := Runner(k, Waiting)];
    }
    if k !in s.entries && !skips {
      assert s.nextId !in s.timers && after.timers == s.timers[s.nextId := Timer(k, s.clock + delay)];
    }
  }

  // -- The monitoring counters ------------------------------------------------

  /** What the status must say after a run, told from its steps. */
  function TotalRuns(steps: seq<Step>): nat {
    if steps == [] then 0 else TotalRuns(steps[..|steps| - 1]) + (if steps[|steps| - 1].Finish? then 1 else 0)
  }

  function Elapsed(steps: seq<Step>): nat {
    if steps == [] then 0
    else
      var a := steps[|steps| - 1];
      Elapsed(steps[..|steps| - 1]) + (if a.Tick? then a.elapsed else 0)
  }

  /** When the last run of a sequence of steps started. */
  function LastStart(steps: seq<Step>): Option<nat> {
    if steps == [] then None
    else
      var before := steps[..|steps| - 1];
      if steps[|steps| - 1].Start? then Some(Elapsed(before)) else LastStart(before)
  }

  /** When the last run to finish did so, and with which error. */
  function LastEnd(steps: seq<Step>): Option<(nat, Option<string>)> {
    if steps == [] then None
    else
      var before, a := steps[..|steps| - 1], steps[|steps| - 1];
      if a.Finish? then Some((Elapsed(before), a.error)) else LastEnd(before)
  }

  /** The counters of the scheduler tell the run: how many runs have finished, when the last one
      started, and when the last one to finish did so and with which error. */
  lemma {:induction false} StatusTellsTheRun(concurrency: nat, steps: seq<Step>)
    requires Runs(Init(concurrency), steps)
    ensures var s := Exec(Init(concurrency), steps);
            && s.clock == Elapsed(steps) && s.status.totalRuns == TotalRuns(steps)
            && s.status.lastStartedAt == LastStart(steps)
            && (LastEnd(steps).None? ==> s.status.lastFinishedAt == None && s.status.lastError == None)
            && (LastEnd(steps).Some? ==>
                  s.status.lastFinishedAt == Some(LastEnd(steps).value.0)
                  && s.status.lastError == LastEnd(steps).value.1)
  {
    if steps != [] {
      var last := |steps| - 1;
      PrefixRuns(Init(concurrency), steps, last);
      StatusTellsTheRun(concurrency, steps[..last]);
      WholeRun(Init(concurrency), steps);
      NextState(Init(concurrency), steps, last);
      StatusStep(Exec(Init(concurrency), steps[..last]), steps[last]);
    }
  }

  lemma StatusStep(s: State, a: Step)
    requires Enabled(s, a)
    ensures var after := Apply(s, a);
            && after.clock == s.clock + (if a.Tick? then a.elapsed else 0)
            && after.status.totalRuns == s.status.totalRuns + (if a.Finish? then 1 else 0)
            && after.status.lastStartedAt == (if a.Start? then Some(s.clock) else s.status.lastStartedAt)
            && after.status.lastFinishedAt == (if a.Finish? then Some(s.clock) else s.status.lastFinishedAt)
            && after.status.lastError == (if a.Finish? then a.error else s.status.lastError)
  {}
}
