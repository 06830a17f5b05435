/**
 The routine scheduler: debounce, coalesce and rerun per key, as atomic steps.

 A state holds the map of run states, the sleeping debounce timers, the runner tasks with their
 program counters, the free permits, the monitoring counters and a clock. Every locked section of
 the code is one step, so the theorems speak about every interleaving. The two places where the
 debounce setting is read are separate step arguments, since the setting may change in between.
 */
module Routines {
  import opened Wrappers
  import opened MapSum

  type Key = int

  /** A run payload; the dedup key is derived from it. */
  datatype Input = Input(key: Key, payload: int)

  datatype Phase = Pending | Running

  datatype RunState = RunState(phase: Phase, rerun: bool, immediate: bool, nextInput: Input)

  /** Where a runner task stands in its loop. It owns a permit from Permitted up to Finished. */
  datatype Pc = Waiting | Permitted | Picked(input: Input) | InRun(input: Input) | Finished | Released

  datatype Runner = Runner(key: Key, pc: Pc)

  datatype Timer = Timer(key: Key, due: nat)

  datatype Status = Status(
    inFlight: nat, totalRuns: nat,
    lastStartedAt: Option<nat>, lastFinishedAt: Option<nat>, lastError: Option<string>)

  /** What happened so far: the inputs triggered and the inputs picked, per key and in order, and
      how many triggers of a key the newest pick has covered. */
  datatype History = History(
    triggers: map<Key, seq<Input>>, picks: map<Key, seq<Input>>, covered: map<Key, nat>)

  datatype State = State(
    limit: nat,
    entries: map<Key, RunState>,
    timers: map<nat, Timer>,
    runners: map<nat, Runner>,
    nextId: nat,
    free: nat,
    status: Status,
    clock: nat,
    hist: History)

  datatype Step =
    | Schedule(input: Input, debounced: bool, window: nat, delay: nat)
    | Fire(timer: nat)
    | Acquire(runner: nat)
    | Pick(runner: nat)
    | Start(runner: nat)
    | Finish(runner: nat, error: Option<string>)
    | Release(runner: nat)
    | Decide(runner: nat, window: nat, delay: nat)
    | Tick(elapsed: nat)

  function Triggers(s: State, k: Key): seq<Input> {
    if k in s.hist.triggers then s.hist.triggers[k] else []
  }

  function Picks(s: State, k: Key): seq<Input> {
    if k in s.hist.picks then s.hist.picks[k] else []
  }

  function Covered(s: State, k: Key): nat {
    if k in s.hist.covered then s.hist.covered[k] else 0
  }

  /** A trigger skips the window when it is not debounced or the window is disabled. */
  predicate Immediate(debounced: bool, window: nat) {
    !debounced || window == 0
  }

  predicate OwnsPermit(pc: Pc) {
    pc.Permitted? || pc.Picked? || pc.InRun? || pc.Finished?
  }

  predicate Unpicked(pc: Pc) {
    pc.Waiting? || pc.Permitted?
  }

  function Holders(s: State): set<nat> {
    set i | i in s.runners && OwnsPermit(s.runners[i].pc)
  }

  function InFlight(s: State): set<nat> {
    set i | i in s.runners && s.runners[i].pc.InRun?
  }

  function Init(concurrency: nat): State {
    var limit := if concurrency == 0 then 1 else concurrency;
    State(limit, map[], map[], map[], 0, limit, Status(0, 0, None, None, None), 0,
          History(map[], map[], map[]))
  }

  // -- Steps ------------------------------------------------------------------

  function SpawnTimer(s: State, k: Key, delay: nat): State {
    s.(timers := s.timers[s.nextId := Timer(k, s.clock + delay)], nextId := s.nextId + 1)
  }

  function SpawnRun(s: State, k: Key): State {
    s.(runners := s.runners[s.nextId := Runner(k, Waiting)], nextId := s.nextId + 1)
  }

  function Record(s: State, input: Input): State {
    s.(hist := s.hist.(triggers := s.hist.triggers[input.key := Triggers(s, input.key) + [input]]))
  }

  function ScheduleStep(s0: State, input: Input, debounced: bool, window: nat, delay: nat): State {
    var s := Record(s0, input);
    var k := input.key;
    var immediate := Immediate(debounced, window);
    if k in s.entries then
      var e := s.entries[k].(nextInput := input);
      if e.phase.Pending? then
        if immediate then SpawnRun(s.(entries := s.entries[k := e.(phase := Running)]), k)
        else s.(entries := s.entries[k := e])
      else
        s.(entries := s.entries[k := e.(rerun := true, immediate := e.immediate || immediate)])
    else if immediate then
      SpawnRun(s.(entries := s.entries[k := RunState(Running, false, false, input)]), k)
    else
      SpawnTimer(s.(entries := s.entries[k := RunState(Pending, false, false, input)]), k, delay)
  }

  function FireStep(s0: State, t: nat): State
    requires t in s0.timers
  {
    var k := s0.timers[t].key;
    var s := s0.(timers := s0.timers - {t});
    if k in s.entries && s.entries[k].phase.Pending? then
      SpawnRun(s.(entries := s.entries[k := s.entries[k].(phase := Running)]), k)
    else s
  }

  function SetPc(s: State, r: nat, pc: Pc): State
    requires r in s.runners
  {
    s.(runners := s.runners[r := s.runners[r].(pc := pc)])
  }

  function PickStep(s: State, r: nat): State
    requires r in s.runners
  {
    var k := s.runners[r].key;
    if k in s.entries then
      var input := s.entries[k].nextInput;
      SetPc(s, r, Picked(input)).(hist := s.hist.(
        picks := s.hist.picks[k := Picks(s, k) + [input]],
        covered := s.hist.covered[k := |Triggers(s, k)|]))
    else
      s.(runners := s.runners - {r}, free := s.free + 1)
  }

  function StartStep(s: State, r: nat): State
    requires r in s.runners && s.runners[r].pc.Picked?
  {
    SetPc(s, r, InRun(s.runners[r].pc.input)).(status := s.status.(
      inFlight := s.status.inFlight + 1, lastStartedAt := Some(s.clock)))
  }

  function FinishStep(s: State, r: nat, error: Option<string>): State
    requires r in s.runners
  {
    SetPc(s, r, Finished).(status := s.status.(
      inFlight := if s.status.inFlight == 0 then 0 else s.status.inFlight - 1,
      lastFinishedAt := Some(s.clock),
      totalRuns := s.status.totalRuns + 1,
      lastError := error))
  }

  function DecideStep(s: State, r: nat, window: nat, delay: nat): State
    requires r in s.runners
  {
    var k := s.runners[r].key;
    if k in s.entries && s.entries[k].rerun then
      var e := s.entries[k];
      var runNow := e.immediate || window == 0;
      var e' := e.(rerun := false, immediate := false, phase := if runNow then Running else Pending);
      var s' := s.(entries := s.entries[k := e']);
      if runNow then SetPc(s', r, Waiting)
      else SpawnTimer(s'.(runners := s'.runners - {r}), k, delay)
    else
      s.(entries := s.entries - {k}, runners := s.runners - {r})
  }

  predicate AtPc(s: State, r: nat, pc: Pc) {
    r in s.runners && s.runners[r].pc == pc
  }

  predicate Enabled(s: State, a: Step) {
    match a
    case Schedule(_, _, _, _) => true
    case Fire(t) => t in s.timers && s.timers[t].due <= s.clock
    case Acquire(r) => AtPc(s, r, Waiting) && s.free > 0
    case Pick(r) => AtPc(s, r, Permitted)
    case Start(r) => r in s.runners && s.runners[r].pc.Picked?
    case Finish(r, _) => r in s.runners && s.runners[r].pc.InRun?
    case Release(r) => AtPc(s, r, Finished)
    case Decide(r, _, _) => AtPc(s, r, Released)
    case Tick(_) => true
  }

  function Apply(s: State, a: Step): State
    requires Enabled(s, a)
  {
    match a
    case Schedule(input, debounced, window, delay) => ScheduleStep(s, input, debounced, window, delay)
    case Fire(t) => FireStep(s, t)
    case Acquire(r) => SetPc(s, r, Permitted).(free := s.free - 1)
    case Pick(r) => PickStep(s, r)
    case Start(r) => StartStep(s, r)
    case Finish(r, error) => FinishStep(s, r, error)
    case Release(r) => SetPc(s, r, Released).(free := s.free + 1)
    case Decide(r, window, delay) => DecideStep(s, r, window, delay)
    case Tick(d) => s.(clock := s.clock + d)
  }

  /** A run is a sequence of steps, each enabled where it is taken. */
  predicate Runs(s: State, steps: seq<Step>)
    decreases |steps|
  {
    steps == [] || (Enabled(s, steps[0]) && Runs(Apply(s, steps[0]), steps[1..]))
  }

  function Exec(s: State, steps: seq<Step>): State
    requires Runs(s, steps)
    decreases |steps|
  {
    if steps == [] then s else Exec(Apply(s, steps[0]), steps[1..])
  }

  // -- The invariant ----------------------------------------------------------

  /** Everything the state says about one key. */
  datatype View = View(
    entry: Option<RunState>, tasks: map<nat, Pc>, timers: set<nat>,
    triggers: seq<Input>, picks: seq<Input>, covered: nat)

  function ViewOf(s: State, k: Key): View {
    View(if k in s.entries then Some(s.entries[k]) else None,
         (map i | i in s.runners && s.runners[i].key == k :: s.runners[i].pc),
         (set t | t in s.timers && s.timers[t].key == k),
         Triggers(s, k), Picks(s, k), Covered(s, k))
  }

  /** The one task of a key, when it has exactly one. */
  ghost predicate Solo(v: View, r: nat) {
    r in v.tasks && v.tasks == map[r := v.tasks[r]]
  }

  /** A key whose entry is Running has exactly one runner; any other key has none. */
  ghost predicate TasksOk(v: View) {
    match v.entry
    case None => v.tasks == map[]
    case Some(e) =>
      if e.phase.Pending? then v.tasks == map[] && v.timers != {} && !e.rerun && !e.immediate
      else (exists r :: Solo(v, r)) && (e.immediate ==> e.rerun)
  }

  /** Picks still owed to a key: one for a pending entry or an un-picked runner, one for the rerun
      flag. */
  function Owed(v: View): nat {
    match v.entry
    case None => 0
    case Some(e) =>
      if e.phase.Pending? then 1
      else (if exists r :: r in v.tasks && Unpicked(v.tasks[r]) then 1 else 0) + (if e.rerun then 1 else 0)
  }

  ghost predicate HistoryOk(v: View, k: Key) {
    && (v.entry.Some? ==> v.triggers != [] && v.entry.value.nextInput == v.triggers[|v.triggers| - 1])
    && (forall j :: 0 <= j < |v.triggers| ==> v.triggers[j].key == k)
    && v.covered <= |v.triggers|
    && (v.covered < |v.triggers| ==> Owed(v) > 0)
    && |v.picks| + Owed(v) <= |v.triggers|
    && (v.picks == [] <==> v.covered == 0)
    && (v.picks != [] ==> v.picks[|v.picks| - 1] == v.triggers[v.covered - 1])
  }

  ghost predicate KeyOk(s: State, k: Key) {
    TasksOk(ViewOf(s, k)) && HistoryOk(ViewOf(s, k), k)
  }

  ghost predicate CountersOk(s: State) {
    && s.limit >= 1
    && s.free + |Holders(s)| == s.limit
    && s.status.inFlight == |InFlight(s)|
    && (forall i :: i in s.runners ==> i < s.nextId)
    && (forall t :: t in s.timers ==> t < s.nextId)
  }

  ghost predicate Inv(s: State) {
    CountersOk(s) && forall k :: KeyOk(s, k)
  }

  // -- How the primitive updates change the views -----------------------------

  function SetEntry(s: State, k: Key, e: RunState): State {
    s.(entries := s.entries[k := e])
  }

  function DropRunner(s: State, r: nat): State {
    s.(runners := s.runners - {r})
  }

  lemma ViewSpawnRun(s: State, k: Key, j: Key)
    requires s.nextId !in s.runners
    ensures ViewOf(SpawnRun(s, k), j)
         == (var v := ViewOf(s, j); if j == k then v.(tasks := v.tasks[s.nextId := Waiting]) else v)
  {}

  lemma ViewSpawnTimer(s: State, k: Key, delay: nat, j: Key)
    requires s.nextId !in s.timers
    ensures ViewOf(SpawnTimer(s, k, delay), j)
         == (var v := ViewOf(s, j); if j == k then v.(timers := v.timers + {s.nextId}) else v)
  {}

  lemma ViewSetPc(s: State, r: nat, pc: Pc, j: Key)
    requires r in s.runners
    ensures ViewOf(SetPc(s, r, pc), j)
         == (var v := ViewOf(s, j); if j == s.runners[r].key then v.(tasks := v.tasks[r := pc]) else v)
  {}

  lemma ViewDropRunner(s: State, r: nat, j: Key)
    requires r in s.runners
    ensures ViewOf(DropRunner(s, r), j)
         == (var v := ViewOf(s, j); if j == s.runners[r].key then v.(tasks := v.tasks - {r}) else v)
  {}

  lemma ViewDropTimer(s: State, t: nat, j: Key)
    requires t in s.timers
    ensures ViewOf(s.(timers := s.timers - {t}), j)
         == (var v := ViewOf(s, j); if j == s.timers[t].key then v.(timers := v.timers - {t}) else v)
  {}

  /** Updates of anything but the two task maps show directly in the view. */
  lemma ViewSameTasks(s: State, s': State, j: Key)
    requires s'.runners == s.runners && s'.timers == s.timers
    ensures ViewOf(s', j).tasks == ViewOf(s, j).tasks && ViewOf(s', j).timers == ViewOf(s, j).timers
  {}

  // -- Each step keeps the invariant ------------------------------------------

  /** The key a step works on, if any. */
  function StepKey(s: State, a: Step): Option<Key>
    requires Enabled(s, a)
  {
    match a
    case Schedule(input, _, _, _) => Some(input.key)
    case Fire(t) => Some(s.timers[t].key)
    case Tick(_) => None
    case _ => Some(s.runners[a.runner].key)
  }

  /** The view of a key after a trigger of it. */
  function ScheduleView(v: View, input: Input, immediate: bool, id: nat): View {
    var v := v.(triggers := v.triggers + [input]);
    match v.entry
    case Some(e) =>
      var e := e.(nextInput := input);
      if e.phase.Pending? then
        if immediate then v.(entry := Some(e.(phase := Running)), tasks := v.tasks[id := Waiting])
        else v.(entry := Some(e))
      else v.(entry := Some(e.(rerun := true, immediate := e.immediate || immediate)))
    case None =>
      if immediate then v.(entry := Some(RunState(Running, false, false, input)), tasks := v.tasks[id := Waiting])
      else v.(entry := Some(RunState(Pending, false, false, input)), timers := v.timers + {id})
  }

  lemma ScheduleLeavesOthers(s: State, input: Input, debounced: bool, window: nat, delay: nat, j: Key)
    requires CountersOk(s) && j != input.key
    ensures ViewOf(ScheduleStep(s, input, debounced, window, delay), j) == ViewOf(s, j)
  {
    var k, s' := input.key, ScheduleStep(s, input, debounced, window, delay);
    var m := Record(s, input).(entries := s'.entries);
    ViewSameTasks(s, m, j);
    ViewSpawnRun(m, k, j);
    ViewSpawnTimer(m, k, delay, j);
    assert s' == m || s' == SpawnRun(m, k) || s' == SpawnTimer(m, k, delay);
  }

  lemma ScheduleViewsKnown(s: State, input: Input, debounced: bool, window: nat, delay: nat)
    requires CountersOk(s) && input.key in s.entries
    ensures ViewOf(ScheduleStep(s, input, debounced, window, delay), input.key)
         == ScheduleView(ViewOf(s, input.key), input, Immediate(debounced, window), s.nextId)
  {
    var k, s' := input.key, ScheduleStep(s, input, debounced, window, delay);
    var m := Record(s, input).(entries := s'.entries);
    ViewSameTasks(s, m, k);
    ViewSpawnRun(m, k, k);
  }

  lemma ScheduleViewsNew(s: State, input: Input, debounced: bool, window: nat, delay: nat)
    requires CountersOk(s) && input.key !in s.entries
    ensures ViewOf(ScheduleStep(s, input, debounced, window, delay), input.key)
         == ScheduleView(ViewOf(s, input.key), input, Immediate(debounced, window), s.nextId)
  {
    var k, s' := input.key, ScheduleStep(s, input, debounced, window, delay);
    var m := Record(s, input).(entries := s'.entries);
    ViewSameTasks(s, m, k);
    ViewSpawnRun(m, k, k);
    ViewSpawnTimer(m, k, delay, k);
  }

  lemma ScheduleViews(s: State, input: Input, debounced: bool, window: nat, delay: nat, j: Key)
    requires CountersOk(s)
    ensures ViewOf(ScheduleStep(s, input, debounced, window, delay), j)
         == (var v := ViewOf(s, j);
             if j == input.key then ScheduleView(v, input, Immediate(debounced, window), s.nextId) else v)
  {
    if j == input.key && j in s.entries { ScheduleViewsKnown(s, input, debounced, window, delay); }
    else if j == input.key { ScheduleViewsNew(s, input, debounced, window, delay); }
    else { ScheduleLeavesOthers(s, input, debounced, window, delay, j); }
  }

  lemma ScheduleViewOk(v: View, k: Key, input: Input, immediate: bool, id: nat)
    requires TasksOk(v) && HistoryOk(v, k) && input.key == k
    ensures TasksOk(ScheduleView(v, input, immediate, id)) && HistoryOk(ScheduleView(v, input, immediate, id), k)
    ensures Owed(ScheduleView(v, input, immediate, id)) <= Owed(v) + 1
  {
    var v' := ScheduleView(v, input, immediate, id);
    if v.entry.Some? && v.entry.value.phase.Running? {
      var r :| Solo(v, r);
      assert Solo(v', r);
    } else if immediate {
      assert Solo(v', id);
    }
  }

  /** The view of a key after one of its timers fires. */
  function FireView(v: View, t: nat, id: nat): View {
    var v := v.(timers := v.timers - {t});
    if v.entry.Some? && v.entry.value.phase.Pending? then
      v.(entry := Some(v.entry.value.(phase := Running)), tasks := v.tasks[id := Waiting])
    else v
  }

  lemma FireViews(s: State, t: nat, j: Key)
    requires CountersOk(s) && t in s.timers
    ensures ViewOf(FireStep(s, t), j)
         == (var v := ViewOf(s, j); if j == s.timers[t].key then FireView(v, t, s.nextId) else v)
  {
    var k, s' := s.timers[t].key, FireStep(s, t);
    var m := s.(timers := s.timers - {t});
    var n := m.(entries := s'.entries);
    ViewDropTimer(s, t, j);
    ViewSameTasks(m, n, j);
    ViewSpawnRun(n, k, j);
    assert s' == m || s' == SpawnRun(n, k);
  }

  lemma FireViewOk(v: View, k: Key, t: nat, id: nat)
    requires TasksOk(v) && HistoryOk(v, k)
    ensures TasksOk(FireView(v, t, id)) && HistoryOk(FireView(v, t, id), k)
    ensures Owed(FireView(v, t, id)) == Owed(v)
  {
    var v' := FireView(v, t, id);
    if v.entry.Some? {
      if v.entry.value.phase.Pending? {
        assert Solo(v', id);
      } else {
        var r :| Solo(v, r);
        assert Solo(v', r);
      }
    }
  }

  /** The view of a key after its runner picks the newest input. */
  function PickView(v: View, r: nat): View {
    match v.entry
    case Some(e) =>
      v.(tasks := v.tasks[r := Picked(e.nextInput)], picks := v.picks + [e.nextInput], covered := |v.triggers|)
    case None => v.(tasks := v.tasks - {r})
  }

  lemma PickViews(s: State, r: nat, j: Key)
    requires r in s.runners
    ensures ViewOf(PickStep(s, r), j)
         == (var v := ViewOf(s, j); if j == s.runners[r].key then PickView(v, r) else v)
  {
    var k, s' := s.runners[r].key, PickStep(s, r);
    if k in s.entries {
      var m := SetPc(s, r, Picked(s.entries[k].nextInput));
      ViewSetPc(s, r, Picked(s.entries[k].nextInput), j);
      ViewSameTasks(m, s', j);
    } else {
      ViewDropRunner(s, r, j);
      ViewSameTasks(DropRunner(s, r), s', j);
    }
  }

  lemma PickViewOk(v: View, k: Key, r: nat)
    requires TasksOk(v) && HistoryOk(v, k) && r in v.tasks && v.tasks[r] == Permitted
    ensures v.entry.Some? && TasksOk(PickView(v, r)) && HistoryOk(PickView(v, r), k)
    ensures Owed(PickView(v, r)) + 1 == Owed(v)
  {
    var v' := PickView(v, r);
    assert Solo(v, r);
    assert Solo(v', r);
  }

  /** The view of a key after its runner decides what comes next. */
  function DecideView(v: View, r: nat, window: nat, id: nat): View {
    if v.entry.Some? && v.entry.value.rerun then
      var e := v.entry.value;
      var runNow := e.immediate || window == 0;
      var e' := e.(rerun := false, immediate := false, phase := if runNow then Running else Pending);
      if runNow then v.(entry := Some(e'), tasks := v.tasks[r := Waiting])
      else v.(entry := Some(e'), tasks := v.tasks - {r}, timers := v.timers + {id})
    else v.(entry := None, tasks := v.tasks - {r})
  }

  lemma DecideViews(s: State, r: nat, window: nat, delay: nat, j: Key)
    requires CountersOk(s) && r in s.runners
    ensures ViewOf(DecideStep(s, r, window, delay), j)
         == (var v := ViewOf(s, j); if j == s.runners[r].key then DecideView(v, r, window, s.nextId) else v)
  {
    var k, s' := s.runners[r].key, DecideStep(s, r, window, delay);
    var m := s.(entries := s'.entries);
    ViewSameTasks(s, m, j);
    ViewSetPc(m, r, Waiting, j);
    ViewDropRunner(m, r, j);
    ViewSpawnTimer(DropRunner(m, r), k, delay, j);
    assert s' == SetPc(m, r, Waiting) || s' == SpawnTimer(DropRunner(m, r), k, delay) || s' == DropRunner(m, r);
  }

  lemma DecideViewOk(v: View, k: Key, r: nat, window: nat, id: nat)
    requires TasksOk(v) && HistoryOk(v, k) && r in v.tasks && v.tasks[r] == Released
    ensures TasksOk(DecideView(v, r, window, id)) && HistoryOk(DecideView(v, r, window, id), k)
    ensures Owed(DecideView(v, r, window, id)) == Owed(v)
  {
    var v' := DecideView(v, r, window, id);
    assert Solo(v, r);
    if r in v'.tasks { assert Solo(v', r); }
  }

  /** A runner that moves without crossing the pick leaves everything owed as it was. */
  lemma MoveViewOk(v: View, k: Key, r: nat, pc: Pc)
    requires TasksOk(v) && HistoryOk(v, k) && r in v.tasks && (Unpicked(v.tasks[r]) <==> Unpicked(pc))
    ensures TasksOk(v.(tasks := v.tasks[r := pc])) && HistoryOk(v.(tasks := v.tasks[r := pc]), k)
    ensures Owed(v.(tasks := v.tasks[r := pc])) == Owed(v)
  {
    assert Solo(v, r);
    assert Solo(v.(tasks := v.tasks[r := pc]), r);
  }

  // -- Permits and counters ---------------------------------------------------

  lemma CountsSetPc(s: State, r: nat, pc: Pc)
    requires r in s.runners
    ensures |Holders(SetPc(s, r, pc))| + (if OwnsPermit(s.runners[r].pc) then 1 else 0)
         == |Holders(s)| + (if OwnsPermit(pc) then 1 else 0)
    ensures |InFlight(SetPc(s, r, pc))| + (if s.runners[r].pc.InRun? then 1 else 0)
         == |InFlight(s)| + (if pc.InRun? then 1 else 0)
  {
    var s' := SetPc(s, r, pc);
    Toggle(Holders(s), Holders(s'), r);
    Toggle(InFlight(s), InFlight(s'), r);
  }

  lemma Toggle(a: set<nat>, b: set<nat>, r: nat)
    requires a - {r} == b - {r}
    ensures |a| + (if r in b then 1 else 0) == |b| + (if r in a then 1 else 0)
  {
    assert |a - {r}| == |a| - (if r in a then 1 else 0);
    assert |b - {r}| == |b| - (if r in b then 1 else 0);
  }

  /** A step that spawns or ends tasks without a permit moves no counter. */
  lemma CountersSpawn(s: State, s': State)
    requires CountersOk(s) && s'.limit == s.limit && s'.free == s.free && s'.status == s.status
    requires forall i :: i in s'.runners ==>
               || (i in s.runners && s'.runners[i].pc == s.runners[i].pc)
               || (i < s'.nextId && s'.runners[i].pc == Waiting)
    requires forall i :: i in s.runners && i !in s'.runners ==> s.runners[i].pc == Released
    requires forall i :: i in s.runners && i in s'.runners && s'.runners[i].pc != s.runners[i].pc ==>
               s.runners[i].pc == Released
    requires forall t :: t in s'.timers ==> t in s.timers || t < s'.nextId
    requires s.nextId <= s'.nextId
    ensures CountersOk(s')
  {
    assert Holders(s') == Holders(s) && InFlight(s') == InFlight(s);
  }

  /** A runner that moves on adjusts the counters by what it acquires or gives back. */
  lemma CountersMove(s: State, r: nat, pc: Pc, s': State)
    requires CountersOk(s) && r in s.runners
    requires s' == SetPc(s, r, pc).(free := s'.free, status := s'.status, hist := s'.hist)
    requires s'.free + (if OwnsPermit(pc) then 1 else 0) == s.free + (if OwnsPermit(s.runners[r].pc) then 1 else 0)
    requires s'.status.inFlight + (if s.runners[r].pc.InRun? then 1 else 0)
          == s.status.inFlight + (if pc.InRun? then 1 else 0)
    ensures CountersOk(s')
  {
    CountsSetPc(s, r, pc);
    assert Holders(s') == Holders(SetPc(s, r, pc)) && InFlight(s') == InFlight(SetPc(s, r, pc));
  }

  lemma CountersDecide(s: State, r: nat, window: nat, delay: nat)
    requires CountersOk(s) && AtPc(s, r, Released)
    ensures CountersOk(DecideStep(s, r, window, delay))
  {
    CountersSpawn(s, DecideStep(s, r, window, delay));
  }

  lemma CountersSchedule(s: State, input: Input, debounced: bool, window: nat, delay: nat)
    requires CountersOk(s)
    ensures CountersOk(ScheduleStep(s, input, debounced, window, delay))
  {
    CountersSpawn(s, ScheduleStep(s, input, debounced, window, delay));
  }

  lemma CountersKept(s: State, a: Step)
    requires Inv(s) && Enabled(s, a)
    ensures CountersOk(Apply(s, a))
  {
    match a
    case Schedule(input, debounced, window, delay) => CountersSchedule(s, input, debounced, window, delay);
    case Fire(t) => CountersSpawn(s, FireStep(s, t));
    case Decide(r, window, delay) => CountersDecide(s, r, window, delay);
    case Tick(d) => CountersSpawn(s, Apply(s, a));
    case Acquire(r) => CountersMove(s, r, Permitted, Apply(s, a));
    case Pick(r) =>
      RunnerHasEntry(s, r);
      CountersMove(s, r, Picked(s.entries[s.runners[r].key].nextInput), PickStep(s, r));
    case Start(r) => CountersMove(s, r, InRun(s.runners[r].pc.input), StartStep(s, r));
    case Finish(r, error) =>
      assert r in InFlight(s);
      CountersMove(s, r, Finished, FinishStep(s, r, error));
    case Release(r) => CountersMove(s, r, Released, Apply(s, a));
  }

  /** The view of key j after any step. */
  function StepView(v: View, s: State, a: Step): View
    requires Enabled(s, a)
  {
    match a
    case Schedule(input, debounced, window, _) => ScheduleView(v, input, Immediate(debounced, window), s.nextId)
    case Fire(t) => FireView(v, t, s.nextId)
    case Acquire(r) => v.(tasks := v.tasks[r := Permitted])
    case Pick(r) => PickView(v, r)
    case Start(r) => v.(tasks := v.tasks[r := InRun(s.runners[r].pc.input)])
    case Finish(r, _) => v.(tasks := v.tasks[r := Finished])
    case Release(r) => v.(tasks := v.tasks[r := Released])
    case Decide(r, window, _) => DecideView(v, r, window, s.nextId)
    case Tick(_) => v
  }

  /** A step changes the view of its own key only. */
  lemma StepViews(s: State, a: Step, j: Key)
    requires CountersOk(s) && Enabled(s, a)
    ensures ViewOf(Apply(s, a), j)
         == (var v := ViewOf(s, j); if StepKey(s, a) == Some(j) then StepView(v, s, a) else v)
  {
    var s' := Apply(s, a);
    match a
    case Schedule(input, debounced, window, delay) => ScheduleViews(s, input, debounced, window, delay, j);
    case Fire(t) => FireViews(s, t, j);
    case Pick(r) => PickViews(s, r, j);
    case Decide(r, window, delay) => DecideViews(s, r, window, delay, j);
    case Tick(_) => ViewSameTasks(s, s', j);
    case _ =>
      var pc := s'.runners[a.runner].pc;
      ViewSetPc(s, a.runner, pc, j);
      ViewSameTasks(SetPc(s, a.runner, pc), s', j);
  }

  /** A trigger adds at most one owed pick, a pick pays one back, nothing else changes what is owed. */
  lemma StepViewOk(s: State, a: Step, k: Key)
    requires CountersOk(s) && KeyOk(s, k) && Enabled(s, a) && StepKey(s, a) == Some(k)
    ensures TasksOk(StepView(ViewOf(s, k), s, a)) && HistoryOk(StepView(ViewOf(s, k), s, a), k)
    ensures a.Schedule? ==> Owed(StepView(ViewOf(s, k), s, a)) <= Owed(ViewOf(s, k)) + 1
    ensures a.Pick? ==> Owed(StepView(ViewOf(s, k), s, a)) + 1 == Owed(ViewOf(s, k))
    ensures !a.Schedule? && !a.Pick? ==> Owed(StepView(ViewOf(s, k), s, a)) == Owed(ViewOf(s, k))
  {
    var v := ViewOf(s, k);
    match a
    case Schedule(input, debounced, window, _) => ScheduleViewOk(v, k, input, Immediate(debounced, window), s.nextId);
    case Fire(t) => FireViewOk(v, k, t, s.nextId);
    case Pick(r) => PickViewOk(v, k, r);
    case Decide(r, window, _) => DecideViewOk(v, k, r, window, s.nextId);
    case Tick(_) =>
    case _ => MoveViewOk(v, k, a.runner, StepView(v, s, a).tasks[a.runner]);
  }

  /** Every step of every task keeps the invariant, whatever the debounce setting reads as. */
  lemma StepKeeps(s: State, a: Step)
    requires Inv(s) && Enabled(s, a)
    ensures Inv(Apply(s, a))
  {
    CountersKept(s, a);
    forall k ensures KeyOk(Apply(s, a), k) {
      assert KeyOk(s, k);
      StepViews(s, a, k);
      if StepKey(s, a) == Some(k) { StepViewOk(s, a, k); }
    }
  }

  /** A live runner always finds its entry, and is the only runner of its key. */
  lemma RunnerHasEntry(s: State, r: nat)
    requires Inv(s) && r in s.runners
    ensures var k := s.runners[r].key;
      k in s.entries && s.entries[k].phase.Running? && Solo(ViewOf(s, k), r)
  {
    var v := ViewOf(s, s.runners[r].key);
    assert KeyOk(s, s.runners[r].key) && r in v.tasks;
    var r' :| Solo(v, r');
  }

  lemma InitInv(concurrency: nat)
    ensures Inv(Init(concurrency))
  {}

  lemma {:induction false} ExecKeeps(s: State, steps: seq<Step>)
    requires Inv(s) && Runs(s, steps)
    ensures Inv(Exec(s, steps))
    decreases |steps|
  {
    if steps != [] {
      StepKeeps(s, steps[0]);
      ExecKeeps(Apply(s, steps[0]), steps[1..]);
    }
  }
}
