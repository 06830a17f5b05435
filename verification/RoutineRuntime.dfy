/** The scheduler object itself: each method is one locked section of the runtime, updates the
    object in place and does to its abstract state exactly what the step function says. */
module RoutineRuntime {
  import opened Wrappers
  import opened Routines
  import RoutineDrain

  datatype Action = NoAction | Run | StartTimer

  class Scheduler {
    const limit: nat
    var state: map<Key, RunState>
    var timers: map<nat, Timer>
    var runners: map<nat, Runner>
    var nextId: nat
    var free: nat
    var status: Status
    var clock: nat
    ghost var hist: History

    ghost function Abs(): State
      reads this
    {
      State(limit, state, timers, runners, nextId, free, status, clock, hist)
    }

    constructor (concurrency: nat)
      ensures Abs() == Init(concurrency)
    {
      limit := if concurrency == 0 then 1 else concurrency;
      state, timers, runners, nextId := map[], map[], map[], 0;
      free := if concurrency == 0 then 1 else concurrency;
      status, clock := Status(0, 0, None, None, None), 0;
      hist := History(map[], map[], map[]);
    }

    method SpawnRun(key: Key)
      modifies this`runners, this`nextId
      ensures Abs() == Routines.SpawnRun(old(Abs()), key)
    {
      runners := runners[nextId := Runner(key, Waiting)];
      nextId := nextId + 1;
    }

    method SpawnDebounceTimer(key: Key, delay: nat)
      modifies this`timers, this`nextId
      ensures Abs() == SpawnTimer(old(Abs()), key, delay)
    {
      timers := timers[nextId := Timer(key, clock + delay)];
      nextId := nextId + 1;
    }

    /** Ensure a run is or will be scheduled for the key of `input`. The debounce setting reads as
        `window` for the decision and as `delay` when the timer is spawned. */
    method Schedule(input: Input, debounced: bool, window: nat, delay: nat)
      modifies this
      ensures Abs() == ScheduleStep(old(Abs()), input, debounced, window, delay)
    {
      var key := input.key;
      var immediate := !debounced || window == 0;
      var action := NoAction;
      hist := Record(Abs(), input).hist;
      if key in state {
        var e := state[key].(nextInput := input);
        if e.phase.Pending? && immediate {
          e := e.(phase := Running);
          action := Run;
        } else if e.phase.Running? {
          e := e.(rerun := true);
          if immediate { e := e.(immediate := true); }
        }
        state := state[key := e];
      } else if immediate {
        state := state[key := RunState(Running, false, false, input)];
        action := Run;
      } else {
        state := state[key := RunState(Pending, false, false, input)];
        action := StartTimer;
      }
      match action {
        case Run => SpawnRun(key);
        case StartTimer => SpawnDebounceTimer(key, delay);
        case NoAction =>
      }
    }

    /** A timer wakes up: promote its key if it is still pending. */
    method Fire(t: nat)
      requires t in timers
      modifies this
      ensures Abs() == FireStep(old(Abs()), t)
    {
      var key := timers[t].key;
      timers := timers - {t};
      if key in state && state[key].phase.Pending? {
        state := state[key := state[key].(phase := Running)];
        SpawnRun(key);
      }
    }

    /** A runner gets its permit. */
    method Acquire(r: nat)
      requires r in runners && runners[r].pc.Waiting? && free > 0
      modifies this
      ensures old(Enabled(Abs(), Step.Acquire(r))) && Abs() == Apply(old(Abs()), Step.Acquire(r))
    {
      free := free - 1;
      runners := runners[r := runners[r].(pc := Permitted)];
    }

    /** A runner clones the newest input, or ends when its entry is gone, dropping its permit. */
    method Pick(r: nat) returns (input: Option<Input>)
      requires r in runners
      modifies this
      ensures Abs() == PickStep(old(Abs()), r)
      ensures input == (var k := old(runners[r].key);
                        if k in old(state) then Some(old(state[k]).nextInput) else None)
    {
      var key := runners[r].key;
      if key in state {
        input := Some(state[key].nextInput);
        hist := PickStep(Abs(), r).hist;
        runners := runners[r := runners[r].(pc := Picked(input.value))];
      } else {
        input := None;
        runners := runners - {r};
        free := free + 1;
      }
    }

    method MarkStarted()
      modifies this`status
      ensures status == old(status).(inFlight := old(status).inFlight + 1, lastStartedAt := Some(clock))
    {
      status := status.(inFlight := status.inFlight + 1);
      status := status.(lastStartedAt := Some(clock));
    }

    /** The in-flight counter saturates at zero. */
    method MarkFinished(error: Option<string>)
      modifies this`status
      ensures status == Status(if old(status).inFlight == 0 then 0 else old(status).inFlight - 1,
                               old(status).totalRuns + 1, old(status).lastStartedAt, Some(clock), error)
    {
      if status.inFlight > 0 { status := status.(inFlight := status.inFlight - 1); }
      status := status.(lastFinishedAt := Some(clock));
      status := status.(totalRuns := status.totalRuns + 1);
      status := status.(lastError := error);
    }

    method Start(r: nat)
      requires r in runners && runners[r].pc.Picked?
      modifies this
      ensures Abs() == StartStep(old(Abs()), r)
    {
      MarkStarted();
      runners := runners[r := runners[r].(pc := InRun(runners[r].pc.input))];
    }

    method Finish(r: nat, error: Option<string>)
      requires r in runners
      modifies this
      ensures Abs() == FinishStep(old(Abs()), r, error)
    {
      MarkFinished(error);
      runners := runners[r := runners[r].(pc := Finished)];
    }

    /** Drop the permit after a run. */
    method Release(r: nat)
      requires r in runners && runners[r].pc.Finished?
      modifies this
      ensures old(Enabled(Abs(), Step.Release(r))) && Abs() == Apply(old(Abs()), Step.Release(r))
    {
      free := free + 1;
      runners := runners[r := runners[r].(pc := Released)];
    }

    /** After a run: rerun now, rerun after a fresh window, or leave the map. */
    method Decide(r: nat, window: nat, delay: nat)
      requires r in runners
      modifies this
      ensures Abs() == DecideStep(old(Abs()), r, window, delay)
    {
      var key := runners[r].key;
      var action := NoAction;
      if key in state && state[key].rerun {
        var e := state[key];
        var runNow := e.immediate || window == 0;
        e := e.(rerun := false);
        e := e.(immediate := false);
        if runNow {
          e := e.(phase := Running);
          action := Run;
        } else {
          e := e.(phase := Pending);
          action := StartTimer;
        }
        state := state[key := e];
      } else {
        state := state - {key};
      }
      match action {
        case Run => runners := runners[r := runners[r].(pc := Waiting)];
        case StartTimer =>
          runners := runners - {r};
          SpawnDebounceTimer(key, delay);
        case NoAction => runners := runners - {r};
      }
    }

    /** One attempt of the drain: it gets the permits the setting now asks for, and drops them at
        once, or has to go on waiting. */
    method Drain(concurrency: nat) returns (done: bool)
      modifies this`free
      ensures done <==> RoutineDrain.Returns(Abs(), RoutineDrain.DrainCount(concurrency))
      ensures Abs() == old(Abs())
    {
      var permits := RoutineDrain.DrainCount(concurrency);
      done := free >= permits;
      if done {
        free := free - permits;
        free := free + permits;
      }
    }
  }
}
