/** The fixed-window rate limiter over a key-value cache with expiring counters. */
module RateLimit {
  import opened Wrappers

  datatype RedisKey = Limit(bucket: string) | LimitEvent(category: string, minute: nat)

  /** The stored form of a key; `minute` stands for its decimal text. */
  function Build(key: RedisKey, minute: string): string {
    match key
    case Limit(bucket) => "ratelimit:" + bucket
    case LimitEvent(category, _) => "ratelimit:event:" + category + ":" + minute
  }

  /** A limiter counter and an event counter share a stored key only for a bucket that starts with
      `event:`, which no bucket category does. */
  lemma KeysNeverCollide(bucket: string, category: string, minute: nat, text: string)
    requires Build(Limit(bucket), text) == Build(LimitEvent(category, minute), text)
    ensures "event:" <= bucket
  {
    var rest := category + ":" + text;
    assert ("ratelimit:" + bucket)[10..] == bucket;
    assert ("ratelimit:event:" + category + ":" + text)[10..] == "event:" + rest;
  }

  /** A counter is alive while the time is before `expires`; without an expiry it never dies. */
  datatype Counter = Counter(count: nat, expires: Option<nat>)

  type Store = map<RedisKey, Counter>

  predicate Alive(store: Store, key: RedisKey, now: nat) {
    key in store && (store[key].expires.Some? ==> now < store[key].expires.value)
  }

  function Count(store: Store, key: RedisKey, now: nat): nat {
    if Alive(store, key, now) then store[key].count + 1 else 1
  }

  /** Increment; the time to live is set only when the key was just created. */
  function IncrEx(store: Store, key: RedisKey, ttl: nat, now: nat): Store {
    var count := Count(store, key, now);
    store[key := Counter(count, if count == 1 then Some(now + ttl) else store[key].expires)]
  }

  datatype Limits = Limits(max: nat, window: nat, retention: nat)

  datatype Request = Request(category: string, bucket: string, time: nat)

  predicate Accepts(store: Store, r: Request, limits: Limits) {
    IncrEx(store, Limit(r.bucket), limits.window, r.time)[Limit(r.bucket)].count <= limits.max
  }

  /** One request: count it, and on rejection record the event of its minute. */
  function Check(store: Store, r: Request, limits: Limits): Store {
    var counted := IncrEx(store, Limit(r.bucket), limits.window, r.time);
    if Accepts(store, r, limits) then counted
    else IncrEx(counted, LimitEvent(r.category, r.time / 60), limits.retention, r.time)
  }

  // -- A cache that fails -----------------------------------------------------

  /** How far an increment gets: all the way, not at all, or up to the INCR or the EXPIRE, whose
      answer is lost. */
  datatype Trip = Answered | Unreachable | LostAfterIncr | LostAfterExpire

  /** What an increment leaves behind; one that ends after the INCR sets no time to live. */
  function IncrWith(store: Store, key: RedisKey, ttl: nat, now: nat, trip: Trip): Store {
    match trip
    case Unreachable => store
    case LostAfterIncr =>
      store[key := Counter(Count(store, key, now), if Alive(store, key, now) then store[key].expires else None)]
    case _ => IncrEx(store, key, ttl, now)
  }

  /** The count an increment reports, if any. A hit after the first sends no EXPIRE to be lost. */
  function Reported(store: Store, key: RedisKey, now: nat, trip: Trip): Option<nat> {
    if trip.Answered? || (trip.LostAfterExpire? && Count(store, key, now) != 1) then Some(Count(store, key, now))
    else None
  }

  /** A request and how far its two increments get. */
  datatype Trial = Trial(r: Request, count: Trip, record: Trip)

  /** No answer, no limit: the limiter fails open. */
  predicate Passes(store: Store, x: Trial, limits: Limits) {
    var reported := Reported(store, Limit(x.r.bucket), x.r.time, x.count);
    reported.None? || reported.value <= limits.max
  }

  function CheckWith(store: Store, x: Trial, limits: Limits): Store {
    var counted := IncrWith(store, Limit(x.r.bucket), limits.window, x.r.time, x.count);
    if Passes(store, x, limits) then counted
    else IncrWith(counted, LimitEvent(x.r.category, x.r.time / 60), limits.retention, x.r.time, x.record)
  }

  /** With a cache that answers, this is the plain limiter. */
  lemma AnsweredIsPlain(store: Store, r: Request, limits: Limits)
    ensures Passes(store, Trial(r, Answered, Answered), limits) == Accepts(store, r, limits)
    ensures CheckWith(store, Trial(r, Answered, Answered), limits) == Check(store, r, limits)
  {}

  class Cache {
    var store: Store

    method Incr(key: RedisKey, ttl: nat, now: nat, trip: Trip) returns (r: Option<nat>)
      modifies this
      ensures store == IncrWith(old(store), key, ttl, now, trip) && r == Reported(old(store), key, now, trip)
    {
      if trip.Unreachable? { return None; }
      if !Alive(store, key, now) {
        store := store[key := Counter(0, None)];
      }
      var count := store[key].count + 1;
      store := store[key := store[key].(count := count)];
      assert store == IncrWith(old(store), key, ttl, now, LostAfterIncr);
      if trip.LostAfterIncr? { return None; }
      if count == 1 {
        store := store[key := store[key].(expires := Some(now + ttl))];
        if trip.LostAfterExpire? { return None; }
      }
      r := Some(count);
    }

    method CheckCategorized(x: Trial, limits: Limits) returns (ok: bool)
      modifies this
      ensures ok == Passes(old(store), x, limits) && store == CheckWith(old(store), x, limits)
      ensures x.count.Answered? && x.record.Answered? ==>
        ok == Accepts(old(store), x.r, limits) && store == Check(old(store), x.r, limits)
      ensures x.count.Unreachable? ==> ok && store == old(store)
    {
      AnsweredIsPlain(store, x.r, limits);
      var count := Incr(Limit(x.r.bucket), limits.window, x.r.time, x.count);
      if count.None? { return true; }
      if count.value > limits.max {
        var _ := Incr(LimitEvent(x.r.category, x.r.time / 60), limits.retention, x.r.time, x.record);
        return false;
      }
      return true;
    }
  }

  // -- Sequences of requests --------------------------------------------------

  predicate Timely(requests: seq<Request>, start: nat) {
    && (forall i :: 0 <= i < |requests| ==> start <= requests[i].time)
    && forall i, j :: 0 <= i < j < |requests| ==> requests[i].time <= requests[j].time
  }

  /** How many requests of a bucket with a time in [lo, hi) are accepted. */
  function Accepted(store: Store, requests: seq<Request>, limits: Limits, bucket: string, lo: nat, hi: nat): nat
    decreases |requests|
  {
    if requests == [] then 0
    else
      var r := requests[0];
      (if r.bucket == bucket && lo <= r.time < hi && Accepts(store, r, limits) then 1 else 0)
      + Accepted(Check(store, r, limits), requests[1..], limits, bucket, lo, hi)
  }

  /** Every counter in use has been hit. */
  predicate Used(store: Store, bucket: string) {
    Limit(bucket) in store ==> store[Limit(bucket)].count >= 1
  }

  /** A hit, accepted or not, never moves the end of a window that is still open, and a request
      leaves the counters of all other buckets alone. */
  lemma HitsNeverExtendAWindow(store: Store, r: Request, limits: Limits, bucket: string)
    requires Used(store, bucket)
    ensures r.bucket == bucket ==> Limit(bucket) in Check(store, r, limits)
    ensures r.bucket == bucket && Alive(store, Limit(bucket), r.time) ==>
      Check(store, r, limits)[Limit(bucket)] == Counter(store[Limit(bucket)].count + 1, store[Limit(bucket)].expires)
    ensures r.bucket == bucket && !Alive(store, Limit(bucket), r.time) ==>
      Check(store, r, limits)[Limit(bucket)] == Counter(1, Some(r.time + limits.window))
    ensures r.bucket != bucket ==>
      (Limit(bucket) in Check(store, r, limits) <==> Limit(bucket) in store)
      && (Limit(bucket) in store ==> Check(store, r, limits)[Limit(bucket)] == store[Limit(bucket)])
  {}

  function Left(count: nat, max: nat): nat {
    if count < max then max - count else 0
  }

  /** The most an interval [lo, hi) can hold: twice the limit, less one when it is no longer than
      the window. */
  function Most(limits: Limits, lo: nat, hi: nat): nat {
    if limits.max == 0 then 0
    else if hi <= lo + limits.window then 2 * limits.max - 1
    else 2 * limits.max
  }

  /** What can still be accepted in [lo, hi) from here on. */
  function Room(store: Store, limits: Limits, bucket: string, lo: nat, hi: nat, now: nat): nat {
    if hi <= now then 0
    else if Alive(store, Limit(bucket), now) then
      var c := store[Limit(bucket)];
      if c.expires.None? || hi <= c.expires.value then Left(c.count, limits.max)
      else if lo < c.expires.value then Left(c.count, limits.max) + limits.max
      else Most(limits, lo, hi)
    else if hi <= now + limits.window then limits.max
    else Most(limits, lo, hi)
  }

  lemma RoomShrinks(store: Store, r: Request, limits: Limits, bucket: string, lo: nat, hi: nat, now: nat)
    requires lo <= hi <= lo + limits.window + 1 && limits.window >= 1 && now <= r.time && Used(store, bucket)
    ensures Used(Check(store, r, limits), bucket)
    ensures (if r.bucket == bucket && lo <= r.time < hi && Accepts(store, r, limits) then 1 else 0)
      + Room(Check(store, r, limits), limits, bucket, lo, hi, r.time) <= Room(store, limits, bucket, lo, hi, now)
  {}

  lemma {:induction false} AcceptedFitsInRoom(
      store: Store, requests: seq<Request>, limits: Limits, bucket: string, lo: nat, hi: nat, now: nat)
    requires lo <= hi <= lo + limits.window + 1 && limits.window >= 1 && Timely(requests, now) && Used(store, bucket)
    ensures Accepted(store, requests, limits, bucket, lo, hi) <= Room(store, limits, bucket, lo, hi, now)
    decreases |requests|
  {
    if requests != [] {
      RoomShrinks(store, requests[0], limits, bucket, lo, hi, now);
      AcceptedFitsInRoom(Check(store, requests[0], limits), requests[1..], limits, bucket, lo, hi, requests[0].time);
    }
  }

  /** From an empty cache and for every sequence of requests over any buckets, an interval no longer
      than the window holds at most 2·max - 1 accepted requests of a bucket, and the interval with
      both ends included at most 2·max. */
  lemma AcceptedPerInterval(requests: seq<Request>, limits: Limits, bucket: string, lo: nat, hi: nat)
    requires limits.window >= 1 && Timely(requests, 0) && lo <= hi <= lo + limits.window + 1
    ensures Accepted(map[], requests, limits, bucket, lo, hi) <= Most(limits, lo, hi)
  {
    AcceptedFitsInRoom(map[], requests, limits, bucket, lo, hi, 0);
  }

  /** A window that opens with a request at `start` accepts at most max requests until it closes. */
  lemma AcceptedPerWindow(store: Store, requests: seq<Request>, limits: Limits, bucket: string, start: nat)
    requires limits.window >= 1 && Timely(requests, start) && Used(store, bucket)
    requires !Alive(store, Limit(bucket), start)
    ensures Accepted(store, requests, limits, bucket, start, start + limits.window) <= limits.max
  {
    AcceptedFitsInRoom(store, requests, limits, bucket, start, start + limits.window, start);
  }

  // -- Recorded rejections ----------------------------------------------------

  function After(store: Store, requests: seq<Request>, limits: Limits): Store
    decreases |requests|
  {
    if requests == [] then store else After(Check(store, requests[0], limits), requests[1..], limits)
  }

  /** How many requests of a category are rejected in a minute. */
  function Rejected(store: Store, requests: seq<Request>, limits: Limits, category: string, minute: nat): nat
    decreases |requests|
  {
    if requests == [] then 0
    else
      var r := requests[0];
      (if r.category == category && r.time / 60 == minute && !Accepts(store, r, limits) then 1 else 0)
      + Rejected(Check(store, r, limits), requests[1..], limits, category, minute)
  }

  /** The event counter of a minute has counted `n` rejections and outlives the minute. */
  predicate Counts(store: Store, category: string, minute: nat, n: nat) {
    var key := LimitEvent(category, minute);
    && (key in store <==> n > 0)
    && (key in store ==> store[key].count == n)
    && (key in store ==> store[key].expires.Some? && 60 * minute + 60 <= store[key].expires.value)
  }

  lemma CheckCounts(store: Store, r: Request, limits: Limits, category: string, minute: nat, n: nat)
    requires limits.retention >= 60 && Counts(store, category, minute, n)
    ensures Counts(Check(store, r, limits), category, minute,
      n + if r.category == category && r.time / 60 == minute && !Accepts(store, r, limits) then 1 else 0)
  {}

  lemma {:induction false} RunCounts(
      store: Store, requests: seq<Request>, limits: Limits, category: string, minute: nat, n: nat)
    requires limits.retention >= 60 && Counts(store, category, minute, n)
    ensures Counts(After(store, requests, limits), category, minute,
                   n + Rejected(store, requests, limits, category, minute))
    decreases |requests|
  {
    if requests != [] {
      var r := requests[0];
      CheckCounts(store, r, limits, category, minute, n);
      RunCounts(Check(store, r, limits), requests[1..], limits, category, minute,
        n + if r.category == category && r.time / 60 == minute && !Accepts(store, r, limits) then 1 else 0);
    }
  }

  /** The event counter of a minute is there exactly when requests of its category were rejected in that
      minute, and holds their number. */
  ghost predicate CountsRejections(limits: Limits, requests: seq<Request>, category: string, minute: nat) {
    var store, key := After(map[], requests, limits), LimitEvent(category, minute);
    var rejected := Rejected(map[], requests, limits, category, minute);
    (key in store <==> rejected > 0) && (key in store ==> store[key].count == rejected)
  }

  lemma {:induction false} RejectedConcat(
      store: Store, a: seq<Request>, b: seq<Request>, limits: Limits, category: string, minute: nat)
    ensures After(store, a + b, limits) == After(After(store, a, limits), b, limits)
    ensures Rejected(store, a + b, limits, category, minute)
      == Rejected(store, a, limits, category, minute) + Rejected(After(store, a, limits), b, limits, category, minute)
    decreases |a|
  {
    if a == [] {
      assert a + b == b;
    } else {
      assert (a + b)[1..] == a[1..] + b;
      RejectedConcat(Check(store, a[0], limits), a[1..], b, limits, category, minute);
    }
  }

  /** Requests of one moment of which just the last is rejected. */
  lemma {:induction false} RejectOne(store: Store, limits: Limits, time: nat) returns (requests: seq<Request>)
    requires limits.window >= 1 || limits.max == 0
    ensures |requests| >= 1 && forall i :: 0 <= i < |requests| ==> requests[i].time == time
    ensures var key := LimitEvent("c", time / 60);
      && Rejected(store, requests, limits, "c", time / 60) == 1
      && key in After(store, requests, limits)
      && After(store, requests, limits)[key] == IncrEx(store, key, limits.retention, time)[key]
    decreases limits.max - Count(store, Limit("b"), time)
  {
    var r := Request("c", "b", time);
    var next := Check(store, r, limits);
    if Accepts(store, r, limits) {
      var rest := RejectOne(next, limits, time);
      requests := [r] + rest;
      assert requests[1..] == rest;
    } else {
      requests := [r];
      assert requests[1..] == [];
    }
  }

  /** Rejections that a shorter retention forgets within the minute. */
  lemma ShortRetentionForgets(limits: Limits) returns (requests: seq<Request>)
    requires limits.retention < 60 && (limits.window >= 1 || limits.max == 0)
    ensures Timely(requests, 0) && !CountsRejections(limits, requests, "c", 0)
  {
    var first := RejectOne(map[], limits, 0);
    var store := After(map[], first, limits);
    var second := RejectOne(store, limits, limits.retention);
    requests := first + second;
    RejectedConcat(map[], first, second, limits, "c", 0);
  }

  lemma {:induction false} NothingIsRejected(
      store: Store, requests: seq<Request>, limits: Limits, category: string, minute: nat)
    requires limits.window == 0 && limits.max >= 1
    requires forall key :: key in store ==> key.Limit? && store[key].expires.Some?
    requires forall key, i :: key in store && 0 <= i < |requests| ==> store[key].expires.value <= requests[i].time
    requires forall i, j :: 0 <= i < j < |requests| ==> requests[i].time <= requests[j].time
    ensures Rejected(store, requests, limits, category, minute) == 0
    ensures LimitEvent(category, minute) !in After(store, requests, limits)
    decreases |requests|
  {
    if requests != [] {
      NothingIsRejected(Check(store, requests[0], limits), requests[1..], limits, category, minute);
    }
  }

  /** From an empty cache, every minute's rejections are counted exactly, for every sequence of requests,
      exactly when events are kept for a minute at least, or nothing can be rejected. */
  lemma EventsCountRejectionsExactly(limits: Limits)
    ensures (forall requests: seq<Request>, category: string, minute: nat ::
               Timely(requests, 0) ==> CountsRejections(limits, requests, category, minute))
      <==> limits.retention >= 60 || (limits.window == 0 && limits.max >= 1)
  {
    if limits.retention >= 60 {
      forall requests: seq<Request>, category: string, minute: nat
        ensures CountsRejections(limits, requests, category, minute)
      {
        RunCounts(map[], requests, limits, category, minute, 0);
      }
    } else if limits.window == 0 && limits.max >= 1 {
      forall requests: seq<Request>, category: string, minute: nat | Timely(requests, 0)
        ensures CountsRejections(limits, requests, category, minute)
      {
        NothingIsRejected(map[], requests, limits, category, minute);
      }
    } else {
      var requests := ShortRetentionForgets(limits);
    }
  }

  // -- The bound is reached, and what a zero window does ----------------------

  function Burst(n: nat, bucket: string, time: nat): seq<Request> {
    if n == 0 then [] else [Request("c", bucket, time)] + Burst(n - 1, bucket, time)
  }

  lemma {:induction false} BurstInsideWindow(
      store: Store, n: nat, rest: seq<Request>, limits: Limits, bucket: string, time: nat, hi: nat)
    requires Alive(store, Limit(bucket), time) && 1 <= store[Limit(bucket)].count <= limits.max - n && time < hi
    ensures var store' := store[Limit(bucket) := Counter(store[Limit(bucket)].count + n, store[Limit(bucket)].expires)];
      Accepted(store, Burst(n, bucket, time) + rest, limits, bucket, 0, hi)
        == n + Accepted(store', rest, limits, bucket, 0, hi)
    decreases n
  {
    if n == 0 {
      assert Burst(0, bucket, time) + rest == rest;
      assert store[Limit(bucket) := store[Limit(bucket)]] == store;
    } else {
      var r := Request("c", bucket, time);
      var s1 := Check(store, r, limits);
      assert (Burst(n, bucket, time) + rest)[1..] == Burst(n - 1, bucket, time) + rest;
      BurstInsideWindow(s1, n - 1, rest, limits, bucket, time, hi);
      var e := store[Limit(bucket)].expires;
      assert s1[Limit(bucket) := Counter(store[Limit(bucket)].count + n, e)]
          == store[Limit(bucket) := Counter(store[Limit(bucket)].count + n, e)];
    }
  }

  lemma FreshBurst(store: Store, n: nat, rest: seq<Request>, limits: Limits, bucket: string, time: nat, hi: nat)
    requires !Alive(store, Limit(bucket), time) && 1 <= n <= limits.max && limits.window >= 1 && time < hi
    ensures var store' := store[Limit(bucket) := Counter(n, Some(time + limits.window))];
      Accepted(store, Burst(n, bucket, time) + rest, limits, bucket, 0, hi)
        == n + Accepted(store', rest, limits, bucket, 0, hi)
  {
    var r := Request("c", bucket, time);
    var s1 := Check(store, r, limits);
    assert (Burst(n, bucket, time) + rest)[1..] == Burst(n - 1, bucket, time) + rest;
    BurstInsideWindow(s1, n - 1, rest, limits, bucket, time, hi);
    var full := Counter(n, Some(time + limits.window));
    assert s1[Limit(bucket) := full] == store[Limit(bucket) := full];
  }

  /** The bound of 2·max is reached: max requests as a window opens, max more as it closes. */
  lemma BoundIsReached(limits: Limits, bucket: string)
    requires limits.max >= 1 && limits.window >= 1
    ensures var requests := Burst(limits.max, bucket, 0) + Burst(limits.max, bucket, limits.window);
            Accepted(map[], requests, limits, bucket, 0, limits.window + 1) == 2 * limits.max
  {
    var second := Burst(limits.max, bucket, limits.window);
    var s1: Store := map[][Limit(bucket) := Counter(limits.max, Some(limits.window))];
    FreshBurst(map[], limits.max, second, limits, bucket, 0, limits.window + 1);
    FreshBurst(s1, limits.max, [], limits, bucket, limits.window, limits.window + 1);
    assert second + [] == second;
  }

  /** How many requests of a bucket have a time in [lo, hi). */
  function Asked(requests: seq<Request>, bucket: string, lo: nat, hi: nat): nat {
    if requests == [] then 0
    else
      (if requests[0].bucket == bucket && lo <= requests[0].time < hi then 1 else 0)
      + Asked(requests[1..], bucket, lo, hi)
  }

  /** With a window of zero every hit opens a new window, so every request of every sequence is
      accepted. */
  lemma {:induction false} ZeroWindowNeverLimits(
      store: Store, requests: seq<Request>, limits: Limits, bucket: string, lo: nat, hi: nat, now: nat)
    requires limits.window == 0 && limits.max >= 1 && Timely(requests, now) && !Alive(store, Limit(bucket), now)
    ensures Accepted(store, requests, limits, bucket, lo, hi) == Asked(requests, bucket, lo, hi)
    decreases |requests|
  {
    if requests != [] {
      var r := requests[0];
      ZeroWindowNeverLimits(Check(store, r, limits), requests[1..], limits, bucket, lo, hi, r.time);
    }
  }

  lemma {:induction false} BurstIsAsked(n: nat, bucket: string, time: nat)
    ensures Asked(Burst(n, bucket, time), bucket, time, time + 1) == n && Timely(Burst(n, bucket, time), time)
  {
    if n > 0 {
      var rest := Burst(n - 1, bucket, time);
      BurstIsAsked(n - 1, bucket, time);
      assert Burst(n, bucket, time) == [Request("c", bucket, time)] + rest;
      assert Burst(n, bucket, time)[1..] == rest;
      forall i | 0 <= i < |Burst(n, bucket, time)| ensures Burst(n, bucket, time)[i].time == time {
        BurstAt(n, bucket, time, i);
      }
    }
  }

  lemma {:induction false} BurstAt(n: nat, bucket: string, time: nat, i: nat)
    requires i < |Burst(n, bucket, time)|
    ensures |Burst(n, bucket, time)| == n && Burst(n, bucket, time)[i].time == time
  {
    if i > 0 { BurstAt(n - 1, bucket, time, i - 1); } else if n > 1 { BurstAt(n - 1, bucket, time, 0); }
  }

  /** No interval of the window's length, both ends included, holds more than 2·max accepted requests
      of a bucket. */
  ghost predicate Bounded(limits: Limits) {
    forall requests: seq<Request>, bucket: string, lo: nat, hi: nat ::
      Timely(requests, 0) && lo <= hi <= lo + limits.window + 1 ==>
        Accepted(map[], requests, limits, bucket, lo, hi) <= 2 * limits.max
  }

  /** For a limit of at least one the bound holds of every sequence exactly when the window is not
      zero. */
  lemma BoundNeedsAWindowExactly(limits: Limits)
    requires limits.max >= 1
    ensures Bounded(limits) <==> limits.window >= 1
  {
    if limits.window >= 1 {
      forall requests: seq<Request>, bucket: string, lo: nat, hi: nat
        | Timely(requests, 0) && lo <= hi <= lo + limits.window + 1
        ensures Accepted(map[], requests, limits, bucket, lo, hi) <= 2 * limits.max
      {
        AcceptedPerInterval(requests, limits, bucket, lo, hi);
      }
    } else {
      var n := 2 * limits.max + 1;
      BurstIsAsked(n, "b", 0);
      ZeroWindowNeverLimits(map[], Burst(n, "b", 0), limits, "b", 0, 1, 0);
      assert Accepted(map[], Burst(n, "b", 0), limits, "b", 0, 1) == n;
    }
  }

  // -- A lost expiry ----------------------------------------------------------

  predicate TimelyTrials(trials: seq<Trial>, start: nat) {
    && (forall i :: 0 <= i < |trials| ==> start <= trials[i].r.time)
    && forall i, j :: 0 <= i < j < |trials| ==> trials[i].r.time <= trials[j].r.time
  }

  /** How many requests of a bucket pass although the cache answers. */
  function PassedAnswered(store: Store, trials: seq<Trial>, limits: Limits, bucket: string): nat
    decreases |trials|
  {
    if trials == [] then 0
    else
      var x := trials[0];
      (if x.r.bucket == bucket && x.count.Answered? && Passes(store, x, limits) then 1 else 0)
      + PassedAnswered(CheckWith(store, x, limits), trials[1..], limits, bucket)
  }

  function Through(store: Store, trials: seq<Trial>, limits: Limits): Store
    decreases |trials|
  {
    if trials == [] then store else Through(CheckWith(store, trials[0], limits), trials[1..], limits)
  }

  predicate NeverExpires(store: Store, bucket: string) {
    Limit(bucket) in store && store[Limit(bucket)].expires.None? && store[Limit(bucket)].count >= 1
  }

  /** No request, answered or not, gives a counter its expiry back. */
  lemma NothingHeals(store: Store, x: Trial, limits: Limits, bucket: string)
    requires NeverExpires(store, bucket)
    ensures NeverExpires(CheckWith(store, x, limits), bucket)
    ensures CheckWith(store, x, limits)[Limit(bucket)].count ==
      store[Limit(bucket)].count + (if x.r.bucket == bucket && !x.count.Unreachable? then 1 else 0)
  {}

  /** Whatever fails or recovers later, a counter without an expiry lets at most max minus its count
      more requests through, ever. */
  lemma {:induction false} LostExpiryLimitsForEver(store: Store, trials: seq<Trial>, limits: Limits, bucket: string)
    requires NeverExpires(store, bucket)
    ensures PassedAnswered(store, trials, limits, bucket) <= Left(store[Limit(bucket)].count, limits.max)
    decreases |trials|
  {
    if trials != [] {
      NothingHeals(store, trials[0], limits, bucket);
      LostExpiryLimitsForEver(CheckWith(store, trials[0], limits), trials[1..], limits, bucket);
    }
  }

  /** From `now` on every answered request of the bucket is rejected, for ever and whatever fails. */
  ghost predicate LockedOut(store: Store, limits: Limits, bucket: string, now: nat) {
    forall trials: seq<Trial> :: TimelyTrials(trials, now) ==> PassedAnswered(store, trials, limits, bucket) == 0
  }

  lemma {:induction false} ZeroMaxRejects(store: Store, trials: seq<Trial>, limits: Limits, bucket: string)
    requires limits.max == 0
    ensures PassedAnswered(store, trials, limits, bucket) == 0
    decreases |trials|
  {
    if trials != [] { ZeroMaxRejects(CheckWith(store, trials[0], limits), trials[1..], limits, bucket); }
  }

  /** The limiter fails open so that an outage locks nobody out. Yet a bucket is locked out for ever
      exactly when nothing is allowed at all, or its counter has lost its expiry and reached max. */
  lemma LockedOutExactly(store: Store, limits: Limits, bucket: string, now: nat)
    requires Used(store, bucket)
    ensures LockedOut(store, limits, bucket, now)
      <==> limits.max == 0 || (NeverExpires(store, bucket) && store[Limit(bucket)].count >= limits.max)
  {
    if limits.max == 0 {
      forall trials: seq<Trial> | TimelyTrials(trials, now) ensures PassedAnswered(store, trials, limits, bucket) == 0 {
        ZeroMaxRejects(store, trials, limits, bucket);
      }
    } else if NeverExpires(store, bucket) && store[Limit(bucket)].count >= limits.max {
      forall trials: seq<Trial> | TimelyTrials(trials, now) ensures PassedAnswered(store, trials, limits, bucket) == 0 {
        LostExpiryLimitsForEver(store, trials, limits, bucket);
      }
    } else {
      var open := if Alive(store, Limit(bucket), now) && store[Limit(bucket)].expires.Some?
                  then store[Limit(bucket)].expires.value else now;
      var x := Trial(Request("c", bucket, open), Answered, Answered);
      assert Passes(store, x, limits);
      assert TimelyTrials([x], now) && PassedAnswered(store, [x], limits, bucket) == 1;
    }
  }

  function Hits(n: nat, bucket: string, time: nat): seq<Trial> {
    if n == 0 then [] else [Trial(Request("c", bucket, time), Answered, Answered)] + Hits(n - 1, bucket, time)
  }

  lemma {:induction false} HitsAdd(store: Store, n: nat, limits: Limits, bucket: string, time: nat)
    requires NeverExpires(store, bucket)
    ensures NeverExpires(Through(store, Hits(n, bucket, time), limits), bucket)
    ensures Through(store, Hits(n, bucket, time), limits)[Limit(bucket)].count == store[Limit(bucket)].count + n
    decreases n
  {
    if n > 0 {
      var hits := Hits(n, bucket, time);
      assert hits[1..] == Hits(n - 1, bucket, time);
      NothingHeals(store, hits[0], limits, bucket);
      HitsAdd(CheckWith(store, hits[0], limits), n - 1, limits, bucket, time);
    }
  }

  /** A run that locks a bucket out: from the empty cache the connection breaks between the INCR and
      the EXPIRE of a first hit, and max hits later no request of the bucket is ever accepted again. */
  lemma OutageLocksOut(limits: Limits, bucket: string, time: nat, now: nat)
    ensures var first := Trial(Request("c", bucket, time), LostAfterIncr, Answered);
            Passes(map[], first, limits)
            && LockedOut(Through(CheckWith(map[], first, limits), Hits(limits.max, bucket, time), limits),
                         limits, bucket, now)
  {
    var s1 := CheckWith(map[], Trial(Request("c", bucket, time), LostAfterIncr, Answered), limits);
    HitsAdd(s1, limits.max, limits, bucket, time);
    LockedOutExactly(Through(s1, Hits(limits.max, bucket, time), limits), limits, bucket, now);
  }
}
