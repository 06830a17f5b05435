/** One pass of the username-mapping reconciliation, for every iteration order of the hash maps. */
module Reconcile {
  import opened Wrappers

  type User = string
  type Domain = string

  /** A registered backend and the user list it answered with, if it answered with one. */
  datatype Backend = Backend(domain: Domain, reachable: bool, answer: Option<set<User>>)

  type Claims = map<Domain, set<User>>
  type Mappings = map<User, Domain>

  /** The user lists of this pass; a backend that was not reached is not part of it. */
  function Queried(backends: seq<Backend>): Claims {
    if backends == [] then map[]
    else
      var last := |backends| - 1;
      var rest, b := Queried(backends[..last]), backends[last];
      if b.reachable && b.answer.Some? then rest[b.domain := b.answer.value] else rest
  }

  /** An iteration order of the queried backends. */
  ghost predicate IsOrder(order: seq<Domain>, claims: Claims) {
    && (forall d :: d in order <==> d in claims)
    && forall i, j :: 0 <= i < j < |order| ==> order[i] != order[j]
  }

  /** Each claimed username goes to the first backend, in iteration order, that claims it. */
  function Desired(order: seq<Domain>, claims: Claims): Mappings
    requires forall d :: d in order ==> d in claims
  {
    if order == [] then map[]
    else
      var last := |order| - 1;
      var earlier := Desired(order[..last], claims);
      (map u | u in claims[order[last]] :: order[last]) + earlier
  }

  function Pruned(current: Mappings, claims: Claims, desired: Mappings): set<User> {
    set u | u in current && u !in desired && current[u] in claims
  }

  /** The mapping table after a pass. */
  function Pass(current: Mappings, claims: Claims, order: seq<Domain>): Mappings
    requires forall d :: d in order ==> d in claims
  {
    var desired := Desired(order, claims);
    (current - Pruned(current, claims, desired)) + desired
  }

  /** The table after the claims of some users have been written. */
  function Upserted(current: Mappings, desired: Mappings, done: set<User>): Mappings {
    current + (map u | u in desired && u in done :: desired[u])
  }

  lemma UpsertOne(current: Mappings, desired: Mappings, done: set<User>, u: User)
    requires u in desired
    ensures Upserted(current, desired, done + {u}) == Upserted(current, desired, done)[u := desired[u]]
  {}

  lemma TakeOne(done: set<User>, left: set<User>, keys: set<User>, u: User)
    requires u in left && done !! left
    ensures done + {u} !! left - {u} && (done + {u}) + (left - {u}) == done + left
    ensures (done + {u}) - keys == if u in keys then done - keys else (done - keys) + {u}
    ensures (done + {u}) * keys == if u in keys then done * keys + {u} else done * keys
  {}

  /** Writing just the claims that differ leaves the same table as writing all of them. */
  lemma FixExact(current: Mappings, desired: Mappings, done: set<User>)
    requires done == set u | u in desired && (u !in current || current[u] != desired[u])
    ensures Upserted(current, desired, done) == current + desired
    ensures done - current.Keys == set u | u in desired && u !in current
    ensures done * current.Keys == set u | u in desired && u in current && desired[u] != current[u]
  {}

  lemma PruneAfterWriting(current: Mappings, desired: Mappings, gone: set<User>)
    requires gone !! desired.Keys
    ensures (current + desired) - gone == (current - gone) + desired
  {}

  class Resolver {
    var mappings: Mappings

    static method Collect(backends: seq<Backend>) returns (perBackend: Claims)
      ensures perBackend == Queried(backends)
    {
      perBackend := map[];
      for i := 0 to |backends|
        invariant perBackend == Queried(backends[..i])
      {
        assert backends[..i + 1][..i] == backends[..i];
        if backends[i].reachable && backends[i].answer.Some? {
          perBackend := perBackend[backends[i].domain := backends[i].answer.value];
        }
      }
      assert backends[..|backends|] == backends;
    }

    /** The first claim wins; usernames inside one list are taken in any order. */
    static method FirstClaims(order: seq<Domain>, claims: Claims) returns (desired: Mappings)
      requires forall d :: d in order ==> d in claims
      ensures desired == Desired(order, claims)
    {
      desired := map[];
      for i := 0 to |order|
        invariant desired == Desired(order[..i], claims)
      {
        assert order[..i + 1][..i] == order[..i];
        ghost var before := desired;
        var users := claims[order[i]];
        var left := users;
        while left != {}
          invariant left <= users
          invariant desired == (map u | u in users - left :: order[i]) + before
        {
          var u :| u in left;
          left := left - {u};
          if u !in desired { desired := desired[u := order[i]]; }
        }
        assert users - left == users;
      }
      assert order[..|order|] == order;
    }

    /** Add or fix every mapping that differs from the authoritative claim. */
    method Fix(desired: Mappings) returns (added: nat, moved: nat)
      modifies this
      ensures mappings == old(mappings) + desired
      ensures added == |set u | u in desired && u !in old(mappings)|
      ensures moved == |set u | u in desired && u in old(mappings) && desired[u] != old(mappings)[u]|
    {
      var current := mappings;
      var fixes := set u | u in desired && (u !in current || current[u] != desired[u]);
      ghost var all, done: set<User> := fixes, {};
      var addedUsers, movedUsers := {}, {};
      while fixes != {}
        invariant done !! fixes && done + fixes == all
        invariant addedUsers == done - current.Keys && movedUsers == done * current.Keys
        invariant mappings == Upserted(current, desired, done)
      {
        var u :| u in fixes;
        UpsertOne(current, desired, done, u);
        TakeOne(done, fixes, current.Keys, u);
        done := done + {u};
        fixes := fixes - {u};
        mappings := mappings[u := desired[u]];
        if u in current { movedUsers := movedUsers + {u}; } else { addedUsers := addedUsers + {u}; }
      }
      FixExact(current, desired, done);
      added, moved := |addedUsers|, |movedUsers|;
    }

    /** The pass as the routine runs it, with the users it added, moved and removed counted. The order
        of the hash-map iteration is an argument. */
    method Run(backends: seq<Backend>, order: seq<Domain>) returns (added: nat, moved: nat, removed: nat)
      requires IsOrder(order, Queried(backends))
      modifies this
      ensures mappings == Pass(old(mappings), Queried(backends), order)
      ensures added == |set u | u in mappings && u !in old(mappings)|
      ensures moved == |set u | u in mappings && u in old(mappings) && mappings[u] != old(mappings)[u]|
      ensures removed == |set u | u in old(mappings) && u !in mappings|
    {
      var perBackend := Collect(backends);
      added, moved, removed := 0, 0, 0;
      if |perBackend| == 0 {
        NothingQueried(mappings, perBackend, order);
        CountChanges(mappings, mappings, map[], {});
        return;
      }
      var desired := FirstClaims(order, perBackend);
      var current := mappings;
      added, moved := Fix(desired);
      var gone := set u | u in current && u !in desired && current[u] in perBackend;
      PruneAfterWriting(current, desired, gone);
      mappings := mappings - gone;
      removed := |gone|;
      CountChanges(current, mappings, desired, gone);
    }
  }

  /** The users a pass adds, moves and removes are those in whose mapping the tables differ. */
  lemma CountChanges(current: Mappings, after: Mappings, desired: Mappings, gone: set<User>)
    requires gone <= current.Keys - desired.Keys && after == (current - gone) + desired
    ensures (set u | u in after && u !in current) == set u | u in desired && u !in current
    ensures (set u | u in after && u in current && after[u] != current[u])
         == set u | u in desired && u in current && desired[u] != current[u]
    ensures (set u | u in current && u !in after) == gone
  {}

  lemma NothingQueried(m: Mappings, claims: Claims, order: seq<Domain>)
    requires |claims| == 0 && IsOrder(order, claims)
    ensures Pass(m, claims, order) == m
  {
    assert claims == map[];
    if order != [] { HeadIn(order); }
  }

  lemma HeadIn(order: seq<Domain>)
    requires order != []
    ensures order[0] in order
  {}

  // -- What is queried --------------------------------------------------------

  /** The registration was reached and answered with a user list. */
  predicate Answered(b: Backend) {
    b.reachable && b.answer.Some?
  }

  /** Registration `i` is the last of its domain that was reached and answered. */
  ghost predicate LastAnswer(backends: seq<Backend>, d: Domain, i: nat) {
    i < |backends| && backends[i].domain == d && Answered(backends[i])
    && forall j :: i < j < |backends| && backends[j].domain == d ==> !Answered(backends[j])
  }

  /** A domain is part of the pass exactly when some registration of it was reached and answered, with
      the list of the last one that did. */
  lemma {:induction false} QueriedExact(backends: seq<Backend>, d: Domain)
    ensures d in Queried(backends)
      <==> exists i :: 0 <= i < |backends| && backends[i].domain == d && Answered(backends[i])
    ensures forall i: nat :: LastAnswer(backends, d, i) ==>
      d in Queried(backends) && Queried(backends)[d] == backends[i].answer.value
    ensures d in Queried(backends) ==> exists i: nat :: LastAnswer(backends, d, i)
  {
    if backends != [] {
      var last := |backends| - 1;
      QueriedExact(backends[..last], d);
      if backends[last].domain == d && Answered(backends[last]) {
        assert LastAnswer(backends, d, last);
      } else {
        forall i: nat ensures LastAnswer(backends, d, i) <==> LastAnswer(backends[..last], d, i) {
          EarlierAnswer(backends, d, i);
        }
        if d in Queried(backends) {
          var i: nat :| LastAnswer(backends[..last], d, i);
          assert LastAnswer(backends, d, i);
        }
      }
    }
  }

  lemma EarlierAnswer(backends: seq<Backend>, d: Domain, i: nat)
    requires backends != []
    requires var b := backends[|backends| - 1]; !(b.domain == d && Answered(b))
    ensures LastAnswer(backends, d, i) <==> LastAnswer(backends[..|backends| - 1], d, i)
  {}

  // -- What a pass achieves ---------------------------------------------------

  predicate Claimed(u: User, claims: Claims) {
    exists d :: d in claims && u in claims[d]
  }

  lemma {:induction false} DesiredExact(order: seq<Domain>, claims: Claims, u: User)
    requires forall d :: d in order ==> d in claims
    ensures var m := Desired(order, claims);
      && (u in m <==> exists i :: 0 <= i < |order| && u in claims[order[i]])
      && (u in m ==> exists i :: 0 <= i < |order| && m[u] == order[i] && u in claims[order[i]]
                       && forall j :: 0 <= j < i ==> u !in claims[order[j]])
  {
    if order != [] {
      var last := |order| - 1;
      DesiredExact(order[..last], claims, u);
      var m := Desired(order[..last], claims);
      if u in m {
        var i :| 0 <= i < last && m[u] == order[..last][i] && u in claims[order[..last][i]]
               && forall j :: 0 <= j < i ==> u !in claims[order[..last][j]];
        assert order[i] == order[..last][i] && forall j :: 0 <= j < i ==> order[j] == order[..last][j];
      } else {
        forall i | 0 <= i < last ensures u !in claims[order[i]] { assert order[i] == order[..last][i]; }
      }
    }
  }

  /** A claimed username maps to a backend that claims it; an unclaimed one is removed exactly when
      its own backend was queried, and otherwise keeps its mapping. */
  lemma PassExact(current: Mappings, claims: Claims, order: seq<Domain>, u: User)
    requires IsOrder(order, claims)
    ensures var after := Pass(current, claims, order);
      && (Claimed(u, claims) ==> u in after && after[u] in claims && u in claims[after[u]])
      && (!Claimed(u, claims) ==>
            (u in after <==> u in current && current[u] !in claims) && (u in after ==> after[u] == current[u]))
  {
    DesiredExact(order, claims, u);
    if Claimed(u, claims) {
      var d :| d in claims && u in claims[d];
      assert d in order;
      var i :| 0 <= i < |order| && order[i] == d;
      assert u in Desired(order, claims);
    }
  }

  /** The domain claims the user in the last answer it gave. */
  ghost predicate ClaimsUser(backends: seq<Backend>, d: Domain, u: User) {
    exists i: nat :: LastAnswer(backends, d, i) && u in backends[i].answer.value
  }

  /** A pass told from the registrations. A user that some answering domain claims is mapped to one that
      does. Any other user loses its mapping exactly when a registration of its own domain was reached
      and answered; so the users of a domain that did not answer are never removed, and keep their
      mapping unless another domain claims them. */
  lemma PassFromBackends(current: Mappings, backends: seq<Backend>, order: seq<Domain>, u: User)
    requires IsOrder(order, Queried(backends))
    ensures var after := Pass(current, Queried(backends), order);
            var claimed := exists d :: ClaimsUser(backends, d, u);
            && (claimed ==> u in after && ClaimsUser(backends, after[u], u))
            && (!claimed ==> (u in after ==> u in current && after[u] == current[u]))
            && (u in current ==>
                  (u !in after <==> !claimed && exists i :: 0 <= i < |backends| && Answered(backends[i])
                                                            && backends[i].domain == current[u]))
  {
    var claims := Queried(backends);
    var after := Pass(current, claims, order);
    PassExact(current, claims, order, u);
    forall d: Domain ensures ClaimsUser(backends, d, u) <==> d in claims && u in claims[d] {
      ClaimsExact(backends, d, u);
    }
    if u in current { QueriedExact(backends, current[u]); }
    if Claimed(u, claims) {
      var d :| d in claims && u in claims[d];
      assert ClaimsUser(backends, d, u);
    }
  }

  lemma ClaimsExact(backends: seq<Backend>, d: Domain, u: User)
    ensures ClaimsUser(backends, d, u) <==> d in Queried(backends) && u in Queried(backends)[d]
  {
    QueriedExact(backends, d);
  }

  ghost predicate NoRivalClaims(claims: Claims) {
    forall d, e, u :: d in claims && e in claims && u in claims[d] && u in claims[e] ==> d == e
  }

  lemma PassSettles(current: Mappings, claims: Claims, a: seq<Domain>, b: seq<Domain>)
    requires IsOrder(a, claims) && IsOrder(b, claims) && NoRivalClaims(claims)
    ensures Pass(Pass(current, claims, a), claims, b) == Pass(current, claims, a)
  {
    var once := Pass(current, claims, a);
    var twice := Pass(once, claims, b);
    forall u ensures (u in twice <==> u in once) && (u in once ==> twice[u] == once[u]) {
      PassExact(current, claims, a, u);
      PassExact(once, claims, b, u);
    }
  }

  lemma {:induction false} SomeOrder(domains: set<Domain>) returns (order: seq<Domain>)
    ensures forall d :: d in order <==> d in domains
    ensures forall i, j :: 0 <= i < j < |order| ==> order[i] != order[j]
    decreases |domains|
  {
    if domains == {} { return []; }
    var d :| d in domains;
    var rest := SomeOrder(domains - {d});
    order := [d] + rest;
  }

  /** An iteration order that starts with a given backend. */
  lemma OrderFrom(claims: Claims, d: Domain) returns (order: seq<Domain>)
    requires d in claims
    ensures IsOrder(order, claims) && order[0] == d
  {
    var rest := SomeOrder(claims.Keys - {d});
    order := [d] + rest;
  }

  lemma FirstWins(current: Mappings, claims: Claims, order: seq<Domain>, u: User)
    requires IsOrder(order, claims) && order != [] && u in claims[order[0]]
    ensures u in Pass(current, claims, order) && Pass(current, claims, order)[u] == order[0]
  {
    DesiredExact(order, claims, u);
  }

  /** A second pass over the same lists changes nothing, whatever the two iteration orders, exactly
      when no username is claimed by two backends. */
  lemma SecondPassIsIdleExactly(current: Mappings, claims: Claims)
    ensures (forall a: seq<Domain>, b: seq<Domain> | IsOrder(a, claims) && IsOrder(b, claims) ::
               Pass(Pass(current, claims, a), claims, b) == Pass(current, claims, a))
       <==> NoRivalClaims(claims)
  {
    if NoRivalClaims(claims) {
      forall a: seq<Domain>, b: seq<Domain> | IsOrder(a, claims) && IsOrder(b, claims)
        ensures Pass(Pass(current, claims, a), claims, b) == Pass(current, claims, a)
      {
        PassSettles(current, claims, a, b);
      }
    } else {
      var d, e, u :| d in claims && e in claims && u in claims[d] && u in claims[e] && d != e;
      var a := OrderFrom(claims, d);
      var b := OrderFrom(claims, e);
      FirstWins(current, claims, a, u);
      FirstWins(Pass(current, claims, a), claims, b, u);
    }
  }

  /** Claims for which a second pass is not idle: two back-ends that both claim one username. */
  lemma RivalsMoveTheUser()
    ensures var claims: Claims := map["x" := {"u"}, "y" := {"u"}];
            Pass(map[], claims, ["x", "y"]) == map["u" := "x"]
            && Pass(Pass(map[], claims, ["x", "y"]), claims, ["y", "x"]) == map["u" := "y"]
  {
    var claims: Claims := map["x" := {"u"}, "y" := {"u"}];
    TwoBackends(claims, "x", "y");
    TwoBackends(claims, "y", "x");
  }

  lemma TwoBackends(claims: Claims, a: Domain, b: Domain)
    requires a in claims && b in claims && claims[a] == {"u"} && claims[b] == {"u"}
    ensures Desired([a, b], claims) == map["u" := a]
  {
    assert [a, b][..1] == [a] && [a][..0] == [];
    assert Desired([a], claims) == map["u" := a];
  }
}
