/** Folding a set of paths to its deepest ones, and why service gates do not notice. */
module TagFolding {
  import opened Wrappers
  import opened Tags

  /** Keep the first occurrence of each path. */
  function Dedup(paths: seq<TagPath>): seq<TagPath> {
    if paths == [] then []
    else
      var last := |paths| - 1;
      var rest := Dedup(paths[..last]);
      if paths[last] in rest then rest else rest + [paths[last]]
  }

  predicate HasDescendant(p: TagPath, paths: seq<TagPath>) {
    exists i :: 0 <= i < |paths| && IsAncestorOf(p, paths[i])
  }

  function DropAncestors(candidates: seq<TagPath>, paths: seq<TagPath>): seq<TagPath> {
    if candidates == [] then []
    else
      var last := |candidates| - 1;
      var rest := DropAncestors(candidates[..last], paths);
      if HasDescendant(candidates[last], paths) then rest else rest + [candidates[last]]
  }

  function Fold(paths: seq<TagPath>): seq<TagPath> {
    DropAncestors(Dedup(paths), Dedup(paths))
  }

  /** The two passes of the code, each a loop that pushes into a vector. */
  method FoldDeepest(paths: seq<TagPath>) returns (folded: seq<TagPath>)
    ensures folded == Fold(paths)
  {
    var unique: seq<TagPath> := [];
    for i := 0 to |paths|
      invariant unique == Dedup(paths[..i])
    {
      assert paths[..i + 1][..i] == paths[..i];
      if paths[i] !in unique { unique := unique + [paths[i]]; }
    }
    assert paths[..|paths|] == paths;
    folded := [];
    for i := 0 to |unique|
      invariant folded == DropAncestors(unique[..i], unique)
    {
      assert unique[..i + 1][..i] == unique[..i];
      if !exists j :: 0 <= j < |unique| && IsAncestorOf(unique[i], unique[j]) { folded := folded + [unique[i]]; }
    }
    assert unique[..|unique|] == unique;
  }

  ghost predicate Distinct(paths: seq<TagPath>) {
    forall i, j :: 0 <= i < j < |paths| ==> paths[i] != paths[j]
  }

  /** The position of the first occurrence. */
  function First(p: TagPath, paths: seq<TagPath>): nat
    requires p in paths
    ensures First(p, paths) < |paths| && paths[First(p, paths)] == p
  {
    if paths[0] == p then 0 else 1 + First(p, paths[1..])
  }

  ghost predicate InOrderOf(s: seq<TagPath>, paths: seq<TagPath>) {
    && (forall i :: 0 <= i < |s| ==> s[i] in paths)
    && forall i, j :: 0 <= i < j < |s| ==> First(s[i], paths) < First(s[j], paths)
  }

  lemma {:induction false} FirstExtends(p: TagPath, paths: seq<TagPath>, q: TagPath)
    ensures p in paths ==> First(p, paths + [q]) == First(p, paths)
    ensures p !in paths && p == q ==> First(p, paths + [q]) == |paths|
  {
    if paths != [] {
      assert (paths + [q])[1..] == paths[1..] + [q];
      FirstExtends(p, paths[1..], q);
    }
  }

  lemma {:induction false} DedupExact(paths: seq<TagPath>)
    ensures Distinct(Dedup(paths)) && InOrderOf(Dedup(paths), paths)
    ensures forall p :: p in Dedup(paths) <==> p in paths
  {
    if paths != [] {
      var last := |paths| - 1;
      var rest := Dedup(paths[..last]);
      DedupExact(paths[..last]);
      assert paths == paths[..last] + [paths[last]];
      forall p | p in paths ensures p in paths[..last] ==> First(p, paths) == First(p, paths[..last]) {
        FirstExtends(p, paths[..last], paths[last]);
      }
      if paths[last] !in rest { FirstExtends(paths[last], paths[..last], paths[last]); }
    }
  }

  lemma {:induction false} DropAncestorsMembers(candidates: seq<TagPath>, paths: seq<TagPath>)
    ensures forall p :: p in DropAncestors(candidates, paths) <==> p in candidates && !HasDescendant(p, paths)
  {
    if candidates != [] {
      var last := |candidates| - 1;
      DropAncestorsMembers(candidates[..last], paths);
      assert candidates == candidates[..last] + [candidates[last]];
    }
  }

  lemma AppendInOrder(s: seq<TagPath>, p: TagPath, orig: seq<TagPath>)
    requires InOrderOf(s, orig) && p in orig
    requires forall i :: 0 <= i < |s| ==> First(s[i], orig) < First(p, orig)
    ensures InOrderOf(s + [p], orig)
  {}

  /** Dropping keeps the order, and with it the absence of duplicates. */
  lemma {:induction false} DropAncestorsOrder(candidates: seq<TagPath>, paths: seq<TagPath>, orig: seq<TagPath>)
    requires InOrderOf(candidates, orig)
    ensures InOrderOf(DropAncestors(candidates, paths), orig)
  {
    if candidates != [] {
      var last := |candidates| - 1;
      var rest := DropAncestors(candidates[..last], paths);
      DropAncestorsOrder(candidates[..last], paths, orig);
      DropAncestorsMembers(candidates[..last], paths);
      forall i | 0 <= i < |rest| ensures First(rest[i], orig) < First(candidates[last], orig) {
        assert rest[i] in candidates[..last];
        var j :| 0 <= j < last && candidates[j] == rest[i];
      }
      AppendInOrder(rest, candidates[last], orig);
    }
  }

  lemma OrderedIsDistinct(s: seq<TagPath>, orig: seq<TagPath>)
    requires InOrderOf(s, orig)
    ensures Distinct(s)
  {}

  /** A path of the set with no proper descendant in it. */
  ghost predicate Maximal(p: TagPath, paths: seq<TagPath>) {
    p in paths && forall q :: q in paths ==> !IsAncestorOf(p, q)
  }

  /** The fold is exactly the maximal paths, without duplicates and in the order of their first
      occurrence in the input. */
  lemma FoldExact(paths: seq<TagPath>)
    ensures Distinct(Fold(paths)) && InOrderOf(Fold(paths), paths)
    ensures forall p :: p in Fold(paths) <==> Maximal(p, paths)
  {
    var unique := Dedup(paths);
    DedupExact(paths);
    DropAncestorsMembers(unique, unique);
    DropAncestorsOrder(unique, unique, paths);
    OrderedIsDistinct(Fold(paths), paths);
    forall p ensures p in Fold(paths) <==> Maximal(p, paths) {
      if p in Fold(paths) {
        forall q | q in paths ensures !IsAncestorOf(p, q) { assert q in unique; }
      } else if p in unique {
        var i :| 0 <= i < |unique| && IsAncestorOf(p, unique[i]);
        assert unique[i] in paths;
      }
    }
  }

  lemma MaxDepth(paths: seq<TagPath>) returns (bound: nat)
    ensures forall p :: p in paths ==> Depth(p) <= bound
  {
    bound := 0;
    for i := 0 to |paths|
      invariant forall j :: 0 <= j < i ==> Depth(paths[j]) <= bound
    {
      if Depth(paths[i]) > bound { bound := Depth(paths[i]); }
    }
  }

  lemma {:induction false} SurvivorAbove(p: TagPath, paths: seq<TagPath>, bound: nat) returns (survivor: TagPath)
    requires p in paths && forall q :: q in paths ==> Depth(q) <= bound
    ensures survivor in Fold(paths) && IsAncestorOrSelf(p, survivor)
    decreases bound - Depth(p)
  {
    FoldExact(paths);
    if p in Fold(paths) { return p; }
    var q :| q in paths && IsAncestorOf(p, q);
    AncestorIsProperPrefix(p, q);
    survivor := SurvivorAbove(q, paths, bound);
    AncestryIsTransitive(p, q, survivor);
  }

  /** Every input is a survivor or an ancestor of one. */
  lemma EveryInputIsCovered(p: TagPath, paths: seq<TagPath>) returns (survivor: TagPath)
    requires p in paths
    ensures survivor in Fold(paths) && IsAncestorOrSelf(p, survivor)
  {
    var bound := MaxDepth(paths);
    survivor := SurvivorAbove(p, paths, bound);
  }

  lemma {:induction false} DedupOfDistinct(paths: seq<TagPath>)
    requires Distinct(paths)
    ensures Dedup(paths) == paths
  {
    if paths != [] {
      var last := |paths| - 1;
      DedupOfDistinct(paths[..last]);
      assert paths[last] !in paths[..last];
    }
  }

  lemma {:induction false} DropsNothing(candidates: seq<TagPath>, paths: seq<TagPath>)
    requires forall p :: p in candidates ==> !HasDescendant(p, paths)
    ensures DropAncestors(candidates, paths) == candidates
  {
    if candidates != [] {
      var last := |candidates| - 1;
      DropsNothing(candidates[..last], paths);
      assert candidates[last] in candidates;
    }
  }

  /** Folding twice is folding once. */
  lemma FoldIsIdempotent(paths: seq<TagPath>)
    ensures Fold(Fold(paths)) == Fold(paths)
  {
    var f := Fold(paths);
    FoldExact(paths);
    DedupOfDistinct(f);
    forall p | p in f ensures !HasDescendant(p, f) {
      forall i | 0 <= i < |f| ensures !IsAncestorOf(p, f[i]) { assert f[i] in f && f[i] in paths; }
    }
    DropsNothing(f, f);
  }

  // -- Gates ------------------------------------------------------------------

  datatype Service = Service(enabled: bool, requires_: seq<TagPath>, excludes: seq<TagPath>)

  datatype Arm = Arm(path: TagPath, hits: seq<TagPath>)

  datatype GateDecision = GateDecision(enabled: bool, requires_: seq<Arm>, excludes: seq<Arm>)

  /** The tags at or under an arm. */
  function Hits(arm: TagPath, tags: seq<TagPath>): seq<TagPath> {
    if tags == [] then []
    else (if IsAncestorOrSelf(arm, tags[0]) then [tags[0]] else []) + Hits(arm, tags[1..])
  }

  function Arms(list: seq<TagPath>, tags: seq<TagPath>): seq<Arm> {
    seq(|list|, i requires 0 <= i < |list| => Arm(list[i], Hits(list[i], tags)))
  }

  function Gate(service: Service, tags: seq<TagPath>): GateDecision {
    GateDecision(service.enabled, Arms(service.requires_, tags), Arms(service.excludes, tags))
  }

  predicate Fired(d: GateDecision) {
    && d.enabled
    && (forall i :: 0 <= i < |d.requires_| ==> d.requires_[i].hits != [])
    && (forall i :: 0 <= i < |d.excludes| ==> d.excludes[i].hits == [])
  }

  predicate Present(arm: TagPath, tags: seq<TagPath>) {
    exists t :: t in tags && IsAncestorOrSelf(arm, t)
  }

  lemma {:induction false} HitsExact(arm: TagPath, tags: seq<TagPath>)
    ensures Hits(arm, tags) != [] <==> Present(arm, tags)
    ensures forall t :: t in Hits(arm, tags) <==> t in tags && IsAncestorOrSelf(arm, t)
  {
    if tags != [] {
      HitsExact(arm, tags[1..]);
      assert forall t :: t in tags <==> t == tags[0] || t in tags[1..];
    }
  }

  /** A service fires with all required paths present and no excluded one. */
  lemma FiredExact(service: Service, tags: seq<TagPath>)
    ensures Fired(Gate(service, tags)) <==>
      && service.enabled
      && (forall i :: 0 <= i < |service.requires_| ==> Present(service.requires_[i], tags))
      && (forall i :: 0 <= i < |service.excludes| ==> !Present(service.excludes[i], tags))
  {
    var d := Gate(service, tags);
    forall i | 0 <= i < |service.requires_|
      ensures d.requires_[i].hits != [] <==> Present(service.requires_[i], tags)
    {
      HitsExact(service.requires_[i], tags);
    }
    forall i | 0 <= i < |service.excludes|
      ensures d.excludes[i].hits != [] <==> Present(service.excludes[i], tags)
    {
      HitsExact(service.excludes[i], tags);
    }
  }

  lemma PresenceSurvivesFolding(arm: TagPath, tags: seq<TagPath>)
    ensures Present(arm, Fold(tags)) <==> Present(arm, tags)
  {
    FoldExact(tags);
    if Present(arm, tags) {
      var t :| t in tags && IsAncestorOrSelf(arm, t);
      var s := EveryInputIsCovered(t, tags);
      AncestryIsTransitive(arm, t, s);
    }
  }

  /** Every service gate fires on the folded tags exactly when it fires on the original ones. */
  lemma GatesIgnoreFolding(service: Service, tags: seq<TagPath>)
    ensures Fired(Gate(service, Fold(tags))) <==> Fired(Gate(service, tags))
  {
    FiredExact(service, tags);
    FiredExact(service, Fold(tags));
    forall arm ensures Present(arm, Fold(tags)) <==> Present(arm, tags) {
      PresenceSurvivesFolding(arm, tags);
    }
  }
}
