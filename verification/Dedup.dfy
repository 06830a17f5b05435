/**
 Content-dedup groups: picture rows of one user that share a content key, with SQL's three-valued
 logic where a query depends on it. Each statement is one atomic update of the table.
 */
module Dedup {
  import opened MapSum
  import opened Wrappers

  type Id = nat

  datatype Reason = Manual | ContentDedupe | Boomerang

  datatype Row = Row(
    user: int, contentHash: Option<string>, fileHash: Option<string>,
    deletedAt: Option<nat>, reason: Option<Reason>,
    remote: bool, copy: bool, ownerDeleted: bool, pipelineRun: Option<nat>)

  type Pictures = map<Id, Row>

  // -- Three-valued logic -----------------------------------------------------

  datatype Tri = True | False | Null

  function Or(a: Tri, b: Tri): Tri {
    if a.True? || b.True? then True else if a.False? && b.False? then False else Null
  }

  function And(a: Tri, b: Tri): Tri {
    if a.False? || b.False? then False else if a.True? && b.True? then True else Null
  }

  function Not(a: Tri): Tri {
    match a case True => False case False => True case Null => Null
  }

  function Bool(b: bool): Tri {
    if b then True else False
  }

  function SqlEq<T(==)>(a: Option<T>, b: Option<T>): Tri {
    if a.None? || b.None? then Null else Bool(a == b)
  }

  /** `COALESCE(content_hash, 'fh:' || file_hash)`. */
  function Key(row: Row): Option<string> {
    if row.contentHash.Some? then row.contentHash
    else if row.fileHash.Some? then Some("fh:" + row.fileHash.value)
    else None
  }

  predicate SameGroup(a: Row, b: Row) {
    a.user == b.user && SqlEq(Key(a), Key(b)).True?
  }

  function Group(pics: Pictures, user: int, key: string): set<Id> {
    set i | i in pics && pics[i].user == user && Key(pics[i]) == Some(key)
  }

  predicate IsLive(row: Row) {
    row.deletedAt.None?
  }

  predicate Has(row: Row, reason: Reason) {
    row.reason == Some(reason)
  }

  // -- Row updates ------------------------------------------------------------

  function Hide(row: Row, reason: Reason, now: nat): Row {
    row.(deletedAt := if row.deletedAt.Some? then row.deletedAt else Some(now),
         reason := Some(reason), pipelineRun := None)
  }

  function Show(row: Row): Row {
    row.(deletedAt := None, reason := None, pipelineRun := None)
  }

  function Relabel(row: Row, reason: Reason): Row {
    row.(reason := Some(reason), pipelineRun := None)
  }

  function HideOne(pics: Pictures, id: Id, reason: Reason, now: nat): Pictures {
    if id in pics then pics[id := Hide(pics[id], reason, now)] else pics
  }

  function PromoteToLive(pics: Pictures, id: Id): Pictures {
    if id in pics && Has(pics[id], ContentDedupe) then pics[id := Show(pics[id])] else pics
  }

  /** The rows of `user` in the group of picture `id`, when the user holds it and it has a key. */
  function GroupOf(pics: Pictures, user: int, id: Id): set<Id> {
    if id in pics && pics[id].user == user then set i | i in pics && SameGroup(pics[i], pics[id]) else {}
  }

  function SetSurvivor(pics: Pictures, user: int, id: Id, now: nat): Pictures {
    var group := GroupOf(pics, user, id);
    map i | i in pics ::
      if i !in group then pics[i] else if i == id then Show(pics[i]) else Hide(pics[i], ContentDedupe, now)
  }

  /** The order of survivor priority: not deleted by the owner, owned, an original, lowest id. */
  predicate Before(pics: Pictures, i: Id, j: Id)
    requires i in pics && j in pics
  {
    var a, b := pics[i], pics[j];
    if a.ownerDeleted != b.ownerDeleted then b.ownerDeleted
    else if a.remote != b.remote then b.remote
    else if a.copy != b.copy then b.copy
    else i <= j
  }

  predicate IsBest(pics: Pictures, group: set<Id>, rep: Id) {
    && rep in group && rep in pics
    && forall i :: i in group && i in pics ==> Before(pics, rep, i)
  }

  lemma {:induction false} BestExists(pics: Pictures, group: set<Id>)
    requires group != {} && group <= pics.Keys
    ensures exists rep :: IsBest(pics, group, rep)
    decreases |group|
  {
    var some :| some in group;
    var rest := group - {some};
    if rest == {} {
      assert group == {some};
      assert IsBest(pics, group, some);
    } else {
      BestExists(pics, rest);
      var best :| IsBest(pics, rest, best);
      assert IsBest(pics, group, if Before(pics, some, best) then some else best);
    }
  }

  lemma BestIsUnique(pics: Pictures, group: set<Id>, a: Id, b: Id)
    requires IsBest(pics, group, a) && IsBest(pics, group, b)
    ensures a == b
  {}

  ghost function Best(pics: Pictures, group: set<Id>): (rep: Id)
    requires group != {} && group <= pics.Keys
    ensures IsBest(pics, group, rep)
  {
    BestExists(pics, group);
    var rep :| IsBest(pics, group, rep);
    rep
  }

  /** The best row of the group becomes its manual representative, the rest boomerangs. */
  ghost function RejectGroup(pics: Pictures, user: int, id: Id, now: nat): Pictures {
    var group := GroupOf(pics, user, id);
    map i | i in pics ::
      if i !in group then pics[i]
      else Hide(pics[i], if i == Best(pics, group) then Manual else Boomerang, now)
  }

  function DedupeBoomerangSiblings(pics: Pictures, user: int, id: Id): Pictures {
    map i | i in pics ::
      if id in pics && i != id && pics[i].user == user && Has(pics[i], Boomerang)
         && SqlEq(Key(pics[i]), Key(pics[id])).True?
      then Relabel(pics[i], ContentDedupe) else pics[i]
  }

  /** Another row of the same group that is live. */
  predicate LiveElsewhere(pics: Pictures, i: Id)
    requires i in pics
  {
    exists m :: m in pics && m != i && SameGroup(pics[m], pics[i]) && IsLive(pics[m])
  }

  function DedupeBoomerangInLiveGroups(pics: Pictures, user: int): Pictures {
    map i | i in pics ::
      if pics[i].user == user && Has(pics[i], Boomerang) && LiveElsewhere(pics, i)
      then Relabel(pics[i], ContentDedupe) else pics[i]
  }

  /** Another row of the same group that is a manual rejection. */
  predicate ManualElsewhere(pics: Pictures, i: Id)
    requires i in pics
  {
    exists m :: m in pics && m != i && SameGroup(pics[m], pics[i]) && Has(pics[m], Manual)
  }

  function BoomerangDedupeInManualGroups(pics: Pictures, user: int): Pictures {
    map i | i in pics ::
      if pics[i].user == user && Has(pics[i], ContentDedupe) && ManualElsewhere(pics, i)
      then Relabel(pics[i], Boomerang) else pics[i]
  }

  // -- The table object -------------------------------------------------------

  class PictureTable {
    var rows: Pictures
    var clock: nat

    method SetContentDedupe(id: Id)
      modifies this`rows
      ensures rows == HideOne(old(rows), id, ContentDedupe, clock)
    {
      if id in rows { rows := rows[id := Hide(rows[id], ContentDedupe, clock)]; }
    }

    method SetManual(id: Id)
      modifies this`rows
      ensures rows == HideOne(old(rows), id, Manual, clock)
    {
      if id in rows { rows := rows[id := Hide(rows[id], Manual, clock)]; }
    }

    method SetBoomerang(id: Id)
      modifies this`rows
      ensures rows == HideOne(old(rows), id, Boomerang, clock)
    {
      if id in rows { rows := rows[id := Hide(rows[id], Boomerang, clock)]; }
    }

    method Promote(id: Id)
      modifies this`rows
      ensures rows == PromoteToLive(old(rows), id)
    {
      if id in rows && rows[id].reason == Some(ContentDedupe) {
        rows := rows[id := rows[id].(deletedAt := None, reason := None, pipelineRun := None)];
      }
    }

    /** Make the picture the live survivor of its group; true when some row was updated. */
    method Survive(user: int, id: Id) returns (ok: bool)
      modifies this`rows
      ensures rows == SetSurvivor(old(rows), user, id, clock)
      ensures ok <==> GroupOf(old(rows), user, id) != {}
    {
      var hit := GroupOf(rows, user, id);
      rows := map i | i in rows ::
        if i !in hit then rows[i] else if i == id then Show(rows[i]) else Hide(rows[i], ContentDedupe, clock);
      ok := hit != {};
    }

    /** Reject the whole group of the picture; returns the number of rows trashed. */
    method Reject(user: int, id: Id) returns (trashed: nat)
      modifies this`rows
      ensures rows == RejectGroup(old(rows), user, id, clock)
      ensures trashed == |GroupOf(old(rows), user, id)|
    {
      var hit := GroupOf(rows, user, id);
      trashed := |hit|;
      if hit == {} { assert rows == RejectGroup(rows, user, id, clock); return; }
      BestExists(rows, hit);
      var rep :| rep in hit && IsBest(rows, hit, rep);
      BestIsUnique(rows, hit, rep, Best(rows, hit));
      rows := map i | i in rows ::
        if i in hit then Hide(rows[i], if i == rep then Manual else Boomerang, clock) else rows[i];
    }
  }

  // -- Consistency ------------------------------------------------------------

  /** A row is hidden exactly when it has a reason. */
  ghost predicate Consistent(pics: Pictures) {
    forall i :: i in pics ==> (pics[i].deletedAt.Some? <==> pics[i].reason.Some?)
  }

  lemma RowUpdatesKeepConsistent(pics: Pictures, user: int, id: Id, reason: Reason, now: nat)
    requires Consistent(pics)
    ensures Consistent(HideOne(pics, id, reason, now)) && Consistent(PromoteToLive(pics, id))
    ensures Consistent(SetSurvivor(pics, user, id, now)) && Consistent(RejectGroup(pics, user, id, now))
  {}

  lemma RelabelsKeepConsistent(pics: Pictures, user: int, id: Id)
    requires Consistent(pics)
    ensures Consistent(DedupeBoomerangSiblings(pics, user, id))
    ensures Consistent(DedupeBoomerangInLiveGroups(pics, user))
    ensures Consistent(BoomerangDedupeInManualGroups(pics, user))
  {}

  /** Every operation keeps "hidden exactly with a reason". */
  lemma OperationsKeepConsistent(pics: Pictures, user: int, id: Id, reason: Reason, now: nat)
    requires Consistent(pics)
    ensures Consistent(HideOne(pics, id, reason, now)) && Consistent(PromoteToLive(pics, id))
    ensures Consistent(SetSurvivor(pics, user, id, now)) && Consistent(RejectGroup(pics, user, id, now))
    ensures Consistent(DedupeBoomerangSiblings(pics, user, id))
    ensures Consistent(DedupeBoomerangInLiveGroups(pics, user))
    ensures Consistent(BoomerangDedupeInManualGroups(pics, user))
  {
    RowUpdatesKeepConsistent(pics, user, id, reason, now);
    RelabelsKeepConsistent(pics, user, id);
  }

  /** Promotion never surfaces a rejection: only a content_dedupe row becomes live. */
  lemma PromotionNeverLiftsARejection(pics: Pictures, id: Id)
    ensures PromoteToLive(pics, id) != pics ==> id in pics && Has(pics[id], ContentDedupe)
    ensures forall i :: i in pics && (i != id || !Has(pics[i], ContentDedupe)) ==> PromoteToLive(pics, id)[i] == pics[i]
  {}

  // -- Survivors and rejections -----------------------------------------------

  function LiveIn(pics: Pictures, group: set<Id>): set<Id> {
    set i | i in group && i in pics && IsLive(pics[i])
  }

  function WithReason(pics: Pictures, group: set<Id>, reason: Reason): set<Id> {
    set i | i in group && i in pics && Has(pics[i], reason)
  }

  /** Choosing a survivor leaves exactly that row live in its group and hides every other row of it
      as content_dedupe; no row outside the group changes, and the groups themselves stay. */
  lemma SurvivorExact(pics: Pictures, user: int, id: Id, now: nat, key: string)
    requires id in pics && pics[id].user == user && Key(pics[id]) == Some(key)
    ensures var pics' := SetSurvivor(pics, user, id, now);
      && Group(pics', user, key) == Group(pics, user, key) == GroupOf(pics, user, id)
      && LiveIn(pics', Group(pics', user, key)) == {id}
      && WithReason(pics', Group(pics', user, key), ContentDedupe) == Group(pics, user, key) - {id}
      && pics'.Keys == pics.Keys
      && (forall i :: i in pics && i !in Group(pics, user, key) ==> pics'[i] == pics[i])
  {}

  /** The call is documented to report false when the user holds no such picture. It reports true
      exactly when the user holds it and it has a content key, so it also reports false, and does
      nothing, for a held picture without hashes. */
  lemma SurvivorReportExact(pics: Pictures, user: int, id: Id, now: nat)
    ensures GroupOf(pics, user, id) != {} <==> id in pics && pics[id].user == user && Key(pics[id]).Some?
    ensures GroupOf(pics, user, id) == {} ==> SetSurvivor(pics, user, id, now) == pics
  {
    if id in pics && pics[id].user == user && Key(pics[id]).Some? { assert id in GroupOf(pics, user, id); }
  }

  /** A held picture without hashes, for which the call does nothing and reports false. */
  lemma KeylessPictureIsNotReported(now: nat)
    ensures var pics: Pictures := map[1 := Row(7, None, None, None, None, false, false, false, None)];
            1 in pics && pics[1].user == 7 && GroupOf(pics, 7, 1) == {} && SetSurvivor(pics, 7, 1, now) == pics
  {
    var pics: Pictures := map[1 := Row(7, None, None, None, None, false, false, false, None)];
    SurvivorReportExact(pics, 7, 1, now);
  }

  /** Rejecting a picture leaves no live row in its group and exactly one manual row, the first in
      the survivor order; every other row of the group is a boomerang and no other row changes. */
  lemma RejectExact(pics: Pictures, user: int, id: Id, now: nat, key: string)
    requires id in pics && pics[id].user == user && Key(pics[id]) == Some(key)
    ensures var pics' := RejectGroup(pics, user, id, now);
      var group := Group(pics, user, key);
      && Group(pics', user, key) == group
      && LiveIn(pics', group) == {}
      && (exists rep :: IsBest(pics, group, rep) && WithReason(pics', group, Manual) == {rep}
            && WithReason(pics', group, Boomerang) == group - {rep})
      && pics'.Keys == pics.Keys
      && (forall i :: i in pics && i !in group ==> pics'[i] == pics[i])
  {
    var pics' := RejectGroup(pics, user, id, now);
    var group := Group(pics, user, key);
    assert GroupOf(pics, user, id) == group && id in group;
    assert forall i :: i in pics ==> Key(pics'[i]) == Key(pics[i]) && pics'[i].user == pics[i].user;
    assert Group(pics', user, key) == group;
    var rep := Best(pics, group);
    assert WithReason(pics', group, Manual) == {rep};
    assert WithReason(pics', group, Boomerang) == group - {rep};
  }

  /** After the batch restore no boomerang is left beside a live row, and doing it again changes
      nothing. */
  lemma LiveGroupsHaveNoBoomerang(pics: Pictures, user: int)
    requires Consistent(pics)
    ensures var pics' := DedupeBoomerangInLiveGroups(pics, user);
      && (forall i :: i in pics' && pics'[i].user == user && Has(pics'[i], Boomerang) ==> !LiveElsewhere(pics', i))
      && DedupeBoomerangInLiveGroups(pics', user) == pics'
  {}

  /** After a batch trash no content_dedupe row is left beside a manual one, and doing it again
      changes nothing. */
  lemma ManualGroupsHaveNoDedupe(pics: Pictures, user: int)
    ensures var pics' := BoomerangDedupeInManualGroups(pics, user);
      && (forall i :: i in pics' && pics'[i].user == user && Has(pics'[i], ContentDedupe) ==>
            !ManualElsewhere(pics', i))
      && BoomerangDedupeInManualGroups(pics', user) == pics'
  {}

  // -- The two candidate queries ----------------------------------------------

  function ReasonIs(row: Row, reason: Reason): Tri {
    SqlEq(row.reason, Some(reason))
  }

  /** `bool_or`: true if any value is, null when there is no non-null value. */
  predicate AnyIs(pics: Pictures, group: set<Id>, reason: Reason, value: Tri) {
    exists i :: i in group && i in pics && ReasonIs(pics[i], reason) == value
  }

  function BoolOr(pics: Pictures, group: set<Id>, reason: Reason): Tri {
    if AnyIs(pics, group, reason, True) then True
    else if AnyIs(pics, group, reason, False) then False
    else Null
  }

  /** `deleted_reason IN ('manual', 'boomerang')` folded with `bool_or`. */
  function Blocked(pics: Pictures, group: set<Id>): Tri {
    if AnyIs(pics, group, Manual, True) || AnyIs(pics, group, Boomerang, True) then True
    else if AnyIs(pics, group, Manual, False) then False
    else Null
  }

  /** `cnt > 1 OR has_dedupe OR (has_boomerang AND NOT has_manual)`. */
  function CandidateClause(pics: Pictures, group: set<Id>): Tri {
    Or(Or(Bool(|group| > 1), BoolOr(pics, group, ContentDedupe)),
       And(BoolOr(pics, group, Boomerang), Not(BoolOr(pics, group, Manual))))
  }

  /** `live > 1 OR (live = 0 AND dedupe > 0 AND NOT blocked) OR (live = 0 AND boomerang > 0 AND
      manual = 0)`. */
  function NeedsClause(pics: Pictures, group: set<Id>): Tri {
    var live := |LiveIn(pics, group)|;
    Or(Or(Bool(live > 1),
          And(And(Bool(live == 0), Bool(|WithReason(pics, group, ContentDedupe)| > 0)), Not(Blocked(pics, group)))),
       And(And(Bool(live == 0), Bool(|WithReason(pics, group, Boomerang)| > 0)),
           Bool(|WithReason(pics, group, Manual)| == 0)))
  }

  lemma ReasonCounts(pics: Pictures, group: set<Id>, reason: Reason)
    ensures |WithReason(pics, group, reason)| > 0 <==> AnyIs(pics, group, reason, True)
  {
    if AnyIs(pics, group, reason, True) {
      var i :| i in group && i in pics && ReasonIs(pics[i], reason) == True;
      assert i in WithReason(pics, group, reason);
    }
    if |WithReason(pics, group, reason)| > 0 {
      var i :| i in WithReason(pics, group, reason);
      assert ReasonIs(pics[i], reason) == True;
    }
  }

  /** No group that needs reconciling is missed by the per-user candidate query, for every table,
      NULL reasons included. */
  lemma NeedyGroupsAreCandidates(pics: Pictures, user: int, key: string)
    requires NeedsClause(pics, Group(pics, user, key)).True?
    ensures CandidateClause(pics, Group(pics, user, key)).True? && Group(pics, user, key) != {}
  {
    var group := Group(pics, user, key);
    ReasonCounts(pics, group, ContentDedupe);
    ReasonCounts(pics, group, Boomerang);
    ReasonCounts(pics, group, Manual);
    if |LiveIn(pics, group)| > 1 {
      SubsetSize(LiveIn(pics, group), group);
    } else if !BoolOr(pics, group, ContentDedupe).True? {
      var i :| i in group && i in pics && ReasonIs(pics[i], Boomerang) == True;
      assert ReasonIs(pics[i], Manual) == False;
    }
  }

  lemma OneRowIs(pics: Pictures, i: Id, reason: Reason)
    requires i in pics
    ensures BoolOr(pics, {i}, reason) == ReasonIs(pics[i], reason)
  {
    var is_ := ReasonIs(pics[i], reason);
    assert AnyIs(pics, {i}, reason, is_);
    forall value | value != is_ ensures !AnyIs(pics, {i}, reason, value) {}
  }

  /** The candidate query is documented never to return a lone live, manual or boomerang row. A group
      of one row is returned exactly when the row is content_dedupe or boomerang, so the document
      holds of every lone row but a boomerang. */
  lemma LoneGroupExact(pics: Pictures, user: int, key: string, i: Id)
    requires Group(pics, user, key) == {i}
    ensures i in pics
    ensures CandidateClause(pics, Group(pics, user, key)).True?
      <==> Has(pics[i], ContentDedupe) || Has(pics[i], Boomerang)
  {
    assert i in Group(pics, user, key);
    OneRowIs(pics, i, ContentDedupe);
    OneRowIs(pics, i, Boomerang);
    OneRowIs(pics, i, Manual);
  }

  /** A table with one boomerang row, which the query returns. */
  lemma LoneBoomerangIsReturned()
    ensures var row := Row(7, Some("h"), None, Some(3), Some(Boomerang), false, false, false, None);
            var pics: Pictures := map[1 := row];
            Consistent(pics) && Group(pics, 7, "h") == {1} && CandidateClause(pics, Group(pics, 7, "h")) == True
  {
    var pics: Pictures := map[1 := Row(7, Some("h"), None, Some(3), Some(Boomerang), false, false, false, None)];
    assert Group(pics, 7, "h") == {1};
    LoneGroupExact(pics, 7, "h", 1);
  }

  /** Right after a survivor choice or a rejection the group needs nothing more. */
  lemma SettledGroupsNeedNothing(pics: Pictures, user: int, id: Id, now: nat, key: string)
    requires id in pics && pics[id].user == user && Key(pics[id]) == Some(key)
    ensures !NeedsClause(SetSurvivor(pics, user, id, now), Group(pics, user, key)).True?
    ensures !NeedsClause(RejectGroup(pics, user, id, now), Group(pics, user, key)).True?
  {
    SurvivorExact(pics, user, id, now, key);
    RejectExact(pics, user, id, now, key);
    var pics', group := RejectGroup(pics, user, id, now), Group(pics, user, key);
    var rep :| IsBest(pics, group, rep) && WithReason(pics', group, Manual) == {rep}
            && WithReason(pics', group, Boomerang) == group - {rep};
    assert rep in WithReason(pics', group, Manual);
    assert ReasonIs(pics'[rep], Manual) == True;
  }
}
