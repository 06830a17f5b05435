/** Which rows the statements of the dedup repository change, group by group, and what a changed row keeps. */
module DedupChanges {
  import opened Dedup
  import MapSum
  import opened Wrappers

  /** The same picture with the same content. */
  predicate SamePicture(was: Row, row: Row) {
    && row.user == was.user && row.contentHash == was.contentHash && row.fileHash == was.fileHash
    && row.remote == was.remote && row.copy == was.copy && row.ownerDeleted == was.ownerDeleted
  }

  /** The reason was replaced and the row marked for the pipeline; its time of deletion stays. */
  predicate Relabelled(was: Row, row: Row, reason: Reason) {
    SamePicture(was, row) && row.reason == Some(reason) && row.pipelineRun.None? && row.deletedAt == was.deletedAt
  }

  /** Hidden since its first deletion, which is now for a row that was live. */
  predicate Hidden(was: Row, row: Row, reason: Reason, now: nat) {
    && SamePicture(was, row) && row.reason == Some(reason) && row.pipelineRun.None?
    && row.deletedAt.Some? && row.deletedAt.value == (if was.deletedAt.Some? then was.deletedAt.value else now)
  }

  predicate Shown(was: Row, row: Row) {
    SamePicture(was, row) && row.reason.None? && row.pipelineRun.None? && row.deletedAt.None?
  }

  // -- One row ----------------------------------------------------------------

  /** Hiding or promoting touches the named row only: it is hidden in any case, and shown exactly when it
      was hidden as content_dedupe. */
  lemma OneRowChanges(pics: Pictures, id: Id, reason: Reason, now: nat)
    ensures var hidden := HideOne(pics, id, reason, now);
      && hidden.Keys == pics.Keys && (id in pics ==> Hidden(pics[id], hidden[id], reason, now))
      && forall i :: i in pics && i != id ==> hidden[i] == pics[i]
    ensures var shown := PromoteToLive(pics, id);
      && shown.Keys == pics.Keys
      && (id in pics && pics[id].reason == Some(ContentDedupe) ==> Shown(pics[id], shown[id]))
      && (id in pics && pics[id].reason != Some(ContentDedupe) ==> shown[id] == pics[id])
      && forall i :: i in pics && i != id ==> shown[i] == pics[i]
  {}

  /** The rows of the group of a survivor or of a rejection keep their content and, hidden, the time of
      their first deletion. */
  lemma GroupRowsKeep(pics: Pictures, user: int, id: Id, now: nat, key: string, i: Id)
    requires id in pics && pics[id].user == user && Key(pics[id]) == Some(key) && i in Group(pics, user, key)
    ensures var survived := SetSurvivor(pics, user, id, now);
      if i == id then Shown(pics[i], survived[i]) else Hidden(pics[i], survived[i], ContentDedupe, now)
    ensures var rejected := RejectGroup(pics, user, id, now);
      if IsBest(pics, Group(pics, user, key), i) then Hidden(pics[i], rejected[i], Manual, now)
      else Hidden(pics[i], rejected[i], Boomerang, now)
  {
    var group := Group(pics, user, key);
    assert GroupOf(pics, user, id) == group;
    if IsBest(pics, group, i) { BestIsUnique(pics, group, i, Best(pics, group)); }
  }

  /** The representative: rows the owner still has come first, then owned ones, then originals, and of
      rows alike in all three the lowest id. */
  lemma BestExact(pics: Pictures, group: set<Id>, rep: Id)
    requires group <= pics.Keys && rep in group
    ensures IsBest(pics, group, rep) <==>
      var r := pics[rep];
      && (forall i :: i in group && r.ownerDeleted ==> pics[i].ownerDeleted)
      && (forall i :: i in group && pics[i].ownerDeleted == r.ownerDeleted && r.remote ==> pics[i].remote)
      && (forall i :: (i in group && pics[i].ownerDeleted == r.ownerDeleted && pics[i].remote == r.remote && r.copy)
                      ==> pics[i].copy)
      && (forall i :: (i in group && pics[i].ownerDeleted == r.ownerDeleted && pics[i].remote == r.remote
                       && pics[i].copy == r.copy) ==> rep <= i)
  {}

  // -- Relabelled siblings ----------------------------------------------------

  predicate Unchanged(pics: Pictures, pics': Pictures, changed: set<Id>) {
    pics'.Keys == pics.Keys && forall i :: i in pics && i !in changed ==> pics'[i] == pics[i]
  }

  predicate AllRelabelled(pics: Pictures, pics': Pictures, changed: set<Id>, reason: Reason)
    requires changed <= pics.Keys && pics'.Keys == pics.Keys
  {
    forall i :: i in changed ==> Relabelled(pics[i], pics'[i], reason)
  }

  /** The boomerangs that share the content key of a picture, but not the picture itself, become
      content_dedupe; no other row changes, and none at all for a picture without a key. */
  lemma SiblingsExact(pics: Pictures, user: int, id: Id)
    ensures var pics' := DedupeBoomerangSiblings(pics, user, id);
      var changed := if id in pics && Key(pics[id]).Some?
                     then WithReason(pics, Group(pics, user, Key(pics[id]).value), Boomerang) - {id} else {};
      Unchanged(pics, pics', changed) && AllRelabelled(pics, pics', changed, ContentDedupe)
  {}

  ghost predicate InLiveGroup(pics: Pictures, user: int, i: Id)
    requires i in pics
  {
    Key(pics[i]).Some? && pics[i].user == user && LiveIn(pics, Group(pics, user, Key(pics[i]).value)) != {}
  }

  ghost predicate InManualGroup(pics: Pictures, user: int, i: Id)
    requires i in pics
  {
    && Key(pics[i]).Some? && pics[i].user == user
    && WithReason(pics, Group(pics, user, Key(pics[i]).value), Manual) != {}
  }

  lemma LiveElsewhereInGroup(pics: Pictures, i: Id)
    requires Consistent(pics) && i in pics && Has(pics[i], Boomerang)
    ensures LiveElsewhere(pics, i) <==> InLiveGroup(pics, pics[i].user, i)
  {
    if LiveElsewhere(pics, i) {
      var m :| m in pics && m != i && SameGroup(pics[m], pics[i]) && IsLive(pics[m]);
      assert m in LiveIn(pics, Group(pics, pics[i].user, Key(pics[i]).value));
    }
    if InLiveGroup(pics, pics[i].user, i) {
      var m :| m in LiveIn(pics, Group(pics, pics[i].user, Key(pics[i]).value));
      assert m != i && SameGroup(pics[m], pics[i]);
    }
  }

  lemma ManualElsewhereInGroup(pics: Pictures, i: Id)
    requires i in pics && Has(pics[i], ContentDedupe)
    ensures ManualElsewhere(pics, i) <==> InManualGroup(pics, pics[i].user, i)
  {
    if ManualElsewhere(pics, i) {
      var m :| m in pics && m != i && SameGroup(pics[m], pics[i]) && Has(pics[m], Manual);
      assert m in WithReason(pics, Group(pics, pics[i].user, Key(pics[i]).value), Manual);
    }
    if InManualGroup(pics, pics[i].user, i) {
      var m :| m in WithReason(pics, Group(pics, pics[i].user, Key(pics[i]).value), Manual);
      assert m != i && SameGroup(pics[m], pics[i]);
    }
  }

  /** The batch restore relabels exactly the boomerangs of the user's groups that hold a live row. */
  lemma LiveGroupsExact(pics: Pictures, user: int)
    requires Consistent(pics)
    ensures var pics' := DedupeBoomerangInLiveGroups(pics, user);
      && pics'.Keys == pics.Keys
      && forall i :: i in pics ==>
           if Has(pics[i], Boomerang) && InLiveGroup(pics, user, i)
           then Relabelled(pics[i], pics'[i], ContentDedupe) else pics'[i] == pics[i]
  {
    forall i | i in pics && Has(pics[i], Boomerang) { LiveElsewhereInGroup(pics, i); }
  }

  /** The batch trash relabels exactly the content_dedupe rows of the user's groups that hold a manual
      rejection. */
  lemma ManualGroupsExact(pics: Pictures, user: int)
    ensures var pics' := BoomerangDedupeInManualGroups(pics, user);
      && pics'.Keys == pics.Keys
      && forall i :: i in pics ==>
           if Has(pics[i], ContentDedupe) && InManualGroup(pics, user, i)
           then Relabelled(pics[i], pics'[i], Boomerang) else pics'[i] == pics[i]
  {
    forall i | i in pics && Has(pics[i], ContentDedupe) { ManualElsewhereInGroup(pics, i); }
  }

  // -- Groups and the two candidate queries -----------------------------------

  /** Two rows are in one group exactly when they belong to one user and have the same content hash, or
      both have none and the same file hash, or the content hash of one is the prefixed file hash of the
      other. */
  lemma SameGroupExactly(a: Row, b: Row)
    ensures SameGroup(a, b) <==>
      a.user == b.user
      && (|| (a.contentHash.Some? && a.contentHash == b.contentHash)
          || (a.contentHash.None? && b.contentHash.None? && a.fileHash.Some? && a.fileHash == b.fileHash)
          || (a.contentHash.Some? && b.contentHash.None? && b.fileHash.Some?
              && a.contentHash.value == "fh:" + b.fileHash.value)
          || (b.contentHash.Some? && a.contentHash.None? && a.fileHash.Some?
              && b.contentHash.value == "fh:" + a.fileHash.value))
  {
    if a.contentHash.None? && b.contentHash.None? && a.fileHash.Some? && b.fileHash.Some? {
      assert ("fh:" + a.fileHash.value)[3..] == a.fileHash.value;
      assert ("fh:" + b.fileHash.value)[3..] == b.fileHash.value;
    }
  }

  ghost predicate HasRow(pics: Pictures, group: set<Id>, reason: Reason) {
    exists i :: i in group && i in pics && pics[i].reason == Some(reason)
  }

  ghost predicate HasLive(pics: Pictures, group: set<Id>) {
    exists i :: i in group && i in pics && pics[i].deletedAt.None?
  }

  ghost predicate HasTwoLive(pics: Pictures, group: set<Id>) {
    exists i, j :: i in group && j in group && i in pics && j in pics && i != j
      && pics[i].deletedAt.None? && pics[j].deletedAt.None?
  }

  lemma LiveCounts(pics: Pictures, group: set<Id>)
    ensures |LiveIn(pics, group)| > 1 <==> HasTwoLive(pics, group)
    ensures |LiveIn(pics, group)| == 0 <==> !HasLive(pics, group)
  {
    var live := LiveIn(pics, group);
    if HasTwoLive(pics, group) {
      var i, j :| i in group && j in group && i in pics && j in pics && i != j
        && pics[i].deletedAt.None? && pics[j].deletedAt.None?;
      MapSum.SubsetSize({i, j}, live);
    }
    if |live| > 1 {
      var i :| i in live;
      var rest := live - {i};
      assert |rest| > 0;
      var j :| j in rest;
      assert IsLive(pics[i]) && IsLive(pics[j]);
    }
    if HasLive(pics, group) {
      var i :| i in group && i in pics && pics[i].deletedAt.None?;
      assert i in live;
    }
  }

  lemma ReasonsFound(pics: Pictures, group: set<Id>, reason: Reason)
    ensures |WithReason(pics, group, reason)| > 0 <==> HasRow(pics, group, reason)
    ensures BoolOr(pics, group, reason).True? <==> HasRow(pics, group, reason)
    ensures AnyIs(pics, group, reason, True) <==> HasRow(pics, group, reason)
    ensures forall other :: other != reason && HasRow(pics, group, other) ==> AnyIs(pics, group, reason, False)
  {
    ReasonCounts(pics, group, reason);
    if HasRow(pics, group, reason) {
      var i :| i in group && i in pics && pics[i].reason == Some(reason);
      assert ReasonIs(pics[i], reason) == True;
    }
    forall other | other != reason && HasRow(pics, group, other) ensures AnyIs(pics, group, reason, False) {
      var i :| i in group && i in pics && pics[i].reason == Some(other);
      assert ReasonIs(pics[i], reason) == False;
    }
  }

  /** A group needs reconciling exactly when two rows are live, or none is and it holds content_dedupe rows
      but no rejection, or boomerangs but no manual one. */
  lemma NeedyExactly(pics: Pictures, group: set<Id>)
    ensures NeedsClause(pics, group).True? <==>
      || HasTwoLive(pics, group)
      || (!HasLive(pics, group) && HasRow(pics, group, ContentDedupe)
          && !HasRow(pics, group, Manual) && !HasRow(pics, group, Boomerang))
      || (!HasLive(pics, group) && HasRow(pics, group, Boomerang) && !HasRow(pics, group, Manual))
  {
    LiveCounts(pics, group);
    ReasonsFound(pics, group, ContentDedupe);
    ReasonsFound(pics, group, Boomerang);
    ReasonsFound(pics, group, Manual);
  }

  /** A group is a candidate exactly when it has two rows or a content_dedupe row, or a boomerang without a
      manual row. */
  lemma CandidateExactly(pics: Pictures, group: set<Id>)
    ensures CandidateClause(pics, group).True? <==>
      || |group| >= 2
      || HasRow(pics, group, ContentDedupe)
      || (HasRow(pics, group, Boomerang) && !HasRow(pics, group, Manual))
  {
    ReasonsFound(pics, group, ContentDedupe);
    ReasonsFound(pics, group, Boomerang);
    ReasonsFound(pics, group, Manual);
  }
}
