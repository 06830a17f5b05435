/** Renaming a tag under the outgoing shares, whose live rows a unique index guards. */
module ShareRename {
  import opened Wrappers
  import opened Tags
  import opened TagRename
  import Text

  type ShareId = nat

  /** `live` is any status but revoked and tombstoned. */
  datatype Share = Share(owner: int, path: TagPath, username: string, instance_: string, live: bool)

  type Shares = map<ShareId, Share>

  /** Two rows the unique index keeps apart. */
  predicate Twins(a: Share, b: Share) {
    a.live && b.live && a.owner == b.owner && a.path == b.path && a.username == b.username && a.instance_ == b.instance_
  }

  ghost predicate NoTwins(rows: Shares) {
    forall i, j :: i in rows && j in rows && i != j ==> !Twins(rows[i], rows[j])
  }

  /** What the table promises: valid paths, and the unique index. */
  ghost predicate ValidShares(rows: Shares) {
    (forall i :: i in rows ==> IsValid(rows[i].path)) && NoTwins(rows)
  }

  // -- What a rename means ----------------------------------------------------

  /** Every path of the owner, renamed or not. */
  function MovedShare(s: Share, owner: int, old_: TagPath, new_: TagPath): Share {
    if s.owner == owner then s.(path := Renamed(s.path, old_, new_)) else s
  }

  function Moved(rows: Shares, owner: int, old_: TagPath, new_: TagPath): Shares {
    map i | i in rows :: MovedShare(rows[i], owner, old_, new_)
  }

  /** The rows a rename touches. */
  function Hit(rows: Shares, owner: int, old_: TagPath, new_: TagPath): set<ShareId> {
    set i | i in rows && rows[i].owner == owner && RenameUnder(rows[i].path, old_, new_).Some?
  }

  /** Neither name is the other or one of its ancestors. */
  predicate Unrelated(old_: TagPath, new_: TagPath) {
    !IsAncestorOrSelf(old_, new_) && !IsAncestorOf(new_, old_)
  }

  /** A live share under the old name whose renamed path a live share of its recipient already has. */
  predicate Taken(rows: Shares, owner: int, old_: TagPath, new_: TagPath) {
    exists i, j :: i in rows && j in rows && rows[i].owner == owner
      && RenameUnder(rows[i].path, old_, new_).Some? && Twins(MovedShare(rows[i], owner, old_, new_), rows[j])
  }

  lemma PrefixesOfOne<T>(a: seq<T>, b: seq<T>, p: seq<T>)
    requires a <= p && b <= p
    ensures a <= b || b <= a
  {
    if |a| <= |b| {
      assert a == b[..|a|];
    } else {
      assert b == a[..|b|];
    }
  }

  /** No path lies under both of two unrelated names. */
  lemma NotUnderBoth(p: TagPath, old_: TagPath, new_: TagPath)
    requires Unrelated(old_, new_)
    ensures !(IsAncestorOrSelf(old_, p) && IsAncestorOrSelf(new_, p))
  {
    AncestorIsProperPrefix(old_, p);
    AncestorIsProperPrefix(new_, p);
    AncestorIsProperPrefix(old_, new_);
    AncestorIsProperPrefix(new_, old_);
    if IsAncestorOrSelf(old_, p) && IsAncestorOrSelf(new_, p) { PrefixesOfOne(Labels(old_), Labels(new_), Labels(p)); }
  }

  /** A renamed path is valid, lies under the new name, and so is not under the old one. */
  lemma TargetIsNew(p: TagPath, old_: TagPath, new_: TagPath)
    requires IsValid(p) && IsValid(new_) && Unrelated(old_, new_) && RenameUnder(p, old_, new_).Some?
    ensures var q := RenameUnder(p, old_, new_).value; IsValid(q) && RenameUnder(q, old_, new_).None?
  {
    var q := RenameUnder(p, old_, new_).value;
    RenameReplacesThePrefix(p, old_, new_);
    RenameReplacesThePrefix(q, old_, new_);
    AncestorIsProperPrefix(new_, q);
    AncestorIsProperPrefix(old_, q);
    assert Labels(q)[..|Labels(new_)|] == Labels(new_);
    NotUnderBoth(q, old_, new_);
  }

  /** Under unrelated names the index holds after a rename exactly when no target was taken before. */
  lemma MovedKeepsIndexExactly(rows: Shares, owner: int, old_: TagPath, new_: TagPath)
    requires ValidShares(rows) && IsValid(new_) && Unrelated(old_, new_)
    ensures NoTwins(Moved(rows, owner, old_, new_)) <==> !Taken(rows, owner, old_, new_)
  {
    var after := Moved(rows, owner, old_, new_);
    if Taken(rows, owner, old_, new_) {
      var i, j :| i in rows && j in rows && rows[i].owner == owner
        && RenameUnder(rows[i].path, old_, new_).Some? && Twins(MovedShare(rows[i], owner, old_, new_), rows[j]);
      TargetIsNew(rows[i].path, old_, new_);
      assert i != j && after[j] == rows[j] && Twins(after[i], after[j]);
    }
    if !NoTwins(after) {
      var i, j :| i in after && j in after && i != j && Twins(after[i], after[j]);
      TwinsMeanTaken(rows, owner, old_, new_, i, j);
    }
  }

  lemma TwinsMeanTaken(rows: Shares, owner: int, old_: TagPath, new_: TagPath, i: ShareId, j: ShareId)
    requires ValidShares(rows) && i in rows && j in rows && i != j
    requires Twins(MovedShare(rows[i], owner, old_, new_), MovedShare(rows[j], owner, old_, new_))
    ensures Taken(rows, owner, old_, new_)
  {
    assert !Twins(rows[i], rows[j]);
    assert rows[i].owner == rows[j].owner == owner && rows[i].path != rows[j].path;
    CascadeCollisionExact(rows[i].path, rows[j].path, old_, new_);
    if RenameUnder(rows[i].path, old_, new_) == Some(rows[j].path) {
      assert Twins(MovedShare(rows[i], owner, old_, new_), rows[j]);
    } else {
      assert Twins(MovedShare(rows[j], owner, old_, new_), rows[i]);
    }
  }

  lemma MovedPathsAreValid(rows: Shares, owner: int, old_: TagPath, new_: TagPath)
    requires ValidShares(rows) && IsValid(new_) && Unrelated(old_, new_)
    ensures forall i :: i in rows ==> IsValid(Moved(rows, owner, old_, new_)[i].path)
  {
    forall i | i in rows && RenameUnder(rows[i].path, old_, new_).Some?
      ensures IsValid(RenameUnder(rows[i].path, old_, new_).value)
    {
      TargetIsNew(rows[i].path, old_, new_);
    }
  }

  // -- The statement ----------------------------------------------------------

  datatype RenameError = BadRequest | UniqueViolation

  /** No other row is in the way of `row` under `i`. */
  ghost predicate Fits(rows: Shares, i: ShareId, row: Share) {
    forall j :: j in rows && j != i ==> !Twins(row, rows[j])
  }

  /** Some rows of `before` renamed, those still to do as they were, and the index intact. */
  ghost predicate Progress(
      before: Shares, rows: Shares, todo: set<ShareId>, owner: int, old_: TagPath, new_: TagPath)
  {
    && todo <= Hit(before, owner, old_, new_)
    && rows.Keys == before.Keys
    && (forall i :: i in rows ==>
          rows[i] == if i in todo then before[i] else MovedShare(before[i], owner, old_, new_))
    && NoTwins(rows)
  }

  lemma NothingWritten(rows: Shares, owner: int, old_: TagPath, new_: TagPath)
    requires NoTwins(rows)
    ensures Progress(rows, rows, Hit(rows, owner, old_, new_), owner, old_, new_)
  {
    forall i | i in rows && i !in Hit(rows, owner, old_, new_)
      ensures MovedShare(rows[i], owner, old_, new_) == rows[i]
    {
      assert rows[i].owner == owner ==> RenameUnder(rows[i].path, old_, new_).None?;
    }
  }

  lemma RowIsWritten(
      before: Shares, rows: Shares, todo: set<ShareId>, owner: int, old_: TagPath, new_: TagPath, i: ShareId)
    requires Progress(before, rows, todo, owner, old_, new_) && i in todo
    requires Fits(rows, i, MovedShare(before[i], owner, old_, new_))
    ensures Progress(before, rows[i := MovedShare(before[i], owner, old_, new_)], todo - {i}, owner, old_, new_)
  {}

  /** A row in the way of a renamed one was there, as it is, before the rename. */
  lemma ConflictMeansTaken(
      before: Shares, rows: Shares, todo: set<ShareId>, owner: int, old_: TagPath, new_: TagPath, i: ShareId)
    requires ValidShares(before) && IsValid(new_) && Unrelated(old_, new_)
    requires Progress(before, rows, todo, owner, old_, new_) && i in todo
    requires !Fits(rows, i, MovedShare(before[i], owner, old_, new_))
    ensures Taken(before, owner, old_, new_)
  {
    var j :| j in rows && j != i && Twins(MovedShare(before[i], owner, old_, new_), rows[j]);
    if j in todo {
      TargetIsNew(before[i].path, old_, new_);
    } else {
      TwinsMeanTaken(before, owner, old_, new_, i, j);
    }
  }

  lemma AllWritten(before: Shares, rows: Shares, owner: int, old_: TagPath, new_: TagPath)
    requires ValidShares(before) && IsValid(new_) && Unrelated(old_, new_)
    requires Progress(before, rows, {}, owner, old_, new_)
    ensures rows == Moved(before, owner, old_, new_) && ValidShares(rows) && !Taken(before, owner, old_, new_)
  {
    assert rows == Moved(before, owner, old_, new_);
    MovedKeepsIndexExactly(before, owner, old_, new_);
    MovedPathsAreValid(before, owner, old_, new_);
  }

  lemma SqlAgrees(p: TagPath, old_: TagPath, new_: TagPath)
    requires IsValid(p) && IsValid(old_) && IsValid(new_)
    ensures SqlRename(p, old_, new_) == RenameUnder(p, old_, new_)
  {
    ValidHasLabelChars(old_);
    ValidHasLabelChars(new_);
    SqlRenameExact(p, old_, new_);
  }

  /** The rows the statement selects are those the code's rename applies to. */
  lemma SqlHits(rows: Shares, owner: int, old_: TagPath, new_: TagPath, selected: set<ShareId>)
    requires ValidShares(rows) && IsValid(old_) && IsValid(new_)
    requires forall i :: i in selected <==>
      i in rows && rows[i].owner == owner && SqlRename(rows[i].path, old_, new_).Some?
    ensures selected == Hit(rows, owner, old_, new_)
  {
    forall i | i in rows ensures SqlRename(rows[i].path, old_, new_) == RenameUnder(rows[i].path, old_, new_) {
      SqlAgrees(rows[i].path, old_, new_);
    }
  }

  /** What the statement writes into a row is what the code's rename makes of it. */
  lemma SqlRow(rows: Shares, owner: int, old_: TagPath, new_: TagPath, i: ShareId)
    requires ValidShares(rows) && IsValid(old_) && IsValid(new_) && i in Hit(rows, owner, old_, new_)
    ensures SqlRename(rows[i].path, old_, new_).Some?
    ensures rows[i].(path := SqlRename(rows[i].path, old_, new_).value) == MovedShare(rows[i], owner, old_, new_)
  {
    SqlAgrees(rows[i].path, old_, new_);
  }

  class ShareTable {
    var rows: Shares

    ghost predicate Valid()
      reads this
    {
      ValidShares(rows)
    }

    /** Write one row unless the index forbids it. */
    method WriteRow(i: ShareId, row: Share) returns (ok: bool)
      requires i in rows
      modifies this
      ensures ok <==> Fits(old(rows), i, row)
      ensures rows == if ok then old(rows)[i := row] else old(rows)
    {
      ok := forall j :: j in rows && j != i ==> !Twins(row, rows[j]);
      if ok { rows := rows[i := row]; }
    }

    /** One UPDATE: row by row, in any order, each new row checked against the index as the table
        stands; a violation rolls every row back. */
    method RenameTagSubtree(owner: int, old_: TagPath, new_: TagPath) returns (r: Result<nat, RenameError>)
      requires Valid() && IsValid(old_) && IsValid(new_) && Unrelated(old_, new_)
      modifies this
      ensures Valid()
      ensures r == if Taken(old(rows), owner, old_, new_) then Err(UniqueViolation)
                   else Ok(|Hit(old(rows), owner, old_, new_)|)
      ensures rows == if r.Ok? then Moved(old(rows), owner, old_, new_) else old(rows)
    {
      var before := rows;
      var todo := set i | i in rows && rows[i].owner == owner && SqlRename(rows[i].path, old_, new_).Some?;
      var affected := |todo|;
      SqlHits(before, owner, old_, new_, todo);
      NothingWritten(before, owner, old_, new_);
      while todo != {}
        invariant Progress(before, rows, todo, owner, old_, new_)
        decreases |todo|
      {
        var i :| i in todo;
        SqlRow(before, owner, old_, new_, i);
        ghost var current := rows;
        var ok := WriteRow(i, rows[i].(path := SqlRename(rows[i].path, old_, new_).value));
        if !ok {
          ConflictMeansTaken(before, current, todo, owner, old_, new_, i);
          rows := before;
          return Err(UniqueViolation);
        }
        RowIsWritten(before, current, todo, owner, old_, new_, i);
        todo := todo - {i};
      }
      AllWritten(before, rows, owner, old_, new_);
      r := Ok(affected);
    }

    /** The part of a rename cascade that concerns shares: nothing to do for one and the same name,
        and related names are refused before the statement is sent. */
    method CascadeRename(owner: int, old_: TagPath, new_: TagPath) returns (r: Result<nat, RenameError>)
      requires Valid() && IsValid(old_) && IsValid(new_)
      modifies this
      ensures Valid()
      ensures r.Err? ==> rows == old(rows)
      ensures r == Err(BadRequest) <==> IsAncestorOf(old_, new_) || IsAncestorOf(new_, old_)
      ensures r == Err(UniqueViolation) <==> Unrelated(old_, new_) && Taken(old(rows), owner, old_, new_)
      ensures r.Ok? ==> rows == Moved(old(rows), owner, old_, new_)
    {
      if old_ == new_ {
        NoAncestorOfItself(old_);
        SameNameMovesNothing(rows, owner, old_);
        return Ok(0);
      }
      if IsAncestorOf(old_, new_) || IsAncestorOf(new_, old_) { return Err(BadRequest); }
      r := RenameTagSubtree(owner, old_, new_);
    }
  }

  lemma NoAncestorOfItself(p: TagPath)
    ensures !IsAncestorOf(p, p)
  {}

  lemma SameNameMovesNothing(rows: Shares, owner: int, name: TagPath)
    ensures Moved(rows, owner, name, name) == rows
  {
    forall i | i in rows ensures Renamed(rows[i].path, name, name) == rows[i].path {
      var p := rows[i].path;
      RenameReplacesThePrefix(p, name, name);
      if RenameUnder(p, name, name).Some? {
        assert Labels(p) == Labels(name) + Labels(p)[|Labels(name)|..];
        LabelsInjective(RenameUnder(p, name, name).value, p);
      }
    }
  }

  /** A rename that the ancestry check lets through and the index refuses: the owner shares A and B
      with one recipient and renames A to B. */
  lemma TwoSharesBlockARename(owner: int, username: string, instance_: string)
    ensures var a, b := TagPath("A"), TagPath("B");
            var rows := map[0 := Share(owner, a, username, instance_, true),
                            1 := Share(owner, b, username, instance_, true)];
            ValidShares(rows) && IsValid(a) && IsValid(b) && Unrelated(a, b) && Taken(rows, owner, a, b)
  {
    var a, b := TagPath("A"), TagPath("B");
    var rows := map[0 := Share(owner, a, username, instance_, true),
                    1 := Share(owner, b, username, instance_, true)];
    Text.SplitWhole("A", '.');
    Text.SplitWhole("B", '.');
    assert a != b && !IsAncestorOf(a, b) && !IsAncestorOf(b, a);
    assert Twins(MovedShare(rows[0], owner, a, b), rows[1]);
  }
}
