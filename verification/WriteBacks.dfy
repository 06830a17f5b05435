/** What the write-back operations of a query directory do to the tags of a picture, and when they do
    what the compliance rule of the node validation is meant to ensure. */
module WriteBacks {
  import opened HierarchyNodes
  import opened Tags

  // -- Applying operations ----------------------------------------------------

  function Assigned(ops: seq<TagOp>): set<TagPath> {
    set o | o in ops && o.Assign? :: TagPath(o.path)
  }

  function Removed(ops: seq<TagOp>): set<TagPath> {
    set o | o in ops && o.Remove? :: TagPath(o.path)
  }

  predicate AtOrUnder(t: TagPath, paths: set<TagPath>) {
    exists p :: p in paths && IsAncestorOrSelf(p, t)
  }

  predicate StrictlyAbove(t: TagPath, paths: set<TagPath>) {
    exists p :: p in paths && IsAncestorOf(t, p)
  }

  /** The manual tags of a picture after an operation list: the removed subtrees go first; of the
      assigned tags the deepest are stored, and stored ancestors of assigned tags are dropped. */
  function Applied(tags: set<TagPath>, ops: seq<TagOp>): set<TagPath> {
    var added := Assigned(ops);
    (set t | t in tags && !AtOrUnder(t, Removed(ops)) && (t in added || !StrictlyAbove(t, added)))
    + (set a | a in added && !StrictlyAbove(a, added))
  }

  /** Some tag lies at or under the path. */
  predicate Carries(tags: set<TagPath>, p: string) {
    exists t :: t in tags && IsAncestorOrSelf(TagPath(p), t)
  }

  /** The read predicate of a query directory. */
  predicate Shows(tags: set<TagPath>, include_: seq<string>, exclude: seq<string>, matchAll: bool) {
    && (if matchAll then forall p :: p in include_ ==> Carries(tags, p)
        else include_ == [] || exists p :: p in include_ && Carries(tags, p))
    && forall p :: p in exclude ==> !Carries(tags, p)
  }

  // -- What is carried afterwards ---------------------------------------------

  lemma AboveIsShorter(p: TagPath, q: TagPath)
    requires IsAncestorOf(p, q)
    ensures |p.ltree| < |q.ltree|
  {}

  /** Below every assigned tag there is a deepest one. */
  lemma {:induction false} DeepestBelow(a: TagPath, added: set<TagPath>) returns (b: TagPath)
    requires a in added
    ensures b in added && IsAncestorOrSelf(a, b) && !StrictlyAbove(b, added)
    decreases set q | q in added && IsAncestorOf(a, q)
  {
    if !StrictlyAbove(a, added) { return a; }
    var q :| q in added && IsAncestorOf(a, q);
    var below, belowQ := set r | r in added && IsAncestorOf(a, r), set r | r in added && IsAncestorOf(q, r);
    forall r | r in belowQ ensures r in below { AncestryIsTransitive(a, q, r); }
    AboveIsShorter(a, q);
    assert q in below && q !in belowQ;
    b := DeepestBelow(q, added);
    AncestryIsTransitive(a, q, b);
  }

  /** A path is carried afterwards exactly when something at or under it is assigned, or was there and
      is not removed. */
  lemma CarriedAfter(tags: set<TagPath>, ops: seq<TagOp>, p: string)
    ensures Carries(Applied(tags, ops), p) <==>
      || Carries(Assigned(ops), p)
      || exists t :: t in tags && IsAncestorOrSelf(TagPath(p), t) && !AtOrUnder(t, Removed(ops))
  {
    var added, after := Assigned(ops), Applied(tags, ops);
    if Carries(added, p) {
      var a :| a in added && IsAncestorOrSelf(TagPath(p), a);
      AssignedIsCarried(tags, ops, p, a);
    } else if exists t :: t in tags && IsAncestorOrSelf(TagPath(p), t) && !AtOrUnder(t, Removed(ops)) {
      var t :| t in tags && IsAncestorOrSelf(TagPath(p), t) && !AtOrUnder(t, Removed(ops));
      if StrictlyAbove(t, added) {
        var a :| a in added && IsAncestorOf(t, a);
        AncestryIsTransitive(TagPath(p), t, a);
      }
      assert t in after;
    }
  }

  lemma AssignedIsCarried(tags: set<TagPath>, ops: seq<TagOp>, p: string, a: TagPath)
    requires a in Assigned(ops) && IsAncestorOrSelf(TagPath(p), a)
    ensures Carries(Applied(tags, ops), p)
  {
    var b := DeepestBelow(a, Assigned(ops));
    AncestryIsTransitive(TagPath(p), a, b);
    assert b in Applied(tags, ops);
  }

  // -- Entering a directory ---------------------------------------------------

  /** An accepted operation list for entering makes every picture show up, whatever its tags were,
      exactly when it assigns nothing at or under an excluded path. */
  lemma EnteringShowsExactly(wb: WriteBack, include_: seq<string>, exclude: seq<string>, matchAll: bool)
    requires Complies(wb, include_, exclude, matchAll)
    ensures (forall tags :: Shows(Applied(tags, wb.onAdd), include_, exclude, matchAll))
      <==> forall e :: e in exclude ==> !Carries(Assigned(wb.onAdd), e)
  {
    if forall e :: e in exclude ==> !Carries(Assigned(wb.onAdd), e) {
      forall tags ensures Shows(Applied(tags, wb.onAdd), include_, exclude, matchAll) {
        EnteringShows(tags, wb, include_, exclude, matchAll);
      }
    } else {
      var e :| e in exclude && Carries(Assigned(wb.onAdd), e);
      CarriedAfter({}, wb.onAdd, e);
      assert !Shows(Applied({}, wb.onAdd), include_, exclude, matchAll);
    }
  }

  lemma EnteringShows(
      tags: set<TagPath>, wb: WriteBack, include_: seq<string>, exclude: seq<string>, matchAll: bool)
    requires Complies(wb, include_, exclude, matchAll)
    requires forall e :: e in exclude ==> !Carries(Assigned(wb.onAdd), e)
    ensures Shows(Applied(tags, wb.onAdd), include_, exclude, matchAll)
  {
    forall p | p in include_ && TagOp.Assign(p) in wb.onAdd ensures Carries(Applied(tags, wb.onAdd), p) {
      assert TagPath(p) in Assigned(wb.onAdd);
      AssignedIsCarried(tags, wb.onAdd, p, TagPath(p));
    }
    forall e | e in exclude ensures !Carries(Applied(tags, wb.onAdd), e) {
      assert TagOp.Remove(e) in wb.onAdd;
      assert TagPath(e) in Removed(wb.onAdd);
      CarriedAfter(tags, wb.onAdd, e);
    }
  }

  // -- Leaving a directory ----------------------------------------------------

  /** No picture can carry the path after leaving and still be shown: it is removed, or itself excluded,
      and not assigned back. */
  predicate IsBlocked(ops: seq<TagOp>, exclude: seq<string>, p: string) {
    !Carries(Assigned(ops), p)
    && (AtOrUnder(TagPath(p), Removed(ops)) || exists e :: e in exclude && IsAncestorOrSelf(TagPath(e), TagPath(p)))
  }

  /** Leaving hides every picture, whatever its tags were, exactly when something at or under an
      excluded path is assigned, or an included path that the inclusion needs is blocked: some of them
      where all are needed, each of them where any is enough. */
  lemma LeavingHidesExactly(ops: seq<TagOp>, include_: seq<string>, exclude: seq<string>, matchAll: bool)
    ensures (forall tags :: !Shows(Applied(tags, ops), include_, exclude, matchAll))
      <==> || (exists e :: e in exclude && Carries(Assigned(ops), e))
           || (if matchAll then exists p :: p in include_ && IsBlocked(ops, exclude, p)
               else include_ != [] && forall p :: p in include_ ==> IsBlocked(ops, exclude, p))
  {
    if exists e :: e in exclude && Carries(Assigned(ops), e) {
      var e :| e in exclude && Carries(Assigned(ops), e);
      forall tags ensures !Shows(Applied(tags, ops), include_, exclude, matchAll) { CarriedAfter(tags, ops, e); }
    } else {
      forall tags, p | p in include_ && IsBlocked(ops, exclude, p)
        ensures Carries(Applied(tags, ops), p) ==> exists e :: e in exclude && Carries(Applied(tags, ops), e)
      {
        if Carries(Applied(tags, ops), p) { BlockedIsHidden(tags, ops, exclude, p); }
      }
      var free := set p | p in include_ && !IsBlocked(ops, exclude, p) :: TagPath(p);
      FreeIsShown(free, ops, include_, exclude);
      if matchAll && !(exists p :: p in include_ && IsBlocked(ops, exclude, p)) {
        assert Shows(Applied(free, ops), include_, exclude, matchAll);
      }
      if !matchAll && !(include_ != [] && forall p :: p in include_ ==> IsBlocked(ops, exclude, p)) {
        assert Shows(Applied(free, ops), include_, exclude, matchAll);
      }
    }
  }

  lemma BlockedIsHidden(tags: set<TagPath>, ops: seq<TagOp>, exclude: seq<string>, p: string)
    requires IsBlocked(ops, exclude, p) && Carries(Applied(tags, ops), p)
    ensures exists e :: e in exclude && Carries(Applied(tags, ops), e)
  {
    var t :| t in Applied(tags, ops) && IsAncestorOrSelf(TagPath(p), t);
    if AtOrUnder(TagPath(p), Removed(ops)) {
      var r :| r in Removed(ops) && IsAncestorOrSelf(r, TagPath(p));
      AncestryIsTransitive(r, TagPath(p), t);
      assert AtOrUnder(t, Removed(ops)) && t !in Assigned(ops);
      assert false;
    } else {
      var e :| e in exclude && IsAncestorOrSelf(TagPath(e), TagPath(p));
      AncestryIsTransitive(TagPath(e), TagPath(p), t);
    }
  }

  /** With the included paths that are not blocked as tags, those paths are carried and no excluded one. */
  lemma FreeIsShown(free: set<TagPath>, ops: seq<TagOp>, include_: seq<string>, exclude: seq<string>)
    requires free == set p | p in include_ && !IsBlocked(ops, exclude, p) :: TagPath(p)
    requires !exists e :: e in exclude && Carries(Assigned(ops), e)
    ensures forall p :: p in include_ && !IsBlocked(ops, exclude, p) ==> Carries(Applied(free, ops), p)
    ensures forall e :: e in exclude ==> !Carries(Applied(free, ops), e)
  {
    forall p | p in include_ && !IsBlocked(ops, exclude, p) ensures Carries(Applied(free, ops), p) {
      CarriedAfter(free, ops, p);
      assert TagPath(p) in free && IsAncestorOrSelf(TagPath(p), TagPath(p));
    }
    forall e | e in exclude ensures !Carries(Applied(free, ops), e) {
      CarriedAfter(free, ops, e);
      if Carries(Applied(free, ops), e) { ExcludedIsNotFree(free, ops, include_, exclude, e); }
    }
  }

  lemma ExcludedIsNotFree(
      free: set<TagPath>, ops: seq<TagOp>, include_: seq<string>, exclude: seq<string>, e: string)
    requires free == set p | p in include_ && !IsBlocked(ops, exclude, p) :: TagPath(p)
    requires e in exclude && !Carries(Assigned(ops), e)
    ensures !exists t :: t in free && IsAncestorOrSelf(TagPath(e), t)
  {
    forall t | IsAncestorOrSelf(TagPath(e), t) ensures t !in free {
      forall a | a in Assigned(ops) ensures !IsAncestorOrSelf(t, a) {
        if IsAncestorOrSelf(t, a) { AncestryIsTransitive(TagPath(e), t, a); }
      }
    }
  }

  /** An accepted operation list for leaving that assigns no tag hides every picture. */
  lemma LeavingHides(tags: set<TagPath>, wb: WriteBack, include_: seq<string>, exclude: seq<string>, matchAll: bool)
    requires Complies(wb, include_, exclude, matchAll) && Assigned(wb.onRemove) == {}
    ensures !Shows(Applied(tags, wb.onRemove), include_, exclude, matchAll)
  {
    LeavingHidesExactly(wb.onRemove, include_, exclude, matchAll);
    forall p | p in include_ && TagOp.Remove(p) in wb.onRemove ensures IsBlocked(wb.onRemove, exclude, p) {
      assert TagPath(p) in Removed(wb.onRemove) && IsAncestorOrSelf(TagPath(p), TagPath(p));
    }
    assert forall e :: TagOp.Assign(e) in wb.onRemove ==> TagPath(e) in Assigned(wb.onRemove);
  }

  /** An accepted list that does not do what the rule asks for: everything under A is excluded and A.B is
      assigned on entering, so a picture that enters is never shown. */
  lemma EnteringCanHide(tags: set<TagPath>)
    ensures var wb := WriteBack([TagOp.Assign("A.B"), TagOp.Remove("A")], [TagOp.Remove("A.B")]);
            Complies(wb, ["A.B"], ["A"], true) && !Shows(Applied(tags, wb.onAdd), ["A.B"], ["A"], true)
  {
    var wb := WriteBack([TagOp.Assign("A.B"), TagOp.Remove("A")], [TagOp.Remove("A.B")]);
    assert TagOp.Assign("A.B") in wb.onAdd && TagOp.Remove("A") in wb.onAdd && TagOp.Remove("A.B") in wb.onRemove;
    assert TagPath("A.B") in Assigned(wb.onAdd);
    assert IsAncestorOf(TagPath("A"), TagPath("A.B")) by { assert "A.B"[..2] == "A."; }
    AssignedIsCarried(tags, wb.onAdd, "A", TagPath("A.B"));
    assert "A" in ["A"];
  }
}
