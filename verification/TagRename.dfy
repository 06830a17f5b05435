/** Renaming a tag subtree: string slicing, label replacement and the SQL update are one operation. */
module TagRename {
  import opened Wrappers
  import opened Text
  import opened Tags

  /** Swap the prefix `old` for `new` by slicing the string; None when the path is unrelated. */
  function RenameUnder(p: TagPath, old_: TagPath, new_: TagPath): Option<TagPath> {
    if p == old_ then Some(new_)
    else if IsAncestorOf(old_, p) then Some(TagPath(new_.ltree + "." + p.ltree[|old_.ltree| + 1..]))
    else None
  }

  /** What a cascade does to any stored path. */
  function Renamed(p: TagPath, old_: TagPath, new_: TagPath): TagPath {
    match RenameUnder(p, old_, new_)
    case Some(q) => q
    case None => p
  }

  /** Slicing renames exactly the paths at or under `old`, label-look-alikes excluded, and replaces
      the label prefix. */
  lemma RenameReplacesThePrefix(p: TagPath, old_: TagPath, new_: TagPath)
    ensures RenameUnder(p, old_, new_).Some? <==> Labels(old_) <= Labels(p)
    ensures RenameUnder(p, old_, new_).Some?
      ==> Labels(RenameUnder(p, old_, new_).value) == Labels(new_) + Labels(p)[|Labels(old_)|..]
  {
    AncestorIsProperPrefix(old_, p);
    if p != old_ && IsAncestorOf(old_, p) {
      var suffix := p.ltree[|old_.ltree| + 1..];
      assert p.ltree == old_.ltree + ['.'] + suffix;
      SplitConcat(old_.ltree, suffix, '.');
      SplitConcat(new_.ltree, suffix, '.');
    }
  }

  /** Renaming back restores every renamed path. */
  lemma RenameRoundTrip(p: TagPath, old_: TagPath, new_: TagPath)
    requires RenameUnder(p, old_, new_).Some?
    ensures RenameUnder(RenameUnder(p, old_, new_).value, new_, old_) == Some(p)
  {
    var q := RenameUnder(p, old_, new_).value;
    RenameReplacesThePrefix(p, old_, new_);
    RenameReplacesThePrefix(q, new_, old_);
    LabelsInjective(RenameUnder(q, new_, old_).value, p);
  }

  /** Over a whole library, renaming forth and back restores a path exactly when it was not already
      under the new name, unless it was also under the old one. */
  lemma CascadeRoundTripExact(p: TagPath, old_: TagPath, new_: TagPath)
    ensures Renamed(Renamed(p, old_, new_), new_, old_) == p
      <==> IsAncestorOrSelf(old_, p) || !IsAncestorOrSelf(new_, p)
  {}

  /** A path already under the new name that does not come back: A renamed to B and back takes B to A. */
  lemma BystanderIsCaptured()
    ensures var a, b := TagPath("A"), TagPath("B"); Renamed(Renamed(b, a, b), b, a) == a
  {
    assert !IsAncestorOf(TagPath("A"), TagPath("B"));
  }

  /** Inside the renamed subtree the rename is injective and keeps ancestry both ways. */
  lemma RenameKeepsTheTree(p: TagPath, q: TagPath, old_: TagPath, new_: TagPath)
    requires RenameUnder(p, old_, new_).Some? && RenameUnder(q, old_, new_).Some?
    ensures var (p', q') := (RenameUnder(p, old_, new_).value, RenameUnder(q, old_, new_).value);
      (p' == q' <==> p == q) && (IsAncestorOf(p', q') <==> IsAncestorOf(p, q))
  {
    var p', q' := RenameUnder(p, old_, new_).value, RenameUnder(q, old_, new_).value;
    RenameRoundTrip(p, old_, new_);
    RenameRoundTrip(q, old_, new_);
    RenameReplacesThePrefix(p, old_, new_);
    RenameReplacesThePrefix(q, old_, new_);
    AncestorIsProperPrefix(p, q);
    AncestorIsProperPrefix(p', q');
    SwapPrefix(Labels(old_), Labels(new_), Labels(p), Labels(q));
  }

  lemma SwapPrefix(a: seq<string>, b: seq<string>, p: seq<string>, q: seq<string>)
    requires a <= p && a <= q
    ensures b + p[|a|..] < b + q[|a|..] <==> p < q
  {
    assert p == a + p[|a|..] && q == a + q[|a|..];
    if p < q { assert q[|a|..][..|p| - |a|] == p[|a|..]; assert (b + q[|a|..])[..|b + p[|a|..]|] == b + p[|a|..]; }
    if b + p[|a|..] < b + q[|a|..] {
      var p', q' := b + p[|a|..], b + q[|a|..];
      assert q'[..|p'|] == p';
      assert p[|a|..] == p'[|b|..] && q[|a|..] == q'[|b|..];
      assert q[|a|..][..|p| - |a|] == p[|a|..];
    }
  }

  /** Two paths of a library collide exactly when one is renamed onto the other, which was not
      under the old name. */
  lemma CascadeCollisionExact(p: TagPath, q: TagPath, old_: TagPath, new_: TagPath)
    requires p != q
    ensures Renamed(p, old_, new_) == Renamed(q, old_, new_) <==>
      || (RenameUnder(p, old_, new_) == Some(q) && RenameUnder(q, old_, new_).None?)
      || (RenameUnder(q, old_, new_) == Some(p) && RenameUnder(p, old_, new_).None?)
  {
    if RenameUnder(p, old_, new_).Some? && RenameUnder(q, old_, new_).Some? { RenameKeepsTheTree(p, q, old_, new_); }
  }

  // -- The SQL twin -----------------------------------------------------------

  /** An ltree value: the empty text is the path of no labels. */
  function LtreeLabels(p: TagPath): seq<string> {
    if p.ltree == "" then [] else Labels(p)
  }

  /** `UPDATE … SET tag_path = CASE WHEN tag_path = old THEN new ELSE new || subpath(tag_path,
      nlevel(old)) END WHERE tag_path <@ old`, for one row. */
  function SqlRename(p: TagPath, old_: TagPath, new_: TagPath): Option<TagPath> {
    var labels, oldLabels := LtreeLabels(p), LtreeLabels(old_);
    if !(oldLabels <= labels) then None
    else if labels == oldLabels then Some(new_)
    else Some(FromLabels(LtreeLabels(new_) + labels[|oldLabels|..]))
  }

  /** On every valid path the SQL rename and the code's rename agree, exactly when `old` is not the
      empty path and `new` is not the empty path for a proper descendant. */
  lemma SqlRenameExact(p: TagPath, old_: TagPath, new_: TagPath)
    requires IsValid(p)
    ensures SqlRename(p, old_, new_) == RenameUnder(p, old_, new_)
      <==> old_.ltree != "" && (new_.ltree != "" || !IsAncestorOf(old_, p))
  {
    ValidHasLabelChars(p);
    AncestorIsProperPrefix(old_, p);
    RenameReplacesThePrefix(p, old_, new_);
    if old_.ltree == "" {
      assert Labels(old_) == [""];
      assert IsLabel(Labels(p)[0]) && Labels(p)[0] != Labels(old_)[0];
      assert RenameUnder(p, old_, new_).None?;
    } else {
      if Labels(p) == Labels(old_) { LabelsInjective(p, old_); }
      if IsAncestorOf(old_, p) { SqlRenameDescendant(p, old_, new_); }
    }
  }

  lemma SqlRenameDescendant(p: TagPath, old_: TagPath, new_: TagPath)
    requires p.ltree != "" && old_.ltree != "" && IsAncestorOf(old_, p)
    ensures SqlRename(p, old_, new_) == RenameUnder(p, old_, new_) <==> new_.ltree != ""
  {
    AncestorIsProperPrefix(old_, p);
    RenameReplacesThePrefix(p, old_, new_);
    var rest := Labels(p)[|Labels(old_)|..];
    var target := LtreeLabels(new_) + rest;
    assert SqlRename(p, old_, new_) == Some(FromLabels(target));
    SplitFree(p.ltree, '.');
    SplitFree(new_.ltree, '.');
    FromLabelsInverse(target);
    if new_.ltree != "" {
      LabelsInjective(FromLabels(target), RenameUnder(p, old_, new_).value);
    } else {
      assert |Labels(RenameUnder(p, old_, new_).value)| == |target| + 1;
    }
  }

  /** An empty old name, under which the SQL form moves every path and the string form none. */
  lemma EmptyOldNameDiffers()
    ensures SqlRename(TagPath("A"), TagPath(""), TagPath("B")) == Some(TagPath("B.A"))
    ensures RenameUnder(TagPath("A"), TagPath(""), TagPath("B")) == None
  {
    SplitWhole("A", '.');
    SplitWhole("B", '.');
    assert LtreeLabels(TagPath("")) == [] && ["A"][0..] == ["A"];
    assert ["B"] + ["A"] == ["B", "A"] && ["B", "A"][1..] == ["A"];
    assert Join(["B", "A"], '.') == "B" + ['.'] + "A" == "B.A";
    assert "" + "." == "." && !("." <= "A");
  }
}
