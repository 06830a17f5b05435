/** Folding a candidate path onto stored tags that differ from it only by case. */
module CaseFolding {
  import opened Text
  import opened Tags

  function Lower(c: char): char {
    if 'A' <= c <= 'Z' then c + 32 as char else c
  }

  predicate SameIgnoringCase(a: string, b: string) {
    |a| == |b| && forall i :: 0 <= i < |a| ==> Lower(a[i]) == Lower(b[i])
  }

  /** A stored path that carries the normalised prefix and, right after it, the component in another
      casing. */
  predicate Adoptable(ex: seq<string>, prefix: seq<string>, comp: string) {
    prefix < ex && ex[|prefix|] != comp && SameIgnoringCase(ex[|prefix|], comp)
  }

  /** The casing of the first adoptable stored path, or the component itself. */
  function Choose(existing: seq<seq<string>>, prefix: seq<string>, comp: string): string {
    if existing == [] then comp
    else if Adoptable(existing[0], prefix, comp) then existing[0][|prefix|]
    else Choose(existing[1..], prefix, comp)
  }

  /** Fold the components one by one, top-down. */
  function Fold(existing: seq<seq<string>>, prefix: seq<string>, comps: seq<string>): seq<string>
    decreases |comps|
  {
    if comps == [] then prefix
    else Fold(existing, prefix + [Choose(existing, prefix, comps[0])], comps[1..])
  }

  function SplitAll(paths: seq<string>): seq<seq<string>> {
    seq(|paths|, i requires 0 <= i < |paths| => Split(paths[i], '.'))
  }

  function Reuse(candidate: string, existing: seq<string>): string {
    Join(Fold(SplitAll(existing), [], Split(candidate, '.')), '.')
  }

  lemma {:induction false} ChooseAt(existing: seq<seq<string>>, prefix: seq<string>, comp: string, n: nat)
    requires n <= |existing| && forall i :: 0 <= i < n ==> !Adoptable(existing[i], prefix, comp)
    ensures Choose(existing, prefix, comp) == Choose(existing[n..], prefix, comp)
  {
    if n > 0 {
      ChooseAt(existing[1..], prefix, comp, n - 1);
      assert existing[1..][n - 1..] == existing[n..];
    }
  }

  lemma {:induction false} FoldAppend(existing: seq<seq<string>>, prefix: seq<string>, comps: seq<string>, comp: string)
    ensures Fold(existing, prefix, comps + [comp])
         == Fold(existing, prefix, comps) + [Choose(existing, Fold(existing, prefix, comps), comp)]
    decreases |comps|
  {
    if comps == [] {
      assert comps + [comp] == [comp];
      var p := prefix + [Choose(existing, prefix, comp)];
      assert [comp][1..] == [];
      assert Fold(existing, p, []) == p;
    } else {
      assert (comps + [comp])[1..] == comps[1..] + [comp];
      FoldAppend(existing, prefix + [Choose(existing, prefix, comps[0])], comps[1..], comp);
    }
  }

  /** The nested loops of the code. */
  method ReuseExistingCase(candidate: string, existing: seq<string>) returns (folded: string)
    ensures folded == Reuse(candidate, existing)
  {
    var comps := Split(candidate, '.');
    ghost var stored := SplitAll(existing);
    var result: seq<string> := [];
    for i := 0 to |comps|
      invariant |result| == i
      invariant result == Fold(stored, [], comps[..i])
    {
      var comp := comps[i];
      var chosen := comp;
      var n := 0;
      while n < |existing|
        invariant n <= |existing| && chosen == comp
        invariant forall m :: 0 <= m < n ==> !Adoptable(stored[m], result, comp)
        decreases |existing| - n
      {
        var ex := Split(existing[n], '.');
        if |ex| > i && (forall j :: 0 <= j < i ==> ex[j] == result[j])
           && ex[i] != comp && SameIgnoringCase(ex[i], comp) {
          assert ex[..i] == result;
          chosen := ex[i];
          break;
        }
        assert stored[n] == ex && !Adoptable(ex, result, comp);
        n := n + 1;
      }
      ChooseAt(stored, result, comp, n);
      FoldAppend(stored, [], comps[..i], comp);
      assert comps[..i + 1] == comps[..i] + [comp];
      result := result + [chosen];
    }
    assert comps[..|comps|] == comps;
    folded := Join(result, '.');
  }

  // -- Libraries without case-only duplicates ---------------------------------

  /** Two paths share a prefix and then differ only by case. */
  predicate CaseTwins(p: seq<string>, q: seq<string>, i: nat) {
    i < |p| && i < |q| && p[..i] == q[..i] && p[i] != q[i] && SameIgnoringCase(p[i], q[i])
  }

  ghost predicate NoCaseTwins(existing: seq<seq<string>>) {
    forall a, b, i: nat :: 0 <= a < |existing| && 0 <= b < |existing| ==> !CaseTwins(existing[a], existing[b], i)
  }

  predicate LabelwiseSame(p: seq<string>, q: seq<string>) {
    |p| == |q| && forall i :: 0 <= i < |p| ==> SameIgnoringCase(p[i], q[i])
  }

  lemma {:induction false} ChooseExact(existing: seq<seq<string>>, prefix: seq<string>, comp: string)
    ensures var c := Choose(existing, prefix, comp);
      && SameIgnoringCase(c, comp)
      && (c == comp <==> forall a :: 0 <= a < |existing| ==> !Adoptable(existing[a], prefix, comp))
      && (c != comp ==> exists a :: 0 <= a < |existing| && prefix < existing[a] && existing[a][|prefix|] == c)
  {
    if existing != [] && !Adoptable(existing[0], prefix, comp) {
      ChooseExact(existing[1..], prefix, comp);
      var c := Choose(existing, prefix, comp);
      if c != comp {
        var a :| 0 <= a < |existing[1..]| && prefix < existing[1..][a] && existing[1..][a][|prefix|] == c;
        assert existing[a + 1] == existing[1..][a];
        var b :| 0 <= b < |existing[1..]| && Adoptable(existing[1..][b], prefix, comp);
        assert existing[b + 1] == existing[1..][b];
      } else {
        forall a | 0 <= a < |existing| ensures !Adoptable(existing[a], prefix, comp) {
          if a > 0 { assert existing[a] == existing[1..][a - 1]; }
        }
      }
    }
  }

  /** Every fold keeps the number of labels and each label up to case. */
  lemma {:induction false} FoldShape(existing: seq<seq<string>>, prefix: seq<string>, comps: seq<string>)
    ensures var r := Fold(existing, prefix, comps);
      && |r| == |prefix| + |comps| && r[..|prefix|] == prefix && LabelwiseSame(r[|prefix|..], comps)
    decreases |comps|
  {
    if comps != [] {
      ChooseExact(existing, prefix, comps[0]);
      var p := prefix + [Choose(existing, prefix, comps[0])];
      FoldShape(existing, p, comps[1..]);
      var r := Fold(existing, prefix, comps);
      assert r[..|prefix|] == r[..|p|][..|prefix|];
      assert forall i :: 0 < i < |comps| ==> r[|prefix|..][i] == r[|p|..][i - 1] && comps[i] == comps[1..][i - 1];
      assert r[|prefix|] == r[..|p|][|prefix|];
    }
  }

  /** A path on which folding changes nothing, from the labels after `prefix` on. */
  ghost predicate Settled(existing: seq<seq<string>>, r: seq<string>, from: nat) {
    forall i, a :: from <= i < |r| && 0 <= a < |existing| ==> !Adoptable(existing[a], r[..i], r[i])
  }

  lemma {:induction false} SettledIsFixed(existing: seq<seq<string>>, r: seq<string>, n: nat)
    requires n <= |r| && Settled(existing, r, n)
    ensures Fold(existing, r[..n], r[n..]) == r
    decreases |r| - n
  {
    if n < |r| {
      ChooseExact(existing, r[..n], r[n]);
      assert r[..n] + [r[n]] == r[..n + 1] && r[n..][1..] == r[n + 1..];
      SettledIsFixed(existing, r, n + 1);
    } else {
      assert r[..n] == r && r[n..] == [];
    }
  }

  /** Without case twins every fold settles. */
  lemma {:induction false} FoldSettles(existing: seq<seq<string>>, prefix: seq<string>, comps: seq<string>)
    requires NoCaseTwins(existing)
    ensures Settled(existing, Fold(existing, prefix, comps), |prefix|)
    decreases |comps|
  {
    if comps != [] {
      var c := Choose(existing, prefix, comps[0]);
      ChooseExact(existing, prefix, comps[0]);
      FoldSettles(existing, prefix + [c], comps[1..]);
      FoldShape(existing, prefix + [c], comps[1..]);
      var r := Fold(existing, prefix, comps);
      assert r[..|prefix|] == r[..|prefix| + 1][..|prefix|] == prefix && r[|prefix|] == r[..|prefix| + 1][|prefix|];
      forall a | 0 <= a < |existing| ensures !Adoptable(existing[a], prefix, c) {
        if Adoptable(existing[a], prefix, c) {
          ChosenIsStored(existing, prefix, comps[0], a);
        }
      }
      forall i, a | |prefix| <= i < |r| && 0 <= a < |existing| ensures !Adoptable(existing[a], r[..i], r[i]) {}
    } else {
      FoldShape(existing, prefix, comps);
    }
  }

  /** Nothing adoptable is left once the stored casing has been adopted. */
  lemma ChosenIsStored(existing: seq<seq<string>>, prefix: seq<string>, comp: string, a: nat)
    requires NoCaseTwins(existing) && a < |existing|
    ensures !Adoptable(existing[a], prefix, Choose(existing, prefix, comp))
  {
    var c := Choose(existing, prefix, comp);
    ChooseExact(existing, prefix, comp);
    if c != comp {
      var b :| 0 <= b < |existing| && prefix < existing[b] && existing[b][|prefix|] == c;
      if prefix < existing[a] {
        assert existing[a][..|prefix|] == prefix == existing[b][..|prefix|];
        assert !CaseTwins(existing[a], existing[b], |prefix|);
      }
    }
  }

  lemma SplitAllFree(existing: seq<string>)
    ensures forall a :: 0 <= a < |existing| ==> SplitAll(existing)[a] != [] && Free(SplitAll(existing)[a], '.')
  {
    forall a | 0 <= a < |existing| ensures Free(SplitAll(existing)[a], '.') { SplitFree(existing[a], '.'); }
  }

  lemma {:induction false} FoldFree(existing: seq<seq<string>>, prefix: seq<string>, comps: seq<string>)
    requires Free(prefix, '.') && Free(comps, '.') && forall a :: 0 <= a < |existing| ==> Free(existing[a], '.')
    ensures Free(Fold(existing, prefix, comps), '.')
    decreases |comps|
  {
    if comps != [] {
      ChooseExact(existing, prefix, comps[0]);
      FoldFree(existing, prefix + [Choose(existing, prefix, comps[0])], comps[1..]);
    }
  }

  /** The labels of a folded path are the folded labels. */
  lemma ReuseLabels(candidate: string, existing: seq<string>)
    ensures Split(Reuse(candidate, existing), '.') == Fold(SplitAll(existing), [], Split(candidate, '.'))
  {
    SplitAllFree(existing);
    SplitFree(candidate, '.');
    FoldFree(SplitAll(existing), [], Split(candidate, '.'));
    FoldShape(SplitAll(existing), [], Split(candidate, '.'));
    SplitJoin(Fold(SplitAll(existing), [], Split(candidate, '.')), '.');
  }

  lemma {:induction false} JoinSame(p: seq<string>, q: seq<string>)
    requires LabelwiseSame(p, q)
    ensures SameIgnoringCase(Join(p, '.'), Join(q, '.'))
  {
    if |p| > 1 {
      assert LabelwiseSame(p[1..], q[1..]);
      JoinSame(p[1..], q[1..]);
    }
  }

  lemma {:induction false} FoldAt(existing: seq<seq<string>>, prefix: seq<string>, comps: seq<string>, i: nat)
    requires i < |comps|
    ensures var r, n := Fold(existing, prefix, comps), |prefix| + i;
            |r| == |prefix| + |comps| && r[n] == Choose(existing, r[..n], comps[i])
    decreases |comps|
  {
    var p := prefix + [Choose(existing, prefix, comps[0])];
    FoldShape(existing, p, comps[1..]);
    var r := Fold(existing, prefix, comps);
    if i == 0 {
      assert r[|prefix|] == r[..|p|][|prefix|] && r[..|prefix|] == r[..|p|][..|prefix|] == prefix;
    } else {
      FoldAt(existing, p, comps[1..], i - 1);
    }
  }

  predicate IsFirstAdoptable(existing: seq<seq<string>>, prefix: seq<string>, comp: string, a: nat) {
    a < |existing| && Adoptable(existing[a], prefix, comp)
    && forall b :: 0 <= b < a ==> !Adoptable(existing[b], prefix, comp)
  }

  /** Each label is that of the first stored path which has the folded labels before it and goes on with
      another casing of the candidate's label; without such a path it stays the candidate's. */
  lemma ReuseLabelByLabel(candidate: string, existing: seq<string>, i: nat, a: nat)
    requires i < |Split(candidate, '.')|
    ensures var stored, labels, r := SplitAll(existing), Split(candidate, '.'), Split(Reuse(candidate, existing), '.');
      && |r| == |labels|
      && (IsFirstAdoptable(stored, r[..i], labels[i], a) ==> r[i] == stored[a][i])
      && ((forall b :: 0 <= b < |stored| ==> !Adoptable(stored[b], r[..i], labels[i])) ==> r[i] == labels[i])
  {
    var stored, labels, r := SplitAll(existing), Split(candidate, '.'), Split(Reuse(candidate, existing), '.');
    ReuseLabels(candidate, existing);
    FoldAt(stored, [], labels, i);
    ChooseExact(stored, r[..i], labels[i]);
    if IsFirstAdoptable(stored, r[..i], labels[i], a) { ChooseAt(stored, r[..i], labels[i], a); }
  }

  /** Whatever is stored, the result has as many labels as the candidate, the same length, and
      equals it ignoring case. */
  lemma ReuseKeepsTheSpelling(candidate: string, existing: seq<string>)
    ensures |Split(Reuse(candidate, existing), '.')| == |Split(candidate, '.')|
    ensures SameIgnoringCase(Reuse(candidate, existing), candidate)
  {
    var r := Fold(SplitAll(existing), [], Split(candidate, '.'));
    FoldShape(SplitAll(existing), [], Split(candidate, '.'));
    assert r[0..] == r;
    JoinSame(r, Split(candidate, '.'));
    JoinSplit(candidate, '.');
    ReuseLabels(candidate, existing);
  }

  /** Folding is idempotent for every candidate exactly when the library has no case twins. */
  lemma ReuseIdempotentExact(existing: seq<string>)
    ensures (forall candidate: string :: Reuse(Reuse(candidate, existing), existing) == Reuse(candidate, existing))
       <==> NoCaseTwins(SplitAll(existing))
  {
    var stored := SplitAll(existing);
    if NoCaseTwins(stored) {
      forall candidate: string ensures Reuse(Reuse(candidate, existing), existing) == Reuse(candidate, existing) {
        var r := Fold(stored, [], Split(candidate, '.'));
        ReuseLabels(candidate, existing);
        FoldSettles(stored, [], Split(candidate, '.'));
        assert r[..0] == [] && r[0..] == r;
        SettledIsFixed(stored, r, 0);
      }
    } else {
      var a, b, i: nat :| 0 <= a < |stored| && 0 <= b < |stored| && CaseTwins(stored[a], stored[b], i);
      var a', b', i' := ShallowestTwins(stored, a, b, i);
      var comps := stored[a'][..i' + 1];
      TwinsFlip(stored, a', b', i');
      SplitAllFree(existing);
      SplitJoin(comps, '.');
      var candidate := Join(comps, '.');
      ReuseLabels(candidate, existing);
      ReuseLabels(Reuse(candidate, existing), existing);
      assert Reuse(Reuse(candidate, existing), existing) != Reuse(candidate, existing);
    }
  }

  /** No twins anywhere above level i. */
  ghost predicate NoTwinsAbove(existing: seq<seq<string>>, i: nat) {
    forall a, b, j: nat :: 0 <= a < |existing| && 0 <= b < |existing| && j < i ==>
      !CaseTwins(existing[a], existing[b], j)
  }

  lemma {:induction false} ShallowestTwins(existing: seq<seq<string>>, a: nat, b: nat, i: nat)
    returns (a': nat, b': nat, i': nat)
    requires a < |existing| && b < |existing| && CaseTwins(existing[a], existing[b], i)
    ensures a' < |existing| && b' < |existing|
    ensures CaseTwins(existing[a'], existing[b'], i') && NoTwinsAbove(existing, i')
    decreases i
  {
    if NoTwinsAbove(existing, i) { return a, b, i; }
    var c, d, j: nat :| 0 <= c < |existing| && 0 <= d < |existing| && j < i && CaseTwins(existing[c], existing[d], j);
    a', b', i' := ShallowestTwins(existing, c, d, j);
  }

  lemma PrefixAboveTwinsIsFixed(existing: seq<seq<string>>, a: nat, i: nat)
    requires a < |existing| && i < |existing[a]| && NoTwinsAbove(existing, i)
    ensures Fold(existing, [], existing[a][..i]) == existing[a][..i]
  {
    var prefix := existing[a][..i];
    forall j, c | 0 <= j < i && 0 <= c < |existing| ensures !Adoptable(existing[c], prefix[..j], prefix[j]) {
      assert prefix[..j] == existing[a][..j];
      assert !CaseTwins(existing[c], existing[a], j);
    }
    assert prefix[..0] == [] && prefix[0..] == prefix;
    SettledIsFixed(existing, prefix, 0);
  }

  /** With twins, folding one of them twice ends elsewhere than folding it once. */
  lemma TwinsFlip(existing: seq<seq<string>>, a: nat, b: nat, i: nat)
    requires a < |existing| && b < |existing| && CaseTwins(existing[a], existing[b], i) && NoTwinsAbove(existing, i)
    ensures var comps := existing[a][..i + 1];
      Fold(existing, [], Fold(existing, [], comps)) != Fold(existing, [], comps)
  {
    var prefix, comp := existing[a][..i], existing[a][i];
    PrefixAboveTwinsIsFixed(existing, a, i);
    var x := Choose(existing, prefix, comp);
    var y := Choose(existing, prefix, x);
    assert existing[a][..i + 1] == prefix + [comp];
    FoldAppend(existing, [], prefix, comp);
    FoldAppend(existing, [], prefix, x);
    BothTwinsAdoptable(existing, a, b, i, x);
    ChooseExact(existing, prefix, comp);
    ChooseExact(existing, prefix, x);
    assert (prefix + [x])[i] != (prefix + [y])[i];
  }

  lemma BothTwinsAdoptable(existing: seq<seq<string>>, a: nat, b: nat, i: nat, x: string)
    requires a < |existing| && b < |existing| && CaseTwins(existing[a], existing[b], i)
    requires x == Choose(existing, existing[a][..i], existing[a][i])
    ensures Adoptable(existing[b], existing[a][..i], existing[a][i])
    ensures x != existing[a][i] && Adoptable(existing[a], existing[a][..i], x)
  {
    var prefix := existing[a][..i];
    assert prefix < existing[a] && prefix < existing[b];
    ChooseExact(existing, prefix, existing[a][i]);
  }

  /** A settled path is no case twin of a stored one. */
  lemma SettledHasNoTwin(stored: seq<seq<string>>, r: seq<string>, a: nat, i: nat)
    requires Settled(stored, r, 0) && a < |stored|
    ensures !CaseTwins(stored[a], r, i) && !CaseTwins(r, stored[a], i)
  {}

  /** Adding a folded path keeps the library free of case twins. */
  lemma AddingKeepsNoTwins(existing: seq<string>, candidate: string)
    requires NoCaseTwins(SplitAll(existing))
    ensures NoCaseTwins(SplitAll(existing + [Reuse(candidate, existing)]))
  {
    var stored := SplitAll(existing);
    var r := Fold(stored, [], Split(candidate, '.'));
    ReuseLabels(candidate, existing);
    FoldSettles(stored, [], Split(candidate, '.'));
    assert SplitAll(existing + [Reuse(candidate, existing)]) == stored + [r];
    forall a, i: nat | 0 <= a < |stored| ensures !CaseTwins(stored[a], r, i) && !CaseTwins(r, stored[a], i) {
      SettledHasNoTwin(stored, r, a, i);
    }
    AppendKeepsNoTwins(stored, r);
  }

  lemma AppendKeepsNoTwins(stored: seq<seq<string>>, r: seq<string>)
    requires NoCaseTwins(stored)
    requires forall a, i: nat :: 0 <= a < |stored| ==> !CaseTwins(stored[a], r, i) && !CaseTwins(r, stored[a], i)
    ensures NoCaseTwins(stored + [r])
  {}

  /** The library after a sequence of writes, each folded onto what is stored by then. */
  function Write(existing: seq<string>, candidates: seq<string>): seq<string>
    decreases |candidates|
  {
    if candidates == [] then existing
    else Write(existing + [Reuse(candidates[0], existing)], candidates[1..])
  }

  /** Starting from nothing, no sequence of writes ever mints a case-only duplicate. */
  lemma {:induction false} WritesNeverMintTwins(existing: seq<string>, candidates: seq<string>)
    requires NoCaseTwins(SplitAll(existing))
    ensures NoCaseTwins(SplitAll(Write(existing, candidates)))
    ensures NoCaseTwins(SplitAll([]))
    decreases |candidates|
  {
    if candidates != [] {
      AddingKeepsNoTwins(existing, candidates[0]);
      WritesNeverMintTwins(existing + [Reuse(candidates[0], existing)], candidates[1..]);
    }
  }

  /** A library on which folding is not idempotent: it holds both casings of one label. */
  lemma TwinsSwap()
    ensures Reuse("A", ["A", "a"]) == "a" && Reuse("a", ["A", "a"]) == "A"
  {
    var existing := ["A", "a"];
    SplitWhole("A", '.');
    SplitWhole("a", '.');
    assert SplitAll(existing) == [["A"], ["a"]];
    assert SameIgnoringCase("A", "a") && SameIgnoringCase("a", "A");
    assert [["A"], ["a"]][1..] == [["a"]] && [["a"]][1..] == [];
    assert Choose([["A"], ["a"]], [], "A") == "a" && Choose([["A"], ["a"]], [], "a") == "A";
    assert [] + ["a"] == ["a"] && [] + ["A"] == ["A"] && ["A"][1..] == [] && ["a"][1..] == [];
  }
}
