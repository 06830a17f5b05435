/** Validating the node tree of a hierarchy: local rules, unique ids, unique sibling names. */
module HierarchyNodes {
  import opened Wrappers
  import Tags
  import Text

  datatype TagOp = Assign(path: string) | Remove(path: string)

  datatype WriteBack = WriteBack(onAdd: seq<TagOp>, onRemove: seq<TagOp>)

  datatype Kind =
    | Mirror(tagRoot: string, collapsed: seq<string>, exclude: seq<string>, include_: seq<string>,
             minDepth: nat, maxDepth: nat)
    | Query(matchAll: bool, include_: seq<string>, exclude: seq<string>, matchUntagged: bool,
            writeBack: Option<WriteBack>, children: seq<Node>)
    | Static(children: seq<Node>)
    | Drop(onAdd: seq<TagOp>)

  datatype Node = Node(id: string, name: Option<string>, kind: Kind)

  function Children(n: Node): seq<Node> {
    if n.kind.Query? || n.kind.Static? then n.kind.children else []
  }

  /** The directory label: the given name, or the last label of a mirror's root. */
  function EffectiveName(n: Node): Option<string> {
    if n.name.Some? then n.name
    else if n.kind.Mirror? then
      var labels := Text.Split(n.kind.tagRoot, '.');
      Some(labels[|labels| - 1])
    else None
  }

  // -- Local rules ------------------------------------------------------------

  predicate Parses(path: string) {
    Tags.Parse(path, true).Ok?
  }

  predicate AllParse(paths: seq<string>) {
    forall i :: 0 <= i < |paths| ==> Parses(paths[i])
  }

  predicate UnderRoot(root: string, entry: string) {
    Parses(root) && Parses(entry) && Tags.IsAncestorOrSelf(Tags.Parse(root, true).value, Tags.Parse(entry, true).value)
  }

  /** Adding must be able to satisfy the predicate, removing must be able to break it. */
  predicate Complies(wb: WriteBack, include_: seq<string>, exclude: seq<string>, matchAll: bool) {
    var adds := if matchAll then forall p :: p in include_ ==> Assign(p) in wb.onAdd
                    else include_ == [] || exists p :: p in include_ && Assign(p) in wb.onAdd;
    var cleared := forall p :: p in exclude ==> Remove(p) in wb.onAdd;
    var breaksInclude := if matchAll then exists p :: p in include_ && Remove(p) in wb.onRemove
                         else include_ != [] && forall p :: p in include_ ==> Remove(p) in wb.onRemove;
    var breaksExclude := exists p :: p in exclude && Assign(p) in wb.onRemove;
    adds && cleared && (breaksInclude || breaksExclude)
  }

  predicate OwnRules(n: Node) {
    match n.kind
    case Mirror(tagRoot, collapsed, exclude, include_, minDepth, maxDepth) =>
      && Parses(tagRoot) && (maxDepth > 0 ==> minDepth <= maxDepth) && AllParse(include_) && AllParse(exclude)
      && (forall i :: 0 <= i < |collapsed| ==> UnderRoot(tagRoot, collapsed[i]))
    case Query(matchAll, include_, exclude, matchUntagged, writeBack, _) =>
      && AllParse(include_) && AllParse(exclude)
      && (matchUntagged ==> include_ == [] && exclude == [])
      && (writeBack.Some? && !matchUntagged ==> Complies(writeBack.value, include_, exclude, matchAll))
    case Static(_) => true
    case Drop(onAdd) => forall i :: 0 <= i < |onAdd| ==> Parses(onAdd[i].path)
  }

  // -- The whole tree ---------------------------------------------------------

  /** Every id in the tree, parents before children. */
  function Ids(nodes: seq<Node>): seq<string> {
    if nodes == [] then [] else Ids(nodes[..|nodes| - 1]) + NodeIds(nodes[|nodes| - 1])
  }

  function NodeIds(n: Node): seq<string> {
    [n.id] + (if n.kind.Query? || n.kind.Static? then Ids(n.kind.children) else [])
  }

  predicate NoRepeats(s: seq<string>) {
    forall i, j :: 0 <= i < j < |s| ==> s[i] != s[j]
  }

  /** Every sibling has a name, and no two names are equal ignoring case. */
  predicate SiblingNames(nodes: seq<Node>, lower: string -> string) {
    && (forall i :: 0 <= i < |nodes| ==> EffectiveName(nodes[i]).Some?)
    && (forall i, j :: 0 <= i < j < |nodes| ==>
          lower(EffectiveName(nodes[i]).value) != lower(EffectiveName(nodes[j]).value))
  }

  predicate TreeRules(nodes: seq<Node>, lower: string -> string) {
    SiblingNames(nodes, lower) && forall i :: 0 <= i < |nodes| ==> NodeRules(nodes[i], lower)
  }

  predicate NodeRules(n: Node, lower: string -> string) {
    OwnRules(n) && if n.kind.Query? || n.kind.Static? then TreeRules(n.kind.children, lower) else true
  }

  function Elements(s: seq<string>): set<string> {
    set x | x in s
  }

  lemma PartsDiffer(a: seq<string>, b: seq<string>, i: nat, j: nat)
    requires NoRepeats(a + b) && i < |a| && j < |b|
    ensures a[i] != b[j]
  {
    assert (a + b)[i] != (a + b)[|a| + j];
  }

  lemma AppendFresh(a: seq<string>, b: seq<string>)
    ensures NoRepeats(a + b) <==> NoRepeats(a) && NoRepeats(b) && Elements(a) !! Elements(b)
    ensures Elements(a + b) == Elements(a) + Elements(b)
  {
    var s := a + b;
    if NoRepeats(s) {
      forall i, j | 0 <= i < j < |a| ensures a[i] != a[j] { assert s[i] != s[j]; }
      forall i, j | 0 <= i < j < |b| ensures b[i] != b[j] { assert s[|a| + i] != s[|a| + j]; }
      forall i, j | 0 <= i < |a| && 0 <= j < |b| ensures a[i] != b[j] { PartsDiffer(a, b, i, j); }
    }
    if NoRepeats(a) && NoRepeats(b) && Elements(a) !! Elements(b) {
      forall i, j | 0 <= i < j < |s| ensures s[i] != s[j] {
        if i < |a| <= j { assert a[i] in Elements(a) && b[j - |a|] in Elements(b); }
      }
    }
  }

  /** The siblings and everything below them are in order, with ids outside `seen`. */
  ghost predicate Accepted(nodes: seq<Node>, seen: set<string>, lower: string -> string) {
    TreeRules(nodes, lower) && NoRepeats(Ids(nodes)) && Elements(Ids(nodes)) !! seen
  }

  ghost predicate NameIsNew(nodes: seq<Node>, i: nat, lower: string -> string)
    requires i < |nodes| && forall j :: 0 <= j < i ==> EffectiveName(nodes[j]).Some?
  {
    EffectiveName(nodes[i]).Some? &&
    forall j :: 0 <= j < i ==> lower(EffectiveName(nodes[j]).value) != lower(EffectiveName(nodes[i]).value)
  }

  lemma RulesOfOneMore(nodes: seq<Node>, i: nat, lower: string -> string)
    requires i < |nodes| && TreeRules(nodes[..i], lower)
    ensures forall j :: 0 <= j < i ==> EffectiveName(nodes[j]).Some?
    ensures TreeRules(nodes[..i + 1], lower) <==> NameIsNew(nodes, i, lower) && NodeRules(nodes[i], lower)
  {}

  lemma IdsOfOneMore(nodes: seq<Node>, i: nat, seen: set<string>)
    requires i < |nodes| && NoRepeats(Ids(nodes[..i])) && Elements(Ids(nodes[..i])) !! seen
    ensures var before := seen + Elements(Ids(nodes[..i])); var id, below := nodes[i].id, Ids(Children(nodes[i]));
            && (NoRepeats(Ids(nodes[..i + 1])) && Elements(Ids(nodes[..i + 1])) !! seen
                <==> id !in before && NoRepeats(below) && Elements(below) !! before + {id})
            && seen + Elements(Ids(nodes[..i + 1])) == before + {id} + Elements(below)
  {
    assert nodes[..i + 1][..i] == nodes[..i] && nodes[..i + 1][i] == nodes[i];
    var id, below := nodes[i].id, Ids(Children(nodes[i]));
    assert NodeIds(nodes[i]) == [id] + below;
    AppendFresh(Ids(nodes[..i]), NodeIds(nodes[i]));
    AppendFresh([id], below);
    assert Elements([id]) == {id};
  }

  /** Walk the siblings, sharing one set of seen ids with the whole tree. */
  method ValidateNodes(nodes: seq<Node>, seen: set<string>, lower: string -> string)
    returns (ok: bool, seen': set<string>)
    ensures ok <==> Accepted(nodes, seen, lower)
    ensures ok ==> seen' == seen + Elements(Ids(nodes))
    decreases nodes, 0
  {
    seen' := seen;
    var names: set<string> := {};
    for i := 0 to |nodes|
      invariant Accepted(nodes[..i], seen, lower)
      invariant seen' == seen + Elements(Ids(nodes[..i]))
      invariant forall j :: 0 <= j < i ==> EffectiveName(nodes[j]).Some?
      invariant forall x :: x in names <==> exists j :: 0 <= j < i && x == lower(EffectiveName(nodes[j]).value)
    {
      RulesOfOneMore(nodes, i, lower);
      IdsOfOneMore(nodes, i, seen);
      if Accepted(nodes, seen, lower) { PrefixAccepted(nodes, i + 1, seen, lower); }
      var name := EffectiveName(nodes[i]);
      if name.None? || lower(name.value) in names { return false, seen'; }
      if nodes[i].id in seen' { return false, seen'; }
      names := names + {lower(name.value)};
      ok, seen' := ValidateNode(nodes[i], seen' + {nodes[i].id}, lower);
      if !ok { return; }
    }
    assert nodes[..|nodes|] == nodes;
    ok := true;
  }

  method ValidateNode(n: Node, seen: set<string>, lower: string -> string) returns (ok: bool, seen': set<string>)
    ensures ok <==> NodeRules(n, lower) && NoRepeats(Ids(Children(n))) && Elements(Ids(Children(n))) !! seen
    ensures ok ==> seen' == seen + Elements(Ids(Children(n)))
    decreases n, 1
  {
    seen' := seen;
    ok := OwnRules(n);
    if ok && (n.kind.Query? || n.kind.Static?) {
      ok, seen' := ValidateNodes(n.kind.children, seen, lower);
    }
  }

  /** What is wrong with a prefix of the siblings is wrong with all of them. */
  lemma PrefixAccepted(nodes: seq<Node>, n: nat, seen: set<string>, lower: string -> string)
    requires n <= |nodes| && Accepted(nodes, seen, lower)
    ensures Accepted(nodes[..n], seen, lower)
  {
    IdsPrefix(nodes, n);
  }

  lemma {:induction false} IdsPrefix(nodes: seq<Node>, n: nat)
    requires n <= |nodes|
    ensures NoRepeats(Ids(nodes)) ==> NoRepeats(Ids(nodes[..n]))
    ensures Elements(Ids(nodes[..n])) <= Elements(Ids(nodes))
    decreases |nodes|
  {
    if n == |nodes| {
      assert nodes[..n] == nodes;
    } else {
      var shorter := nodes[..|nodes| - 1];
      assert shorter[..n] == nodes[..n];
      IdsPrefix(shorter, n);
      AppendFresh(Ids(shorter), NodeIds(nodes[|nodes| - 1]));
    }
  }

  // -- What acceptance buys ---------------------------------------------------

  /** The node reached by child positions from the top. */
  function NodeAt(nodes: seq<Node>, p: seq<nat>): Option<Node>
    decreases |p|
  {
    if p == [] || p[0] >= |nodes| then None
    else if |p| == 1 then Some(nodes[p[0]])
    else NodeAt(Children(nodes[p[0]]), p[1..])
  }

  /** The directory names along the way, folded to lower case. */
  function NamesAlong(nodes: seq<Node>, p: seq<nat>, lower: string -> string): seq<Option<string>>
    requires NodeAt(nodes, p).Some?
    decreases |p|
  {
    var name := EffectiveName(nodes[p[0]]);
    [if name.Some? then Some(lower(name.value)) else None]
    + (if |p| == 1 then [] else NamesAlong(Children(nodes[p[0]]), p[1..], lower))
  }

  /** In an accepted tree a directory path, read ignoring case, names at most one node. */
  lemma {:induction false} PathsNameOneNode(nodes: seq<Node>, p: seq<nat>, q: seq<nat>, lower: string -> string)
    requires TreeRules(nodes, lower) && NodeAt(nodes, p).Some? && NodeAt(nodes, q).Some?
    requires NamesAlong(nodes, p, lower) == NamesAlong(nodes, q, lower)
    ensures p == q
    decreases |p|
  {
    var a, b := NamesAlong(nodes, p, lower), NamesAlong(nodes, q, lower);
    assert a[0] == b[0] && a[1..] == b[1..];
    assert p[0] == q[0];
    assert NodeRules(nodes[p[0]], lower);
    if |p| > 1 && |q| > 1 {
      var children := Children(nodes[p[0]]);
      assert a[1..] == NamesAlong(children, p[1..], lower) && b[1..] == NamesAlong(children, q[1..], lower);
      PathsNameOneNode(children, p[1..], q[1..], lower);
      assert p == [p[0]] + p[1..] && q == [q[0]] + q[1..];
    } else {
      assert |p| == 1 <==> a[1..] == [];
      assert p == [p[0]] && q == [q[0]];
    }
  }

  /** Ids below one sibling repeat neither there nor below another. */
  lemma {:induction false} SiblingIds(nodes: seq<Node>, i: nat, j: nat)
    requires NoRepeats(Ids(nodes)) && i <= j < |nodes|
    ensures NoRepeats(NodeIds(nodes[i])) && Elements(NodeIds(nodes[i])) <= Elements(Ids(nodes))
    ensures i < j ==> Elements(NodeIds(nodes[i])) !! Elements(NodeIds(nodes[j]))
    decreases |nodes|
  {
    var last := |nodes| - 1;
    AppendFresh(Ids(nodes[..last]), NodeIds(nodes[last]));
    if j < last {
      SiblingIds(nodes[..last], i, j);
    } else if i < last {
      SiblingIds(nodes[..last], i, i);
    }
  }

  lemma {:induction false} IdIsListed(nodes: seq<Node>, p: seq<nat>)
    requires NoRepeats(Ids(nodes)) && NodeAt(nodes, p).Some?
    ensures NodeAt(nodes, p).value.id in Elements(NodeIds(nodes[p[0]]))
    ensures |p| > 1 ==> NodeAt(nodes, p).value.id in Elements(Ids(Children(nodes[p[0]])))
    decreases |p|
  {
    var n := nodes[p[0]];
    SiblingIds(nodes, p[0], p[0]);
    assert NodeIds(n) == [n.id] + Ids(Children(n));
    AppendFresh([n.id], Ids(Children(n)));
    if |p| == 1 {
      assert n.id in Elements([n.id]);
    } else {
      IdIsListed(Children(n), p[1..]);
      SiblingIds(Children(n), p[1], p[1]);
    }
  }

  /** In an accepted tree an id names at most one node, anywhere. */
  lemma {:induction false} IdsNameOneNode(nodes: seq<Node>, p: seq<nat>, q: seq<nat>)
    requires NoRepeats(Ids(nodes)) && NodeAt(nodes, p).Some? && NodeAt(nodes, q).Some?
    requires NodeAt(nodes, p).value.id == NodeAt(nodes, q).value.id
    ensures p == q
    decreases |p|
  {
    IdIsListed(nodes, p);
    IdIsListed(nodes, q);
    if p[0] < q[0] { SiblingIds(nodes, p[0], q[0]); }
    if q[0] < p[0] { SiblingIds(nodes, q[0], p[0]); }
    var n := nodes[p[0]];
    SiblingIds(nodes, p[0], p[0]);
    assert NodeIds(n) == [n.id] + Ids(Children(n));
    AppendFresh([n.id], Ids(Children(n)));
    if |p| > 1 && |q| > 1 {
      IdsNameOneNode(Children(n), p[1..], q[1..]);
    }
    assert |p| == 1 || |q| == 1 ==> |p| == |q| by { assert n.id in Elements([n.id]); }
    assert p == [p[0]] + p[1..] && q == [q[0]] + q[1..];
  }
}
