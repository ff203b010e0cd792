/** The expansion of a field name that stands for several fields: one leaf a field, joined pairwise by halving an array of
    subtrees in place. */
module FilterExpand {
  import opened Bits
  import opened Filter
  import opened FilterNodes
  import opened Wrappers

  const FF_MULTINODE_MAX: nat := 4

  predicate Joining(oper: Oper) { oper == OpOr || oper == OpAnd }

  function Joined(l: Tree, oper: Oper, r: Tree): Tree { Node(oper, CodeErr, "", NoValue, l, r) }

  /** Neighbours joined; an odd one at the end is dropped. */
  function PairUp(ts: seq<Tree>, oper: Oper): (r: seq<Tree>)
    ensures |r| == |ts| / 2 && forall i :: 0 <= i < |r| ==> r[i] == Joined(ts[2 * i], oper, ts[2 * i + 1])
  {
    if |ts| < 2 then [] else [Joined(ts[0], oper, ts[1])] + PairUp(ts[2..], oper)
  }

  /** What halving until one is left makes. */
  function Halved(ts: seq<Tree>, oper: Oper): Tree
    requires ts != []
    decreases |ts|
  {
    if |ts| == 1 then ts[0] else Halved(PairUp(ts, oper), oper)
  }

  /** The template, moved to each of the fields. */
  function Leaves(template: Tree, fields: seq<string>): (ts: seq<Tree>)
    requires template.Node?
    ensures |ts| == |fields| && forall i :: 0 <= i < |fields| ==> ts[i] == template.(field := fields[i])
  {
    if fields == [] then [] else [template.(field := fields[0])] + Leaves(template, fields[1..])
  }

  /** Trees of objects that share none. */
  ghost predicate Grove(ns: seq<FilterNode?>) {
    && (forall i :: 0 <= i < |ns| ==> ns[i] != null && ns[i].Linked())
    && forall i, j :: 0 <= i < j < |ns| ==> ns[i].below !! ns[j].below
  }

  method BranchNode(node: FilterNode, oper: Oper, fields: seq<string>) returns (root: FilterNode)
    requires node.Linked() && Joining(oper) && 1 <= |fields| <= FF_MULTINODE_MAX && node.field == fields[0]
    ensures root.Linked() && root.View() == Halved(Leaves(node.View(), fields), oper)
    ensures fresh(root.below - node.below)
  {
    hide FilterNode.View, FilterNode.Linked, Halved, Grove;
    var leaf := new FilterNode?[FF_MULTINODE_MAX](_ => null);
    ghost var base := CopyLeaves(node, fields, leaf);
    root := HalveAll(leaf, |fields|, oper, Leaves(node.View(), fields), base);
  }

  /** The template in the first place, and a copy of it for every other field. */
  method CopyLeaves(node: FilterNode, fields: seq<string>, leaf: array<FilterNode?>) returns (ghost base: set<FilterNode>)
    requires node.Linked() && 1 <= |fields| <= leaf.Length && node.field == fields[0]
    requires forall i :: 0 <= i < leaf.Length ==> leaf[i] == null
    modifies leaf
    ensures Grove(leaf[..|fields|]) && fresh(base - node.below)
    ensures forall i :: 0 <= i < |fields| ==>
      leaf[i] != null && leaf[i].Linked() && leaf[i].View() == Leaves(node.View(), fields)[i] && leaf[i].below <= base
    ensures forall i :: |fields| <= i < leaf.Length ==> leaf[i] == null
  {
    hide FilterNode.View, FilterNode.Linked, Grove, Leaves;
    leaf[0] := node;
    ghost var ts := Leaves(node.View(), fields);
    ghost var ls: seq<FilterNode?> := [node];
    OneGrove(node);
    base := node.below;
    assert ts[0] == node.View();
    var forked := 1;
    while forked < |fields|
      modifies leaf
      invariant 1 <= forked <= |fields| && |ls| == forked && ls[0] == node
      invariant forall i :: 0 <= i < forked ==> leaf[i] == ls[i]
      invariant forall i :: forked <= i < leaf.Length ==> leaf[i] == null
      invariant Grove(ls) && fresh(base - node.below)
      invariant forall i :: 0 <= i < forked ==> ls[i] != null && ls[i].below <= base
      invariant forall i :: 0 <= i < forked ==> ls[i].Linked() && ls[i].View() == ts[i]
    {
      var copy := CopyInto(leaf, forked, node, fields[forked], ls, ts, base);
      base := base + copy.below;
      ls := ls + [copy];
      forked := forked + 1;
    }
    assert leaf[..|fields|] == ls;
  }

  /** One more copy, in entry i. */
  method CopyInto(leaf: array<FilterNode?>, i: nat, node: FilterNode, field: string, ghost ls: seq<FilterNode?>,
                  ghost ts: seq<Tree>, ghost base: set<FilterNode>)
    returns (copy: FilterNode)
    requires i < leaf.Length && |ls| == i < |ts| && node.Linked() && Grove(ls)
    requires node.View().Node? && ts[i] == node.View().(field := field)
    requires forall k :: 0 <= k < i ==> ls[k] != null && ls[k].below <= base
    requires forall k :: 0 <= k < i ==> ls[k].Linked() && ls[k].View() == ts[k]
    modifies leaf
    ensures leaf[..] == old(leaf[..])[i := copy] && fresh(copy.below) && Grove(ls + [copy])
    ensures forall k :: 0 <= k <= i ==> (ls + [copy])[k].Linked() && (ls + [copy])[k].View() == ts[k]
  {
    hide FilterNode.View, FilterNode.Linked, Grove;
    copy := CopyFor(node, field);
    GroveSnoc(ls, copy, base);
    leaf[i] := copy;
  }

  lemma OneGrove(node: FilterNode)
    requires node.Linked()
    ensures Grove([node])
  {
  }

  lemma GroveSnoc(ns: seq<FilterNode?>, node: FilterNode, base: set<FilterNode>)
    requires Grove(ns) && node.Linked() && node.below !! base
    requires forall i :: 0 <= i < |ns| ==> ns[i] != null && ns[i].below <= base
    ensures Grove(ns + [node])
  {
    hide FilterNode.Linked;
  }

  method CopyFor(node: FilterNode, field: string) returns (copy: FilterNode)
    requires node.Linked()
    ensures copy.Linked() && fresh(copy.below) && node.View().Node? && copy.View() == node.View().(field := field)
  {
    copy := Duplicate(node);
    SetField(copy, field);
  }

  /** Neighbours are joined until one node is left. */
  method HalveAll(leaf: array<FilterNode?>, n: nat, oper: Oper, ghost ts: seq<Tree>, ghost base: set<FilterNode>)
    returns (root: FilterNode)
    requires 1 <= n <= leaf.Length == FF_MULTINODE_MAX && Joining(oper) && |ts| == n && Grove(leaf[..n])
    requires forall i :: 0 <= i < n ==>
      leaf[i] != null && leaf[i].Linked() && leaf[i].View() == ts[i] && leaf[i].below <= base
    requires forall i :: n <= i < leaf.Length ==> leaf[i] == null
    modifies leaf
    ensures root.Linked() && root.View() == Halved(ts, oper) && fresh(root.below - base)
  {
    hide FilterNode.View, FilterNode.Linked, PairUp, Grove;
    var forked := n;
    ghost var now := ts;
    while forked > 1
      modifies leaf
      invariant 1 <= forked <= FF_MULTINODE_MAX && |now| == forked && Halved(now, oper) == Halved(ts, oper)
      invariant forked == 3 ==> leaf[3] == null
      invariant Grove(leaf[..forked])
      invariant forall i :: 0 <= i < forked ==>
        leaf[i] != null && leaf[i].Linked() && leaf[i].View() == now[i] && fresh(leaf[i].below - base)
    {
      HalveOnce(leaf, forked, oper, now);
      now := PairUp(now, oper);
      forked := forked / 2;
    }
    root := leaf[0];
  }

  /** The objects of a node over two others. */
  ghost predicate Over(node: FilterNode, l: FilterNode?, r: FilterNode?) {
    node.below == {node} + Objects(l) + Objects(r)
  }

  /** The entry behind an odd last one is empty. */
  function EntryAt(ns: seq<FilterNode?>, i: nat): FilterNode? { if i < |ns| then ns[i] else null }

  /** Two entries of a grove, one of which may be the empty one behind it. */
  lemma ApartAt(ns: seq<FilterNode?>, i: nat)
    requires Grove(ns) && i < |ns|
    ensures Apart(ns[i], EntryAt(ns, i + 1))
  {
  }

  /** New nodes over neighbours of a grove share nothing. */
  lemma GroveOver(ns: seq<FilterNode?>, outs: seq<FilterNode?>)
    requires Grove(ns) && 2 * |outs| <= |ns|
    requires forall k :: 0 <= k < |outs| ==> outs[k] != null && outs[k].Linked() && Over(outs[k], ns[2 * k], ns[2 * k + 1])
    requires forall k, l :: 0 <= k < |outs| && 0 <= l < |ns| ==> outs[k] !in ns[l].below
    requires forall k, l :: 0 <= k < l < |outs| ==> outs[k] != outs[l]
    ensures Grove(outs)
  {
    forall k, l | 0 <= k < l < |outs| ensures outs[k].below !! outs[l].below {
      assert Over(outs[k], ns[2 * k], ns[2 * k + 1]) && Over(outs[l], ns[2 * l], ns[2 * l + 1]);
      assert ns[2 * k].below !! ns[2 * l].below && ns[2 * k].below !! ns[2 * l + 1].below;
      assert ns[2 * k + 1].below !! ns[2 * l].below && ns[2 * k + 1].below !! ns[2 * l + 1].below;
    }
  }

  /** One pass: entry i/2 receives the node over entries i and i+1. An odd last one is joined with nothing, but the result
      is outside the half that goes on. */
  method HalveOnce(leaf: array<FilterNode?>, forked: nat, oper: Oper, ghost ts: seq<Tree>)
    requires 1 < forked <= leaf.Length && (forked % 2 == 1 ==> forked < leaf.Length && leaf[forked] == null)
    requires Joining(oper) && Grove(leaf[..forked]) && |ts| == forked
    requires forall i :: 0 <= i < forked ==> leaf[i] != null && leaf[i].Linked() && leaf[i].View() == ts[i]
    modifies leaf
    ensures Grove(leaf[..forked / 2])
    ensures forall i :: 0 <= i < forked / 2 ==>
      leaf[i] != null && leaf[i].Linked() && leaf[i].View() == PairUp(ts, oper)[i]
    ensures forall i :: 0 <= i < forked / 2 ==>
      fresh(leaf[i]) && Over(leaf[i], old(leaf[2 * i]), old(leaf[2 * i + 1]))
  {
    hide PairUp, FilterNode.View, FilterNode.Linked, Over, Grove, Done;
    ghost var ns := leaf[..forked];
    ghost var pairs := PairUp(ts, oper);
    ghost var outs, trees, made := JoinNeighbours(leaf, forked, oper, ts);
    HalfDone(ns, pairs, outs, trees, made);
    assert leaf[..forked / 2] == outs[..forked / 2];
  }

  /** The loop of a pass, and the nodes it makes. */
  method JoinNeighbours(leaf: array<FilterNode?>, forked: nat, oper: Oper, ghost ts: seq<Tree>)
    returns (ghost outs: seq<FilterNode?>, ghost trees: seq<Tree>, ghost made: set<FilterNode>)
    requires 1 < forked <= leaf.Length && (forked % 2 == 1 ==> forked < leaf.Length && leaf[forked] == null)
    requires Joining(oper) && Grove(leaf[..forked]) && |ts| == forked
    requires forall i :: 0 <= i < forked ==> leaf[i] != null && leaf[i].Linked() && leaf[i].View() == ts[i]
    modifies leaf
    ensures forked / 2 <= |outs| == |trees| <= leaf.Length && forall k :: 0 <= k < |outs| ==> leaf[k] == outs[k]
    ensures forall k :: 0 <= k < |outs| ==> outs[k] != null && outs[k].Linked() && outs[k].View() == trees[k]
    ensures fresh(made) && Done(old(leaf[..forked]), PairUp(ts, oper), outs, trees, made)
  {
    hide PairUp, FilterNode.View, FilterNode.Linked, Over, Grove, Done;
    ghost var ns := leaf[..forked];
    ghost var pairs := PairUp(ts, oper);
    outs, trees, made := [], [], {};
    DoneNothing(ns, pairs);
    var i := 0;
    while i < forked
      modifies leaf
      invariant i == 2 * |outs| && i <= forked + 1 && |trees| == |outs|
      invariant forall k :: 0 <= k < |outs| ==> leaf[k] == outs[k]
      invariant forall k :: i <= k < forked ==> leaf[k] == ns[k]
      invariant forked % 2 == 1 && i < forked ==> leaf[forked] == null
      invariant forall k :: 0 <= k < |ns| ==> ns[k] != null && ns[k].Linked() && ns[k].View() == ts[k]
      invariant forall k :: 0 <= k < |outs| ==> outs[k] != null && outs[k].Linked() && outs[k].View() == trees[k]
      invariant fresh(made) && Done(ns, pairs, outs, trees, made)
    {
      var node;
      ghost var t;
      node, t := JoinInto(leaf, i, oper, ns, ts, outs, trees);
      DoneSnoc(ns, pairs, outs, trees, made, node, t);
      outs, trees, made := outs + [node], trees + [t], made + {node};
      i := i + 2;
    }
  }

  /** What the nodes made by a pass are over and show, and that they are different new ones. */
  ghost predicate Done(ns: seq<FilterNode?>, pairs: seq<Tree>, outs: seq<FilterNode?>, trees: seq<Tree>,
                       made: set<FilterNode>) {
    && |trees| == |outs| && |ns| / 2 == |pairs|
    && (forall k :: 0 <= k < |outs| ==> outs[k] != null && outs[k] in made)
    && (forall k :: 0 <= k < |outs| && k < |pairs| ==> trees[k] == pairs[k] && Over(outs[k], ns[2 * k], ns[2 * k + 1]))
    && (forall k, l :: 0 <= k < l < |outs| ==> outs[k] != outs[l])
  }

  lemma DoneNothing(ns: seq<FilterNode?>, pairs: seq<Tree>)
    requires |ns| / 2 == |pairs|
    ensures Done(ns, pairs, [], [], {})
  {
  }

  lemma DoneSnoc(ns: seq<FilterNode?>, pairs: seq<Tree>, outs: seq<FilterNode?>, trees: seq<Tree>, made: set<FilterNode>,
                 node: FilterNode, t: Tree)
    requires Done(ns, pairs, outs, trees, made) && node !in made
    requires |outs| < |ns| / 2 == |pairs| ==> t == pairs[|outs|] && Over(node, ns[2 * |outs|], ns[2 * |outs| + 1])
    ensures Done(ns, pairs, outs + [node], trees + [t], made + {node})
  {
    hide Over;
  }

  lemma HalfDone(ns: seq<FilterNode?>, pairs: seq<Tree>, outs: seq<FilterNode?>, trees: seq<Tree>, made: set<FilterNode>)
    requires Done(ns, pairs, outs, trees, made) && |ns| / 2 == |pairs| <= |outs| == |trees| && Grove(ns)
    requires forall k :: 0 <= k < |outs| ==> outs[k] != null && outs[k].Linked()
    requires forall l :: 0 <= l < |ns| ==> ns[l] != null && ns[l].below !! made
    ensures Grove(outs[..|pairs|])
    ensures forall k :: 0 <= k < |pairs| ==>
      outs[k] in made && trees[k] == pairs[k] && Over(outs[k], ns[2 * k], ns[2 * k + 1])
  {
    hide Grove, FilterNode.Linked, Over;
    GroveOver(ns, outs[..|pairs|]);
  }

  /** Entries i and i+1 joined into entry i/2. */
  method JoinInto(leaf: array<FilterNode?>, i: nat, oper: Oper, ghost ns: seq<FilterNode?>, ghost ts: seq<Tree>,
                  ghost outs: seq<FilterNode?>, ghost trees: seq<Tree>)
    returns (node: FilterNode, ghost t: Tree)
    requires Joining(oper) && Grove(ns) && i < |ns| == |ts| && i == 2 * |outs| && i + 1 < leaf.Length && |outs| == |trees|
    requires leaf[i] == ns[i] && leaf[i + 1] == EntryAt(ns, i + 1)
    requires forall k :: 0 <= k < |ns| ==> ns[k] != null && ns[k].Linked() && ns[k].View() == ts[k]
    requires forall k :: 0 <= k < |outs| ==> outs[k] != null && outs[k].Linked() && outs[k].View() == trees[k]
    modifies leaf
    ensures leaf[..] == old(leaf[..])[|outs| := node]
    ensures forall k :: 0 <= k < |ns| ==> ns[k].View() == ts[k]
    ensures node.Linked() && fresh(node)
    ensures forall k :: 0 <= k < |outs + [node]| ==> (outs + [node])[k].View() == (trees + [t])[k]
    ensures |outs| < |PairUp(ts, oper)| ==>
      i + 1 < |ns| && t == PairUp(ts, oper)[|outs|] && Over(node, ns[i], ns[i + 1])
  {
    hide PairUp, Joined, FilterNode.View, FilterNode.Linked, Over, Grove;
    node := JoinEntries(leaf[i], oper, leaf[i + 1], ns, i, ts);
    t := node.View();
    leaf[i / 2] := node;
  }

  method JoinEntries(l: FilterNode?, oper: Oper, r: FilterNode?, ghost ns: seq<FilterNode?>, ghost i: nat,
                     ghost ts: seq<Tree>)
    returns (node: FilterNode)
    requires Joining(oper) && Grove(ns) && i < |ns| == |ts| && l == ns[i] && r == EntryAt(ns, i + 1)
    requires forall k :: 0 <= k < |ns| ==> ns[k] != null && ns[k].Linked() && ns[k].View() == ts[k]
    ensures node.Linked() && fresh(node)
    ensures i + 1 < |ns| ==> node.View() == Joined(ts[i], oper, ts[i + 1]) && Over(node, ns[i], ns[i + 1])
  {
    hide MakeNode, Joined, FilterNode.View, FilterNode.Linked, Grove;
    ApartAt(ns, i);
    node := NewInner(l, oper, r);
    JoinNode(ViewOf(l), oper, ViewOf(r));
  }

  lemma JoinNode(l: Tree, oper: Oper, r: Tree)
    requires Joining(oper)
    ensures MakeNode(l, oper, r) == Some(Joined(l, oper, r))
  {
  }

  // ---- What the tree contains ----

  /** The leaves of joined nodes, left to right. */
  function LeavesOf(t: Tree): seq<Tree> {
    if t.Node? && Joining(t.oper) then LeavesOf(t.left) + LeavesOf(t.right) else [t]
  }

  function LeavesOfAll(ts: seq<Tree>): seq<Tree> {
    if ts == [] then [] else LeavesOf(ts[0]) + LeavesOfAll(ts[1..])
  }

  lemma {:induction false} PairUpLeaves(ts: seq<Tree>, oper: Oper)
    requires Joining(oper) && |ts| % 2 == 0
    ensures LeavesOfAll(PairUp(ts, oper)) == LeavesOfAll(ts)
    decreases |ts|
  {
    hide LeavesOf;
    if ts != [] {
      PairUpLeaves(ts[2..], oper);
      JoinedLeaves(ts[0], oper, ts[1]);
      assert ts[1..][1..] == ts[2..];
      assert (LeavesOf(ts[0]) + LeavesOf(ts[1])) + LeavesOfAll(ts[2..])
          == LeavesOf(ts[0]) + (LeavesOf(ts[1]) + LeavesOfAll(ts[2..]));
    }
  }

  lemma JoinedLeaves(l: Tree, oper: Oper, r: Tree)
    requires Joining(oper)
    ensures LeavesOf(Joined(l, oper, r)) == LeavesOf(l) + LeavesOf(r)
  {
  }

  /** What the halving keeps of n subtrees: the largest power of two not above n. */
  function Kept(n: nat): (k: nat)
    requires n >= 1
    ensures 1 <= k <= n
  {
    if n == 1 then 1 else 2 * Kept(n / 2)
  }

  /** Pairing a shorter prefix. */
  lemma PairUpPrefix(ts: seq<Tree>, oper: Oper, k: nat)
    requires 2 * k <= |ts|
    ensures PairUp(ts, oper)[..k] == PairUp(ts[..2 * k], oper)
  {
    var l, r := PairUp(ts, oper)[..k], PairUp(ts[..2 * k], oper);
    forall i | 0 <= i < k ensures l[i] == r[i] {
      assert ts[..2 * k][2 * i] == ts[2 * i] && ts[..2 * k][2 * i + 1] == ts[2 * i + 1];
    }
  }

  /** The tree's leaves are those of the first subtrees kept, each once, in order. */
  lemma {:induction false} HalvedLeaves(ts: seq<Tree>, oper: Oper)
    requires Joining(oper) && ts != []
    ensures LeavesOf(Halved(ts, oper)) == LeavesOfAll(ts[..Kept(|ts|)])
    decreases |ts|
  {
    hide LeavesOf, PairUp;
    if |ts| == 1 {
      assert ts[..1] == [ts[0]] && [ts[0]][1..] == [];
      assert LeavesOf(ts[0]) + [] == LeavesOf(ts[0]);
    } else {
      var k := Kept(|ts| / 2);
      HalvedLeaves(PairUp(ts, oper), oper);
      PairUpPrefix(ts, oper, k);
      PairUpLeaves(ts[..2 * k], oper);
    }
  }

  lemma {:induction false} AtomLeaves(ts: seq<Tree>)
    requires forall i :: 0 <= i < |ts| ==> ts[i].Node? && !Joining(ts[i].oper)
    ensures LeavesOfAll(ts) == ts
  {
    if ts != [] { AtomLeaves(ts[1..]); }
  }

  ghost predicate IsPow2(n: nat) { exists k: nat :: n == Pow2(k) }

  lemma {:induction false} KeptAll(n: nat)
    requires n >= 1
    ensures IsPow2(Kept(n)) && (Kept(n) == n <==> IsPow2(n))
  {
    if n == 1 {
      assert Pow2(0) == 1;
    } else {
      KeptAll(n / 2);
      var k: nat :| Kept(n / 2) == Pow2(k);
      assert Kept(n) == Pow2(k + 1);
      if IsPow2(n) {
        var j: nat :| n == Pow2(j);
        assert j > 0 && n / 2 == Pow2(j - 1);
      }
    }
  }

  /** Every field's leaf is in the tree, exactly once and in order, exactly when their number is a power of two: of three
      fields the last would be lost. */
  lemma EveryLeafOnceIff(template: Tree, oper: Oper, fields: seq<string>)
    requires template.Node? && !Joining(template.oper) && Joining(oper) && fields != []
    ensures LeavesOf(Halved(Leaves(template, fields), oper)) == Leaves(template, fields) <==> IsPow2(|fields|)
  {
    hide Halved, LeavesOf, Kept, IsPow2;
    var ts := Leaves(template, fields);
    var k := Kept(|ts|);
    HalvedLeaves(ts, oper);
    KeptAll(|ts|);
    AtomLeaves(ts[..k]);
    assert k == |ts| ==> ts[..k] == ts;
  }

  // ---- What the tree tests ----

  lemma JoinedEval(rec: Flow, l: Tree, oper: Oper, r: Tree)
    requires Joining(oper) && l.Node? && r.Node?
    ensures oper == OpOr ==> (EvalNode(rec, Joined(l, oper, r)) > 0 <==> EvalNode(rec, l) > 0 || EvalNode(rec, r) > 0)
    ensures oper == OpAnd ==> (EvalNode(rec, Joined(l, oper, r)) > 0 <==> EvalNode(rec, l) > 0 && EvalNode(rec, r) > 0)
  {
  }

  predicate AnyPositive(rec: Flow, ts: seq<Tree>) { exists i :: 0 <= i < |ts| && EvalNode(rec, ts[i]) > 0 }

  predicate AllPositive(rec: Flow, ts: seq<Tree>) { forall i :: 0 <= i < |ts| ==> EvalNode(rec, ts[i]) > 0 }

  lemma PairUpEval(rec: Flow, ts: seq<Tree>, oper: Oper)
    requires Joining(oper) && |ts| % 2 == 0 && forall i :: 0 <= i < |ts| ==> ts[i].Node?
    ensures oper == OpOr ==> (AnyPositive(rec, PairUp(ts, oper)) <==> AnyPositive(rec, ts))
    ensures oper == OpAnd ==> (AllPositive(rec, PairUp(ts, oper)) <==> AllPositive(rec, ts))
  {
    hide EvalNode, Joined, PairUp;
    var ps := PairUp(ts, oper);
    forall i | 0 <= i < |ps|
      ensures oper == OpOr ==> (EvalNode(rec, ps[i]) > 0 <==> EvalNode(rec, ts[2 * i]) > 0 || EvalNode(rec, ts[2 * i + 1]) > 0)
      ensures oper == OpAnd ==> (EvalNode(rec, ps[i]) > 0 <==> EvalNode(rec, ts[2 * i]) > 0 && EvalNode(rec, ts[2 * i + 1]) > 0)
    {
      JoinedEval(rec, ts[2 * i], oper, ts[2 * i + 1]);
    }
    if AnyPositive(rec, ts) && oper == OpOr {
      var j :| 0 <= j < |ts| && EvalNode(rec, ts[j]) > 0;
      assert EvalNode(rec, ps[j / 2]) > 0;
    }
    if AllPositive(rec, ps) && oper == OpAnd {
      forall j | 0 <= j < |ts| ensures EvalNode(rec, ts[j]) > 0 {
        assert EvalNode(rec, ps[j / 2]) > 0;
      }
    }
  }

  lemma {:induction false} HalvedEval(rec: Flow, ts: seq<Tree>, oper: Oper)
    requires Joining(oper) && ts != [] && forall i :: 0 <= i < |ts| ==> ts[i].Node?
    ensures oper == OpOr ==> (EvalNode(rec, Halved(ts, oper)) > 0 <==> AnyPositive(rec, ts[..Kept(|ts|)]))
    ensures oper == OpAnd ==> (EvalNode(rec, Halved(ts, oper)) > 0 <==> AllPositive(rec, ts[..Kept(|ts|)]))
    decreases |ts|
  {
    hide EvalNode, PairUp;
    if |ts| == 1 {
      assert ts[..1][0] == ts[0];
    } else {
      hide AnyPositive, AllPositive;
      var k := Kept(|ts| / 2);
      HalvedEval(rec, PairUp(ts, oper), oper);
      PairUpPrefix(ts, oper, k);
      PairUpEval(rec, ts[..2 * k], oper);
    }
  }

  /** For a power of two, the expansion tests the template on all the fields: one of them for OR, every one for AND. */
  lemma ExpansionTestsAllFields(rec: Flow, template: Tree, oper: Oper, fields: seq<string>)
    requires template.Node? && Joining(oper) && fields != [] && IsPow2(|fields|)
    ensures var positive := EvalNode(rec, Halved(Leaves(template, fields), oper)) > 0;
            && (oper == OpOr ==>
                  (positive <==> exists i :: 0 <= i < |fields| && EvalNode(rec, template.(field := fields[i])) > 0))
            && (oper == OpAnd ==>
                  (positive <==> forall i :: 0 <= i < |fields| ==> EvalNode(rec, template.(field := fields[i])) > 0))
  {
    hide EvalNode, Halved, Kept, IsPow2;
    var ts := Leaves(template, fields);
    HalvedEval(rec, ts, oper);
    KeptAll(|ts|);
    assert ts[..|ts|] == ts;
  }
}
