/** From a rule file to its running pipeline: the stages that the built tree starts with, and what each selector is
    sent. */
module Deployment {
  import opened Ast
  import opened BranchNames
  import opened Builder
  import opened Configuration
  import opened Records
  import opened RulePaths
  import opened Sequences
  import opened StageSequence
  import opened Wrappers
  import AF = AggFunctions
  import Aggregation
  import Filter
  import P = Pipeline

  /** What a filter text accepts. */
  type Filtering = string -> Record -> bool

  /** A stage as it starts. */
  function StageOf(h: Head, f: Filtering): P.Stage {
    match h
    case FilterHead(options) => P.FilterStage(f(options))
    case AggHead(options) =>
      (match Started(options)
       case None => P.FaultStage
       case Some(cfg) => P.AggStage(P.RawAgg(cfg, map[]), false))
    case SelectorHead(_) => P.SelectorStage([])
  }

  function HeadOf(node: Node): Head {
    match node
    case FilterNode(options, _) => FilterHead(options)
    case AggNode(options, _) => AggHead(options)
    case SelectorNode(options) => SelectorHead(options)
  }

  function Instance(node: Node, f: Filtering): P.Tree {
    P.Tree(StageOf(HeadOf(node), f), if node.SelectorNode? then [] else Instances(node.next, f))
  }

  function Instances(nodes: seq<Node>, f: Filtering): (r: seq<P.Tree>)
    ensures |r| == |nodes|
  {
    if nodes == [] then [] else [Instance(nodes[0], f)] + Instances(nodes[1..], f)
  }

  lemma {:induction false} InstancesAt(nodes: seq<Node>, f: Filtering, i: nat)
    requires i < |nodes|
    ensures Instances(nodes, f)[i] == Instance(nodes[i], f)
  {
    hide Instance;
    if i > 0 { InstancesAt(nodes[1..], f, i - 1); }
  }

  function InstanceLine(heads: seq<Head>, f: Filtering): (r: seq<P.Stage>)
    ensures |r| == |heads| && forall i :: 0 <= i < |heads| ==> r[i] == StageOf(heads[i], f)
  {
    if heads == [] then [] else [StageOf(heads[0], f)] + InstanceLine(heads[1..], f)
  }

  /** The addresses of the selectors in depth-first order, the first node having child number i. */
  function Selectors(nodes: seq<Node>, i: nat): seq<seq<nat>> {
    if nodes == [] then [] else SelectorsOf(nodes[0], i) + Selectors(nodes[1..], i + 1)
  }

  function SelectorsOf(node: Node, i: nat): seq<seq<nat>> {
    if node.SelectorNode? then [[i]] else Prepend(i, Selectors(node.next, 0))
  }

  lemma {:induction false} SelectorCount(nodes: seq<Node>, i: nat)
    ensures |Selectors(nodes, i)| == |ForestPaths(nodes)|
    decreases nodes
  {
    if nodes != [] {
      if !nodes[0].SelectorNode? { SelectorCount(nodes[0].next, 0); }
      SelectorCount(nodes[1..], i + 1);
    }
  }

  lemma {:induction false} SelectorLines(all: seq<Node>, i: nat, j: nat, f: Filtering)
    requires i <= |all| && j < |Selectors(all[i..], i)| == |ForestPaths(all[i..])|
    ensures P.Line(Instances(all, f), Selectors(all[i..], i)[j]) == InstanceLine(ForestPaths(all[i..])[j], f)
    decreases all, |all| - i, 1
  {
    hide Instances, P.Line, InstanceLine, NodePaths, SelectorsOf;
    if i < |all| {
      assert all[i..][0] == all[i] && all[i..][1..] == all[i + 1..];
      NodeLines(all, i, j, f);
      var n := |NodePaths(all[i])|;
      if j >= n {
        SelectorCount(all[i + 1..], i + 1);
        SelectorLines(all, i + 1, j - n, f);
      }
    }
  }

  lemma {:induction false} NodeLines(all: seq<Node>, i: nat, j: nat, f: Filtering)
    requires i < |all|
    ensures |SelectorsOf(all[i], i)| == |NodePaths(all[i])|
    ensures j < |NodePaths(all[i])| ==>
      P.Line(Instances(all, f), SelectorsOf(all[i], i)[j]) == InstanceLine(NodePaths(all[i])[j], f)
    decreases all, |all| - i, 0
  {
    hide Instances, P.Line, InstanceLine, ForestPaths, Selectors, HeadOf;
    var node := all[i];
    if node.SelectorNode? {
      LeafLine(all, i, f);
    } else {
      SelectorCount(node.next, 0);
      assert node.next[0..] == node.next;
      if j < |NodePaths(node)| {
        SelectorLines(node.next, 0, j, f);
        InnerLine(all, i, j, f);
      }
    }
  }

  lemma LeafLine(all: seq<Node>, i: nat, f: Filtering)
    requires i < |all| && all[i].SelectorNode?
    ensures NodePaths(all[i]) == [[HeadOf(all[i])]]
    ensures P.Line(Instances(all, f), [i]) == InstanceLine([HeadOf(all[i])], f)
  {
    hide StageOf, Instances;
    InstancesAt(all, f, i);
    assert [i][1..] == [] && [HeadOf(all[i])][1..] == [];
  }

  lemma InnerLine(all: seq<Node>, i: nat, j: nat, f: Filtering)
    requires i < |all| && !all[i].SelectorNode?
    requires |Selectors(all[i].next, 0)| == |ForestPaths(all[i].next)| && j < |ForestPaths(all[i].next)|
    requires P.Line(Instances(all[i].next, f), Selectors(all[i].next, 0)[j])
          == InstanceLine(ForestPaths(all[i].next)[j], f)
    ensures P.Line(Instances(all, f), Prepend(i, Selectors(all[i].next, 0))[j]) == InstanceLine(NodePaths(all[i])[j], f)
  {
    hide StageOf, Instances;
    InstancesAt(all, f, i);
    var addr, path := Selectors(all[i].next, 0)[j], ForestPaths(all[i].next)[j];
    assert ([i] + addr)[1..] == addr;
    assert NodePaths(all[i])[j] == [HeadOf(all[i])] + path;
    assert ([HeadOf(all[i])] + path)[1..] == path;
  }

  /** The end-to-end theorem. Whatever records arrive and whenever the aggregators' threads act, the stages on the way to
      the i-th selector are, at every moment, as if the i-th path of the rule file ran alone. */
  lemma SelectorsRunTheirRules(env: Env, mains: seq<Main>, f: Filtering, es: seq<P.Event>, i: nat)
    requires i < |RoutesMains(mains, [])|
    ensures var root := CompileMains(env, mains, [], 0).nodes;
            && |Selectors(root, 0)| == |RoutesMains(mains, [])|
            && var addr := Selectors(root, 0)[i];
               P.Line(P.RunForest(Instances(root, f), es), addr)
                 == P.RunLine(InstanceLine(Rendered(env, RoutesMains(mains, [])[i], [], NoWindow, i), f), addr, es)
  {
    hide CompileMains, Instances, Selectors, ForestPaths, Rendered;
    var root := CompileMains(env, mains, [], 0).nodes;
    CompileRoutesMains(env, mains, [], 0);
    assert root[0..] == root;
    SelectorCount(root, 0);
    SelectorLines(root, 0, i, f);
    P.LinesRunAlone(Instances(root, f), Selectors(root, 0)[i], es);
  }

  // ---- Shutdown ----

  lemma {:induction false} RunLineKinds(line: seq<P.Stage>, addr: seq<nat>, es: seq<P.Event>)
    ensures var r := P.RunLine(line, addr, es);
            |r| == |line| && forall i :: 0 <= i < |line| ==> (r[i].AggStage? <==> line[i].AggStage?)
  {
    hide P.StepLine;
    if es != [] {
      RunLineKinds(line, addr, es[..|es| - 1]);
      P.StepLineKinds(P.RunLine(line, addr, es[..|es| - 1]), addr, es[|es| - 1]);
    }
  }

  predicate SingleAggStage(line: seq<P.Stage>) {
    forall j, k :: 0 <= j < |line| && 0 <= k < |line| && line[j].AggStage? && line[k].AggStage? ==> j == k
  }

  lemma AggStageOf(h: Head, f: Filtering)
    ensures StageOf(h, f).AggStage? ==> h.AggHead?
  {
  }

  lemma SingleLine(heads: seq<Head>, f: Filtering, addr: seq<nat>, es: seq<P.Event>)
    requires SingleAggHead(heads)
    ensures SingleAggStage(P.RunLine(InstanceLine(heads, f), addr, es))
  {
    hide P.RunLine, StageOf;
    var start, line := InstanceLine(heads, f), P.RunLine(InstanceLine(heads, f), addr, es);
    RunLineKinds(start, addr, es);
    forall j, k | 0 <= j < |line| && 0 <= k < |line| && line[j].AggStage? && line[k].AggStage? ensures j == k {
      AggStageOf(heads[j], f);
      AggStageOf(heads[k], f);
    }
  }

  /** Rules that pass the sequence check have at most one aggregator on the way to any selector. */
  lemma OneAggregatorEach(env: Env, mains: seq<Main>, f: Filtering, es: seq<P.Event>, i: nat)
    requires AllSensible(PathsMains(mains)) && i < |RoutesMains(mains, [])|
    ensures var root := CompileMains(env, mains, [], 0).nodes;
            && i < |Selectors(root, 0)|
            && SingleAggStage(P.Line(P.RunForest(Instances(root, f), es), Selectors(root, 0)[i]))
  {
    hide CompileMains, Instances, Selectors, Rendered, P.RunForest, P.RunLine, P.Line, Increasing;
    var route := RoutesMains(mains, [])[i];
    SelectorsRunTheirRules(env, mains, f, es, i);
    RouteKindsMains(mains, []);
    assert Sensible(PathsMains(mains)[i]);
    RenderedSingleAgg(env, route, [], NoWindow, i);
    SingleLine(Rendered(env, route, [], NoWindow, i), f, Selectors(CompileMains(env, mains, [], 0).nodes, 0)[i], es);
  }

  lemma SingleApart(line: seq<P.Stage>, k: nat)
    requires SingleAggStage(line) && k < |line| && line[k].AggStage?
    ensures P.NoAggregator(line[..k]) && P.NoAggregator(line[k + 1..])
  {
  }

  /** A rule file that passes the sequence check loses nothing on shutdown: whatever has happened before, and in whatever
      order the aggregators of all branches are destroyed, the groups stored by the aggregator on the way to a selector
      are each sent once through the stages behind it. */
  lemma ShutdownLosesNothing(env: Env, mains: seq<Main>, f: Filtering, es: seq<P.Event>, i: nat, k: nat,
                             before: seq<P.Event>, order: seq<Aggregation.KeyBytes>, after: seq<P.Event>)
    requires AllSensible(PathsMains(mains)) && i < |RoutesMains(mains, [])|
    requires i < |Selectors(CompileMains(env, mains, [], 0).nodes, 0)|
    requires var root := CompileMains(env, mains, [], 0).nodes;
             var addr := Selectors(root, 0)[i];
             var line := P.Line(P.RunForest(Instances(root, f), es), addr);
             && k < |line| && line[k].AggStage?
             && Aggregation.Enumerates(order, line[k].agg.store.Keys)
             && forall e :: e in before + after ==> e.Eviction? && e.at != addr[..k + 1]
    ensures var root := CompileMains(env, mains, [], 0).nodes;
            var addr := Selectors(root, 0)[i];
            var ts := P.RunForest(Instances(root, f), es);
            P.Line(P.RunForest(ts, [P.Halt] + before + [P.Eviction(addr[..k + 1], order)] + after), addr)
              == P.Delivered(P.Line(ts, addr), k, order)
  {
    hide CompileMains, Instances, Selectors, P.RunForest, P.RunLine, P.Line, P.Delivered, Aggregation.Enumerates,
         SingleAggStage, P.NoAggregator;
    var addr := Selectors(CompileMains(env, mains, [], 0).nodes, 0)[i];
    var ts := P.RunForest(Instances(CompileMains(env, mains, [], 0).nodes, f), es);
    OneAggregatorEach(env, mains, f, es, i);
    SingleApart(P.Line(ts, addr), k);
    P.ShutdownRun(P.Line(ts, addr), addr, k, before, order, after);
    P.LinesRunAlone(ts, addr, [P.Halt] + before + [P.Eviction(addr[..k + 1], order)] + after);
  }

  /** An aggregator of the rules starts with the configuration the rules describe, unless they count the different values
      of a time. */
  lemma AggregatorStartsAsRuled(keys: seq<Unirec>, w: WindowSpec, items: seq<AggrItem>, f: Filtering)
    requires w.range < 0x1_0000_0000 && Registrable(WantedKeys(keys) + WantedItems(items))
    ensures StageOf(AggHead(AggOptions(keys, w, items)), f)
         == if CountsTime(items) then P.FaultStage
            else P.AggStage(P.RawAgg(AF.Config(RuleKeys(keys), RuleFields(items), RuleDistinct(items), RuleWindow(w)),
                                     map[]), false)
  {
    hide AggOptions, Started, Registrable, CountsTime;
    AggregatorRunsAsRuled(keys, w, items);
  }

  // ---- Filter stages ----

  /** The filter stage's test: the tree built for the text is positive. A text that is empty or rejected passes nothing. */
  function TreeFilter(parse: string -> Option<Filter.Expr>, flow: Record -> Filter.Flow): Filtering {
    (text: string) => (r: Record) =>
      && parse(text).Some?
      && Filter.Compile(parse(text).value).Some?
      && Filter.EvalNode(flow(r), Filter.Compile(parse(text).value).value) > 0
  }

  /** A filter stage of the running tree passes a record exactly when the expression in its text is true of it. */
  lemma FilterStagePasses(parse: string -> Option<Filter.Expr>, flow: Record -> Filter.Flow, text: string, r: Record)
    requires parse(text).Some? && Filter.Compile(parse(text).value).Some?
    requires Filter.Typed(flow(r)) && Filter.Plain(parse(text).value)
    ensures var s := StageOf(FilterHead(text), TreeFilter(parse, flow));
            s.FilterStage? && (s.passes(r) <==> Filter.Meaning(flow(r), parse(text).value))
    ensures P.React(StageOf(FilterHead(text), TreeFilter(parse, flow)), r).outs
         == if Filter.Meaning(flow(r), parse(text).value) then [r] else []
  {
    hide Filter.Compile, Filter.EvalNode, Filter.Meaning, Filter.Plain, Filter.Typed;
    Filter.CompileCorrect(flow(r), parse(text).value);
  }
}
