/** What the builder makes, path by path: every root-to-selector path of the rules becomes one root-to-selector path
    of the stage tree, and the selectors are numbered in depth-first order. */
module RulePaths {
  import opened Ast
  import opened BranchNames
  import opened Builder
  import opened Sequences
  import opened StageSequence

  /** One stage on a path, with the branch names before it where they matter. */
  datatype Part =
    | PFilter(body: string)
    | PGrouper(keys: seq<Unirec>)
    | PWindow(window: WindowSpec)
    | PAggregator(items: seq<AggrItem>)
    | PGroupFilter(body: string, path: seq<string>)
    | PSelector(sel: seq<SelItem>, path: seq<string>)

  function PartOf(s: Stage, path: seq<string>): Part {
    match s
    case Filter(body, _) => PFilter(body)
    case Grouper(keys, _) => PGrouper(keys)
    case Window(kind, range, _) => PWindow(WindowSpec(kind, range))
    case Aggregator(items, _) => PAggregator(items)
    case GroupFilter(body, _) => PGroupFilter(body, path)
    case Selector(items) => PSelector(items, path)
  }

  /** The paths from this stage to a selector, left to right. */
  function Routes(s: Stage, path: seq<string>): seq<seq<Part>>
    decreases s
  {
    if s.Selector? then [[PartOf(s, path)]] else Prepend(PartOf(s, path), RoutesSucc(s.succ, path))
  }

  function RoutesSucc(succ: Succ, path: seq<string>): seq<seq<Part>>
    decreases succ
  {
    match succ
    case Then(s) => Routes(s, path)
    case Split(bs) => RoutesBranches(bs, path)
  }

  function RoutesBranches(bs: seq<Branch>, path: seq<string>): seq<seq<Part>>
    decreases bs
  {
    if bs == [] then [] else Routes(bs[0].stage, path + [bs[0].name]) + RoutesBranches(bs[1..], path)
  }

  function RoutesMain(m: Main, path: seq<string>): seq<seq<Part>>
    decreases m
  {
    match m.body
    case Pipeline(s) => Routes(s, path)
    case Nested(ms) => RoutesMains(ms, path)
  }

  function RoutesMains(ms: seq<Main>, path: seq<string>): seq<seq<Part>>
    decreases ms
  {
    if ms == [] then [] else RoutesMain(ms[0], path + [ms[0].name]) + RoutesMains(ms[1..], path)
  }

  // ---- Paths of the stage tree ----

  datatype Head = FilterHead(options: string) | AggHead(options: string) | SelectorHead(options: string)

  function NodePaths(node: Node): seq<seq<Head>> {
    match node
    case FilterNode(options, next) => Prepend(FilterHead(options), ForestPaths(next))
    case AggNode(options, next) => Prepend(AggHead(options), ForestPaths(next))
    case SelectorNode(options) => [[SelectorHead(options)]]
  }

  function ForestPaths(nodes: seq<Node>): seq<seq<Head>> {
    if nodes == [] then [] else NodePaths(nodes[0]) + ForestPaths(nodes[1..])
  }

  lemma {:induction false} ForestPathsAppend(a: seq<Node>, b: seq<Node>)
    ensures ForestPaths(a + b) == ForestPaths(a) + ForestPaths(b)
  {
    hide NodePaths;
    if a == [] {
      assert a + b == b;
    } else {
      ForestPathsAppend(a[1..], b);
      assert (a + b)[1..] == a[1..] + b;
      assert NodePaths(a[0]) + (ForestPaths(a[1..]) + ForestPaths(b))
          == (NodePaths(a[0]) + ForestPaths(a[1..])) + ForestPaths(b);
    }
  }

  /** The stage made for this part, if any: groupers and windows make none. */
  function Own(env: Env, p: Part, keys: seq<Unirec>, w: Enclosing, id: nat): (r: seq<Head>)
    ensures r == [] <==> p.PGrouper? || p.PWindow?
    ensures |r| <= 1
  {
    match p
    case PFilter(body) => [FilterHead(body)]
    case PGrouper(_) => []
    case PWindow(_) => []
    case PAggregator(items) => [AggHead(AggOptions(keys, WindowOf(w), items))]
    case PGroupFilter(body, path) => [FilterHead(GroupFilterOptions(env, body, path))]
    case PSelector(items, path) => [SelectorHead(SelectorOptions(env, items, path, id))]
  }

  function KeysAfter(p: Part, keys: seq<Unirec>): seq<Unirec> { if p.PGrouper? then p.keys else keys }

  function WindowAfter(p: Part, w: Enclosing): Enclosing { if p.PWindow? then In(p.window) else w }

  /** What one path alone should become: groupers and windows disappear into the options of the aggregators after
      them, the selector carries its number. */
  function Rendered(env: Env, parts: seq<Part>, keys: seq<Unirec>, w: Enclosing, id: nat): seq<Head> {
    if parts == [] then []
    else
      var own := Own(env, parts[0], keys, w, id);
      own + Rendered(env, parts[1..], KeysAfter(parts[0], keys), WindowAfter(parts[0], w), id)
  }

  function RenderAll(env: Env, ps: seq<seq<Part>>, keys: seq<Unirec>, w: Enclosing, n: nat): (r: seq<seq<Head>>)
    ensures |r| == |ps| && forall i :: 0 <= i < |ps| ==> r[i] == Rendered(env, ps[i], keys, w, n + i)
  {
    if ps == [] then [] else [Rendered(env, ps[0], keys, w, n)] + RenderAll(env, ps[1..], keys, w, n + 1)
  }

  lemma RenderAllAppend(env: Env, a: seq<seq<Part>>, b: seq<seq<Part>>, keys: seq<Unirec>, w: Enclosing, n: nat)
    ensures RenderAll(env, a + b, keys, w, n) == RenderAll(env, a, keys, w, n) + RenderAll(env, b, keys, w, n + |a|)
  {
    hide Rendered;
    var l, r := RenderAll(env, a + b, keys, w, n), RenderAll(env, a, keys, w, n) + RenderAll(env, b, keys, w, n + |a|);
    forall i | 0 <= i < |l| ensures l[i] == r[i] {
      assert (a + b)[i] == if i < |a| then a[i] else b[i - |a|];
    }
  }

  /** One more part in front of every path: an own stage, or other keys or another window for the rest. */
  lemma RenderAllPrepend(env: Env, p: Part, ps: seq<seq<Part>>, keys: seq<Unirec>, w: Enclosing, n: nat)
    requires !p.PSelector?
    ensures var rest := RenderAll(env, ps, KeysAfter(p, keys), WindowAfter(p, w), n);
            RenderAll(env, Prepend(p, ps), keys, w, n)
              == if Own(env, p, keys, w, n) == [] then rest else Prepend(Own(env, p, keys, w, n)[0], rest)
  {
    hide KeysAfter, WindowAfter, AggOptions, GroupFilterOptions;
    var rest := RenderAll(env, ps, KeysAfter(p, keys), WindowAfter(p, w), n);
    var l := RenderAll(env, Prepend(p, ps), keys, w, n);
    var own := Own(env, p, keys, w, n);
    forall i | 0 <= i < |ps| ensures l[i] == own + rest[i] {
      assert ([p] + ps[i])[0] == p && ([p] + ps[i])[1..] == ps[i];
    }
    if own == [] {
      forall i | 0 <= i < |ps| ensures l[i] == rest[i] { assert own + rest[i] == rest[i]; }
    } else {
      assert own == [own[0]];
      assert l == Prepend(own[0], rest);
    }
  }

  // ---- The theorem ----

  lemma {:induction false} CompileRoutes(env: Env, s: Stage, path: seq<string>, keys: seq<Unirec>, w: Enclosing, n: nat)
    ensures var c := Compile(env, s, path, keys, w, n);
            && ForestPaths(c.nodes) == RenderAll(env, Routes(s, path), keys, w, n)
            && c.n == n + |Routes(s, path)|
    decreases s
  {
    hide AggOptions, GroupFilterOptions, SelectorOptions, RenderAll, CompileSucc;
    if s.Selector? {
      var c := Compile(env, s, path, keys, w, n);
      var p := PartOf(s, path);
      SingleForest(c.nodes[0]);
      assert [p][1..] == [];
      assert Rendered(env, [p], keys, w, n) == [SelectorHead(SelectorOptions(env, s.items, path, n))];
      assert RenderAll(env, [[p]], keys, w, n) == [Rendered(env, [p], keys, w, n)];
    } else {
      RenderAllPrepend(env, PartOf(s, path), RoutesSucc(s.succ, path), keys, w, n);
      if s.Grouper? {
        CompileRoutesSucc(env, s.succ, path, s.keys, w, n);
      } else if s.Window? {
        CompileRoutesSucc(env, s.succ, path, keys, In(WindowSpec(s.kind, s.range)), n);
      } else {
        CompileRoutesSucc(env, s.succ, path, keys, w, n);
        SingleForest(Compile(env, s, path, keys, w, n).nodes[0]);
      }
    }
  }

  lemma SingleForest(node: Node)
    ensures ForestPaths([node]) == NodePaths(node)
  {
    assert [node][1..] == [];
    assert NodePaths(node) + [] == NodePaths(node);
  }

  lemma JoinRoutes(env: Env, a: seq<Node>, b: seq<Node>, ra: seq<seq<Part>>, rb: seq<seq<Part>>, keys: seq<Unirec>,
                   w: Enclosing, n: nat)
    requires ForestPaths(a) == RenderAll(env, ra, keys, w, n)
    requires ForestPaths(b) == RenderAll(env, rb, keys, w, n + |ra|)
    ensures ForestPaths(a + b) == RenderAll(env, ra + rb, keys, w, n)
  {
    hide ForestPaths, RenderAll;
    ForestPathsAppend(a, b);
    RenderAllAppend(env, ra, rb, keys, w, n);
  }

  lemma {:induction false} CompileRoutesSucc(env: Env, succ: Succ, path: seq<string>, keys: seq<Unirec>, w: Enclosing,
                                             n: nat)
    ensures var c := CompileSucc(env, succ, path, keys, w, n);
            && ForestPaths(c.nodes) == RenderAll(env, RoutesSucc(succ, path), keys, w, n)
            && c.n == n + |RoutesSucc(succ, path)|
    decreases succ
  {
    hide Compile, RenderAll;
    match succ
    case Then(s) => CompileRoutes(env, s, path, keys, w, n);
    case Split(bs) => CompileRoutesBranches(env, bs, path, keys, w, n);
  }

  lemma {:induction false} CompileRoutesBranches(env: Env, bs: seq<Branch>, path: seq<string>, keys: seq<Unirec>,
                                                 w: Enclosing, n: nat)
    ensures var c := CompileBranches(env, bs, path, keys, w, n);
            && ForestPaths(c.nodes) == RenderAll(env, RoutesBranches(bs, path), keys, w, n)
            && c.n == n + |RoutesBranches(bs, path)|
    decreases bs
  {
    hide Compile, Routes, NodePaths, RenderAll;
    if bs != [] {
      var inner := path + [bs[0].name];
      var head := Compile(env, bs[0].stage, inner, keys, w, n);
      var tail := CompileBranches(env, bs[1..], path, keys, w, head.n);
      CompileRoutes(env, bs[0].stage, inner, keys, w, n);
      CompileRoutesBranches(env, bs[1..], path, keys, w, head.n);
      JoinRoutes(env, head.nodes, tail.nodes, Routes(bs[0].stage, inner), RoutesBranches(bs[1..], path), keys, w, n);
    }
  }

  lemma {:induction false} CompileRoutesMain(env: Env, m: Main, path: seq<string>, n: nat)
    ensures var c := CompileMain(env, m, path, n);
            && ForestPaths(c.nodes) == RenderAll(env, RoutesMain(m, path), [], NoWindow, n)
            && c.n == n + |RoutesMain(m, path)|
    decreases m
  {
    hide Compile, RenderAll;
    match m.body
    case Pipeline(s) => CompileRoutes(env, s, path, [], NoWindow, n);
    case Nested(ms) => CompileRoutesMains(env, ms, path, n);
  }

  /** The i-th root-to-selector path of the built tree is the i-th path of the rules, rendered on its own. */
  lemma {:induction false} CompileRoutesMains(env: Env, ms: seq<Main>, path: seq<string>, n: nat)
    ensures var c := CompileMains(env, ms, path, n);
            && ForestPaths(c.nodes) == RenderAll(env, RoutesMains(ms, path), [], NoWindow, n)
            && c.n == n + |RoutesMains(ms, path)|
    decreases ms
  {
    hide CompileMain, RoutesMain, NodePaths, RenderAll;
    if ms != [] {
      var inner := path + [ms[0].name];
      var head := CompileMain(env, ms[0], inner, n);
      var tail := CompileMains(env, ms[1..], path, head.n);
      CompileRoutesMain(env, ms[0], inner, n);
      CompileRoutesMains(env, ms[1..], path, head.n);
      JoinRoutes(env, head.nodes, tail.nodes, RoutesMain(ms[0], inner), RoutesMains(ms[1..], path), [], NoWindow, n);
    }
  }

  // ---- Kinds on a path ----

  function PartKind(p: Part): Kind {
    match p
    case PFilter(_) => Fi
    case PGrouper(_) => Gr
    case PWindow(_) => Wi
    case PAggregator(_) => Ag
    case PGroupFilter(_, _) => Gf
    case PSelector(_, _) => Se
  }

  function PartKinds(parts: seq<Part>): (r: seq<Kind>)
    ensures |r| == |parts| && forall i :: 0 <= i < |parts| ==> r[i] == PartKind(parts[i])
  {
    if parts == [] then [] else [PartKind(parts[0])] + PartKinds(parts[1..])
  }

  /** The same paths, seen as kinds only, are the ones the sequence check looks at. */
  predicate SameKinds(routes: seq<seq<Part>>, paths: seq<seq<Kind>>) {
    |routes| == |paths| && forall i :: 0 <= i < |routes| ==> PartKinds(routes[i]) == paths[i]
  }

  lemma SameKindsPrepend(p: Part, routes: seq<seq<Part>>, paths: seq<seq<Kind>>)
    requires SameKinds(routes, paths)
    ensures SameKinds(Prepend(p, routes), Prepend(PartKind(p), paths))
  {
    forall i | 0 <= i < |routes| ensures PartKinds([p] + routes[i]) == [PartKind(p)] + paths[i] {
      assert ([p] + routes[i])[1..] == routes[i];
    }
  }

  lemma SameKindsAppend(r: seq<seq<Part>>, p: seq<seq<Kind>>, r': seq<seq<Part>>, p': seq<seq<Kind>>)
    requires SameKinds(r, p) && SameKinds(r', p')
    ensures SameKinds(r + r', p + p')
  {
    hide PartKinds;
  }

  lemma {:induction false} RouteKinds(s: Stage, path: seq<string>)
    ensures SameKinds(Routes(s, path), Paths(s))
    decreases s
  {
    hide SameKinds;
    assert PartKind(PartOf(s, path)) == KindOf(s);
    if s.Selector? {
      SingleRoute(PartOf(s, path));
    } else {
      match s.succ {
        case Then(t) => RouteKinds(t, path);
        case Split(bs) => RouteKindsBranches(bs, path);
      }
      SameKindsPrepend(PartOf(s, path), RoutesSucc(s.succ, path), PathsSucc(s.succ));
    }
  }

  lemma SingleRoute(p: Part)
    ensures SameKinds([[p]], [[PartKind(p)]])
  {
    assert [p][1..] == [];
    assert PartKinds([p]) == [PartKind(p)];
  }

  lemma {:induction false} RouteKindsBranches(bs: seq<Branch>, path: seq<string>)
    ensures SameKinds(RoutesBranches(bs, path), PathsBranches(bs))
    decreases bs
  {
    hide Routes, Paths;
    if bs != [] {
      RouteKinds(bs[0].stage, path + [bs[0].name]);
      RouteKindsBranches(bs[1..], path);
      SameKindsAppend(Routes(bs[0].stage, path + [bs[0].name]), Paths(bs[0].stage),
                      RoutesBranches(bs[1..], path), PathsBranches(bs[1..]));
    }
  }

  lemma {:induction false} RouteKindsMain(m: Main, path: seq<string>)
    ensures SameKinds(RoutesMain(m, path), PathsMain(m))
    decreases m
  {
    hide SameKinds, Routes, Paths;
    match m.body
    case Pipeline(s) => RouteKinds(s, path);
    case Nested(ms) => RouteKindsMains(ms, path);
  }

  lemma {:induction false} RouteKindsMains(ms: seq<Main>, path: seq<string>)
    ensures SameKinds(RoutesMains(ms, path), PathsMains(ms))
    decreases ms
  {
    hide RoutesMain, PathsMain;
    if ms != [] {
      RouteKindsMain(ms[0], path + [ms[0].name]);
      RouteKindsMains(ms[1..], path);
      SameKindsAppend(RoutesMain(ms[0], path + [ms[0].name]), PathsMain(ms[0]),
                      RoutesMains(ms[1..], path), PathsMains(ms[1..]));
    }
  }

  predicate NoAggHead(heads: seq<Head>) { forall i :: 0 <= i < |heads| ==> !heads[i].AggHead? }

  /** At most one aggregator. */
  predicate SingleAggHead(heads: seq<Head>) {
    forall i, j :: 0 <= i < j < |heads| ==> !(heads[i].AggHead? && heads[j].AggHead?)
  }

  lemma {:induction false} RenderedNoAgg(env: Env, parts: seq<Part>, keys: seq<Unirec>, w: Enclosing, id: nat)
    requires Ag !in PartKinds(parts)
    ensures NoAggHead(Rendered(env, parts, keys, w, id))
    decreases |parts|
  {
    hide AggOptions, GroupFilterOptions, SelectorOptions;
    if parts != [] {
      assert PartKind(parts[0]) == PartKinds(parts)[0];
      assert PartKinds(parts)[1..] == PartKinds(parts[1..]);
      RenderedNoAgg(env, parts[1..], KeysAfter(parts[0], keys), WindowAfter(parts[0], w), id);
    }
  }

  lemma {:induction false} RenderedSingleAgg(env: Env, parts: seq<Part>, keys: seq<Unirec>, w: Enclosing, id: nat)
    requires Increasing(PartKinds(parts))
    ensures SingleAggHead(Rendered(env, parts, keys, w, id))
    decreases |parts|
  {
    hide AggOptions, GroupFilterOptions, SelectorOptions, Own;
    if parts != [] {
      var ks := PartKinds(parts);
      assert ks[1..] == PartKinds(parts[1..]);
      var k', w' := KeysAfter(parts[0], keys), WindowAfter(parts[0], w);
      RenderedSingleAgg(env, parts[1..], k', w', id);
      OwnKind(env, parts[0], keys, w, id);
      if parts[0].PAggregator? {
        assert forall i :: 1 <= i < |ks| ==> Rank(ks[0]) < Rank(ks[i]);
        RenderedNoAgg(env, parts[1..], k', w', id);
      }
    }
  }

  lemma OwnKind(env: Env, p: Part, keys: seq<Unirec>, w: Enclosing, id: nat)
    ensures forall i :: 0 <= i < |Own(env, p, keys, w, id)| ==> (Own(env, p, keys, w, id)[i].AggHead? <==> p.PAggregator?)
  {
  }

  // ---- Counting output interfaces ----

  /** The visitor that counts selectors while parsing. */
  class InterfaceCounter {
    var numberOfOutputInterfaces: nat

    constructor ()
      ensures numberOfOutputInterfaces == 0
    {
      numberOfOutputInterfaces := 0;
    }

    method VisitStage(s: Stage, ghost path: seq<string>)
      modifies this
      ensures numberOfOutputInterfaces == old(numberOfOutputInterfaces) + |Routes(s, path)|
      decreases s
    {
      if s.Selector? {
        numberOfOutputInterfaces := numberOfOutputInterfaces + 1;
      } else {
        match s.succ
        case Then(t) => VisitStage(t, path);
        case Split(bs) => VisitBranches(bs, path);
      }
    }

    method VisitBranches(bs: seq<Branch>, ghost path: seq<string>)
      modifies this
      ensures numberOfOutputInterfaces == old(numberOfOutputInterfaces) + |RoutesBranches(bs, path)|
      decreases bs
    {
      if bs != [] {
        VisitStage(bs[0].stage, path + [bs[0].name]);
        VisitBranches(bs[1..], path);
      }
    }

    method VisitMain(m: Main, ghost path: seq<string>)
      modifies this
      ensures numberOfOutputInterfaces == old(numberOfOutputInterfaces) + |RoutesMain(m, path)|
      decreases m
    {
      match m.body
      case Pipeline(s) => VisitStage(s, path);
      case Nested(ms) => VisitMains(ms, path);
    }

    method VisitMains(ms: seq<Main>, ghost path: seq<string>)
      modifies this
      ensures numberOfOutputInterfaces == old(numberOfOutputInterfaces) + |RoutesMains(ms, path)|
      decreases ms
    {
      if ms != [] {
        VisitMain(ms[0], path + [ms[0].name]);
        VisitMains(ms[1..], path);
      }
    }
  }

  /** The whole front end: a file whose sequences and names pass is counted and built, and the built tree has exactly
      its root-to-selector paths, each with its own keys, window, aliases and number. */
  method CompileRules(mains: seq<Main>, env: Env) returns (ok: bool, root: seq<Node>, interfaces: nat)
    requires mains != [] && forall m :: m in mains ==> WellFormedMain(m)
    ensures ok <==> UniqueMains(mains) && AllSensible(PathsMains(mains))
    ensures ok ==> ForestPaths(root) == RenderAll(env, RoutesMains(mains, []), [], NoWindow, 0)
    ensures ok ==> interfaces == |RoutesMains(mains, [])|
  {
    hide Sensible, UniqueMains, RenderAll, ForestPaths, CompileMains;
    root, interfaces := [], 0;
    ok := CheckSequences(mains);
    if !ok { return; }
    var names := new NameChecker();
    ok := names.VisitMains(mains);
    if !ok { return; }
    var counter := new InterfaceCounter();
    counter.VisitMains(mains, []);
    interfaces := counter.numberOfOutputInterfaces;
    SensibleKindsOnceAll(mains);
    var builder := new Builder(env);
    builder.Build(mains);
    CompileRoutesMains(env, mains, [], 0);
    root := builder.root;
  }
}
