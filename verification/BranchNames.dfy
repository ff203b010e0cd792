/** The branch-name check, and the variable maps keyed by the path of branch names and the stage. */
module BranchNames {
  import opened Ast
  import opened Sequences
  import opened StageSequence
  import opened StringFunctions

  // ---- Where stages are ----

  /** A stage's place: the branch names on the way to it, and its kind. */
  datatype Place = Place(path: seq<string>, kind: Kind)

  /** The places of this stage and of all stages behind it, in the order the visitors meet them. */
  function Places(s: Stage, path: seq<string>): seq<Place>
    decreases s
  {
    [Place(path, KindOf(s))] + if s.Selector? then [] else PlacesSucc(s.succ, path)
  }

  function PlacesSucc(succ: Succ, path: seq<string>): seq<Place>
    decreases succ
  {
    match succ
    case Then(s) => Places(s, path)
    case Split(bs) => PlacesBranches(bs, path)
  }

  function PlacesBranches(bs: seq<Branch>, path: seq<string>): seq<Place>
    decreases bs
  {
    if bs == [] then [] else Places(bs[0].stage, path + [bs[0].name]) + PlacesBranches(bs[1..], path)
  }

  function PlacesMain(m: Main, path: seq<string>): seq<Place>
    decreases m
  {
    match m.body
    case Pipeline(s) => Places(s, path)
    case Nested(ms) => PlacesMains(ms, path)
  }

  function PlacesMains(ms: seq<Main>, path: seq<string>): seq<Place>
    decreases ms
  {
    if ms == [] then [] else PlacesMain(ms[0], path + [ms[0].name]) + PlacesMains(ms[1..], path)
  }

  // ---- The check ----

  function Names(bs: seq<Branch>): (r: seq<string>)
    ensures |r| == |bs| && forall i :: 0 <= i < |bs| ==> r[i] == bs[i].name
  {
    if bs == [] then [] else [bs[0].name] + Names(bs[1..])
  }

  function MainNames(ms: seq<Main>): (r: seq<string>)
    ensures |r| == |ms| && forall i :: 0 <= i < |ms| ==> r[i] == ms[i].name
  {
    if ms == [] then [] else [ms[0].name] + MainNames(ms[1..])
  }

  /** Sibling branches have different names, at every split. */
  predicate Unique(s: Stage) {
    s.Selector? || UniqueSucc(s.succ)
  }

  predicate UniqueSucc(succ: Succ) {
    match succ
    case Then(s) => Unique(s)
    case Split(bs) => NoDuplicates(Names(bs)) && forall i :: 0 <= i < |bs| ==> Unique(bs[i].stage)
  }

  /** The names in a nested list of main branches are not compared. */
  predicate UniqueInside(m: Main) {
    match m.body
    case Pipeline(s) => Unique(s)
    case Nested(ms) => forall i :: 0 <= i < |ms| ==> UniqueInside(ms[i])
  }

  predicate UniqueMains(ms: seq<Main>) {
    NoDuplicates(MainNames(ms)) && forall i :: 0 <= i < |ms| ==> UniqueInside(ms[i])
  }

  /** What the check leaves out: the names inside nested lists differ as well. */
  predicate NestedUnique(m: Main) {
    m.body.Nested? ==>
      NoDuplicates(MainNames(m.body.mains)) && forall i :: 0 <= i < |m.body.mains| ==> NestedUnique(m.body.mains[i])
  }

  /** The checking visitor. A visit that meets a name twice throws; otherwise it restores the stack. */
  class NameChecker {
    var stack: seq<string>

    constructor ()
      ensures stack == []
    {
      stack := [];
    }

    method VisitStage(s: Stage) returns (ok: bool)
      requires WellFormed(s)
      modifies this
      ensures ok <==> Unique(s)
      ensures ok ==> stack == old(stack)
      decreases s
    {
      if s.Selector? { return true; }
      match s.succ
      case Then(t) => ok := VisitStage(t);
      case Split(bs) => ok := CheckBranches(bs);
    }

    method CheckBranches(bs: seq<Branch>) returns (ok: bool)
      requires WellFormedSucc(Split(bs))
      modifies this
      ensures ok <==> UniqueSucc(Split(bs))
      ensures ok ==> stack == old(stack)
      decreases bs
    {
      var names := [bs[0].name];
      ok := VisitBranch(bs[0]);
      if !ok { return; }
      for i := 1 to |bs|
        invariant |names| == i && forall k :: 0 <= k < i ==> names[k] == bs[k].name
        invariant NoDuplicates(names) && forall k :: 0 <= k < i ==> Unique(bs[k].stage)
        invariant stack == old(stack)
      {
        if bs[i].name in names {
          var k :| 0 <= k < i && names[k] == bs[i].name;
          assert Names(bs)[k] == Names(bs)[i];
          return false;
        }
        NoDuplicatesSnoc(names, bs[i].name);
        names := names + [bs[i].name];
        ok := VisitBranch(bs[i]);
        if !ok { return; }
      }
      assert names == Names(bs);
      return true;
    }

    method VisitBranch(b: Branch) returns (ok: bool)
      requires WellFormed(b.stage)
      modifies this
      ensures ok <==> Unique(b.stage)
      ensures ok ==> stack == old(stack)
      decreases b
    {
      stack := stack + [b.name];
      ok := VisitStage(b.stage);
      if ok { stack := stack[..|stack| - 1]; }
    }

    method VisitMain(m: Main) returns (ok: bool)
      requires WellFormedMain(m)
      modifies this
      ensures ok <==> UniqueInside(m)
      ensures ok ==> stack == old(stack)
      decreases m
    {
      stack := stack + [m.name];
      match m.body {
        case Pipeline(s) => ok := VisitStage(s);
        case Nested(ms) =>
          ok := true;
          for i := 0 to |ms|
            invariant forall k :: 0 <= k < i ==> UniqueInside(ms[k])
            invariant ok && stack == old(stack) + [m.name]
          {
            ok := VisitMain(ms[i]);
            if !ok { return; }
          }
      }
      if ok { stack := stack[..|stack| - 1]; }
    }

    method VisitMains(ms: seq<Main>) returns (ok: bool)
      requires ms != [] && forall m :: m in ms ==> WellFormedMain(m)
      modifies this
      ensures ok <==> UniqueMains(ms)
      ensures ok ==> stack == old(stack)
    {
      var names := [ms[0].name];
      ok := VisitMain(ms[0]);
      if !ok { return; }
      for i := 1 to |ms|
        invariant |names| == i && forall k :: 0 <= k < i ==> names[k] == ms[k].name
        invariant NoDuplicates(names) && forall k :: 0 <= k < i ==> UniqueInside(ms[k])
        invariant stack == old(stack)
      {
        if ms[i].name in names {
          var k :| 0 <= k < i && names[k] == ms[i].name;
          assert MainNames(ms)[k] == MainNames(ms)[i];
          return false;
        }
        NoDuplicatesSnoc(names, ms[i].name);
        names := names + [ms[i].name];
        ok := VisitMain(ms[i]);
        if !ok { return; }
      }
      assert names == MainNames(ms);
      return true;
    }
  }

  // ---- No two stages of a kind in one place ----

  /** No kind comes twice on the way from the root, `seen` being the kinds so far. */
  predicate NoRepeat(s: Stage, seen: seq<Kind>)
    decreases s
  {
    KindOf(s) !in seen && (s.Selector? || NoRepeatSucc(s.succ, seen + [KindOf(s)]))
  }

  predicate NoRepeatSucc(succ: Succ, seen: seq<Kind>)
    decreases succ
  {
    match succ
    case Then(s) => NoRepeat(s, seen)
    case Split(bs) => forall i :: 0 <= i < |bs| ==> NoRepeat(bs[i].stage, seen)
  }

  predicate AllIncreasing(stack: seq<Kind>, ps: seq<seq<Kind>>) {
    forall i :: 0 <= i < |ps| ==> Increasing(stack + ps[i])
  }

  lemma {:induction false} PathsExist(s: Stage)
    requires WellFormed(s)
    ensures Paths(s) != []
    decreases s
  {
    if !s.Selector? {
      match s.succ
      case Then(t) => PathsExist(t);
      case Split(bs) =>
        PathsExist(bs[0].stage);
        assert PathsBranches(bs)[0] == Paths(bs[0].stage)[0];
    }
  }

  lemma IncreasingHead(stack: seq<Kind>, k: Kind, p: seq<Kind>)
    requires Increasing(stack + ([k] + p))
    ensures k !in stack && Increasing((stack + [k]) + p)
  {
    assert stack + ([k] + p) == (stack + [k]) + p;
    var q := stack + ([k] + p);
    forall i | 0 <= i < |stack| ensures stack[i] != k {
      assert q[i] == stack[i] && q[|stack|] == k;
    }
  }

  lemma {:induction false} IncreasingNoRepeat(s: Stage, stack: seq<Kind>)
    requires WellFormed(s) && AllIncreasing(stack, Paths(s))
    ensures NoRepeat(s, stack)
    decreases s
  {
    hide Increasing;
    PathsExist(s);
    var k := KindOf(s);
    if s.Selector? {
      assert Paths(s)[0] == [Se] == [Se] + [];
      IncreasingHead(stack, Se, []);
    } else {
      var ps := PathsSucc(s.succ);
      forall i | 0 <= i < |ps| ensures k !in stack && Increasing((stack + [k]) + ps[i]) {
        IncreasingHead(stack, k, ps[i]);
      }
      IncreasingNoRepeatSucc(s.succ, stack + [k]);
    }
  }

  lemma {:induction false} IncreasingNoRepeatSucc(succ: Succ, stack: seq<Kind>)
    requires WellFormedSucc(succ) && AllIncreasing(stack, PathsSucc(succ))
    ensures NoRepeatSucc(succ, stack)
    decreases succ
  {
    hide Increasing;
    match succ
    case Then(s) => IncreasingNoRepeat(s, stack);
    case Split(bs) => IncreasingNoRepeatBranches(bs, stack);
  }

  lemma {:induction false} IncreasingNoRepeatBranches(bs: seq<Branch>, stack: seq<Kind>)
    requires (forall b :: b in bs ==> WellFormed(b.stage)) && AllIncreasing(stack, PathsBranches(bs))
    ensures forall i :: 0 <= i < |bs| ==> NoRepeat(bs[i].stage, stack)
    decreases bs
  {
    hide Increasing, NoRepeat;
    if bs != [] {
      var head, tail := Paths(bs[0].stage), PathsBranches(bs[1..]);
      forall i | 0 <= i < |head| ensures Increasing(stack + head[i]) { assert head[i] == (head + tail)[i]; }
      forall i | 0 <= i < |tail| ensures Increasing(stack + tail[i]) { assert tail[i] == (head + tail)[|head| + i]; }
      IncreasingNoRepeat(bs[0].stage, stack);
      IncreasingNoRepeatBranches(bs[1..], stack);
    }
  }

  /** Below the branch names `path`. */
  predicate Under(p: Place, path: seq<string>) {
    |path| <= |p.path| && p.path[..|path|] == path
  }

  /** Below `path` and one of the names. */
  predicate UnderOne(p: Place, path: seq<string>, names: seq<string>) {
    |path| < |p.path| && p.path[..|path|] == path && p.path[|path|] in names
  }

  lemma {:induction false} PlacesDistinct(s: Stage, path: seq<string>, seen: seq<Kind>)
    requires Unique(s) && NoRepeat(s, seen)
    ensures NoDuplicates(Places(s, path))
    ensures forall p :: p in Places(s, path) ==> Under(p, path) && (p.path == path ==> p.kind !in seen)
    decreases s
  {
    hide NoDuplicates;
    var here := [Place(path, KindOf(s))];
    assert NoDuplicates(here) by { NoDuplicatesSnoc([], here[0]); assert [] + here == here; }
    if s.Selector? {
      assert Places(s, path) == here;
    } else {
      PlacesDistinctSucc(s.succ, path, seen + [KindOf(s)]);
      NoDuplicatesAppend(here, PlacesSucc(s.succ, path));
    }
  }

  lemma {:induction false} PlacesDistinctSucc(succ: Succ, path: seq<string>, seen: seq<Kind>)
    requires UniqueSucc(succ) && NoRepeatSucc(succ, seen)
    ensures NoDuplicates(PlacesSucc(succ, path))
    ensures forall p :: p in PlacesSucc(succ, path) ==> Under(p, path) && (p.path == path ==> p.kind !in seen)
    decreases succ
  {
    hide NoDuplicates;
    match succ
    case Then(s) => PlacesDistinct(s, path, seen);
    case Split(bs) => PlacesDistinctBranches(bs, path, seen);
  }

  lemma {:induction false} PlacesDistinctBranches(bs: seq<Branch>, path: seq<string>, seen: seq<Kind>)
    requires UniqueSucc(Split(bs)) && NoRepeatSucc(Split(bs), seen)
    ensures NoDuplicates(PlacesBranches(bs, path))
    ensures forall p :: p in PlacesBranches(bs, path) ==> UnderOne(p, path, Names(bs))
    decreases bs
  {
    hide NoDuplicates, Unique, NoRepeat;
    if bs == [] {
      NoDuplicatesNil<Place>();
    } else {
      assert Names(bs) == [bs[0].name] + Names(bs[1..]);
      NoDuplicatesAppend([bs[0].name], Names(bs[1..]));
      PlacesDistinct(bs[0].stage, path + [bs[0].name], seen);
      PlacesDistinctBranches(bs[1..], path, seen);
      SiblingsApart(Places(bs[0].stage, path + [bs[0].name]), PlacesBranches(bs[1..], path),
                    path, bs[0].name, Names(bs[1..]));
    }
  }

  lemma NoDuplicatesNil<T>()
    ensures NoDuplicates<T>([])
  {
  }

  /** Places below one sibling are not below the others. */
  lemma SiblingsApart(ps: seq<Place>, qs: seq<Place>, path: seq<string>, name: string, others: seq<string>)
    requires NoDuplicates(ps) && NoDuplicates(qs) && name !in others
    requires forall p :: p in ps ==> Under(p, path + [name])
    requires forall p :: p in qs ==> UnderOne(p, path, others)
    ensures NoDuplicates(ps + qs)
    ensures forall p :: p in ps + qs ==> UnderOne(p, path, [name] + others)
  {
    hide NoDuplicates;
    forall p | p in ps ensures UnderOne(p, path, [name]) {
      assert p.path[..|path| + 1][..|path|] == p.path[..|path|];
      assert p.path[..|path| + 1][|path|] == name;
    }
    forall p | p in ps + qs ensures UnderOne(p, path, [name] + others) {
      assert p in ps || p in qs;
      assert p.path[|path|] in [name] || p.path[|path|] in others;
    }
    forall i | 0 <= i < |ps| ensures ps[i] !in qs {
      assert UnderOne(ps[i], path, [name]);
      assert ps[i].path[|path|] !in others;
    }
    NoDuplicatesAppend(ps, qs);
  }

  /** No kind comes twice on a way from the root. */
  predicate KindsOnce(m: Main) {
    match m.body
    case Pipeline(s) => NoRepeat(s, [])
    case Nested(ms) => forall i :: 0 <= i < |ms| ==> KindsOnce(ms[i])
  }

  predicate Disjoint<T(==)>(xs: seq<T>, ys: seq<T>) { forall i :: 0 <= i < |xs| ==> xs[i] !in ys }

  /** Main branches of one list with the same name have no place in common. */
  predicate ListApart(ms: seq<Main>, path: seq<string>) {
    forall i, j :: 0 <= i < j < |ms| && ms[i].name == ms[j].name ==>
      Disjoint(PlacesMain(ms[i], path + [ms[i].name]), PlacesMain(ms[j], path + [ms[j].name]))
  }

  /** The same for every list nested in this main branch. */
  predicate NestedApart(m: Main, path: seq<string>)
    decreases m
  {
    m.body.Nested? ==>
      && ListApart(m.body.mains, path)
      && forall i :: 0 <= i < |m.body.mains| ==> NestedApart(m.body.mains[i], path + [m.body.mains[i].name])
  }

  lemma {:induction false} PlacesUnder(m: Main, path: seq<string>)
    requires UniqueInside(m) && KindsOnce(m)
    ensures forall p :: p in PlacesMain(m, path) ==> Under(p, path)
    decreases m
  {
    hide NoDuplicates, Unique, NoRepeat;
    match m.body
    case Pipeline(s) => PlacesDistinct(s, path, []);
    case Nested(ms) => PlacesUnderAll(ms, path);
  }

  lemma {:induction false} PlacesUnderAll(ms: seq<Main>, path: seq<string>)
    requires forall i :: 0 <= i < |ms| ==> UniqueInside(ms[i]) && KindsOnce(ms[i])
    ensures forall p :: p in PlacesMains(ms, path) ==> UnderOne(p, path, MainNames(ms))
    decreases ms
  {
    hide UniqueInside, KindsOnce;
    if ms != [] {
      var name := ms[0].name;
      assert MainNames(ms) == [name] + MainNames(ms[1..]);
      PlacesUnder(ms[0], path + [name]);
      PlacesUnderAll(ms[1..], path);
      forall p | p in PlacesMain(ms[0], path + [name]) ensures UnderOne(p, path, MainNames(ms)) {
        assert p.path[..|path| + 1][..|path|] == p.path[..|path|];
        assert p.path[..|path| + 1][|path|] == name;
      }
    }
  }

  /** A place of the list is a place of one of its main branches. */
  lemma {:induction false} PlaceOfOne(ms: seq<Main>, path: seq<string>, p: Place)
    ensures p in PlacesMains(ms, path)
      <==> exists j :: 0 <= j < |ms| && p in PlacesMain(ms[j], path + [ms[j].name])
    decreases ms
  {
    hide PlacesMain;
    if ms != [] {
      PlaceOfOne(ms[1..], path, p);
      if p in PlacesMains(ms[1..], path) {
        var j :| 0 <= j < |ms[1..]| && p in PlacesMain(ms[1..][j], path + [ms[1..][j].name]);
        assert ms[j + 1] == ms[1..][j];
      }
      forall j | 1 <= j < |ms| && p in PlacesMain(ms[j], path + [ms[j].name]) ensures p in PlacesMains(ms[1..], path) {
        assert ms[1..][j - 1] == ms[j];
      }
    }
  }

  /** Main branches of different names have no place in common. */
  lemma NamesSeparate(m: Main, n: Main, path: seq<string>)
    requires UniqueInside(m) && KindsOnce(m) && UniqueInside(n) && KindsOnce(n) && m.name != n.name
    ensures Disjoint(PlacesMain(m, path + [m.name]), PlacesMain(n, path + [n.name]))
  {
    hide UniqueInside, KindsOnce;
    var ps, qs := PlacesMain(m, path + [m.name]), PlacesMain(n, path + [n.name]);
    PlacesUnder(m, path + [m.name]);
    PlacesUnder(n, path + [n.name]);
    forall p | p in ps ensures |path| < |p.path| && p.path[|path|] == m.name {
      assert p.path[..|path| + 1][|path|] == m.name;
    }
    forall q | q in qs ensures |path| < |q.path| && q.path[|path|] == n.name {
      assert q.path[..|path| + 1][|path|] == n.name;
    }
  }

  /** The first of a list apart from the rest. */
  lemma FirstApart(ms: seq<Main>, path: seq<string>)
    requires ms != [] && forall i :: 0 <= i < |ms| ==> UniqueInside(ms[i]) && KindsOnce(ms[i])
    ensures Disjoint(PlacesMain(ms[0], path + [ms[0].name]), PlacesMains(ms[1..], path))
      <==> forall j :: 1 <= j < |ms| && ms[0].name == ms[j].name ==>
             Disjoint(PlacesMain(ms[0], path + [ms[0].name]), PlacesMain(ms[j], path + [ms[j].name]))
  {
    hide UniqueInside, KindsOnce;
    var ps, rest := PlacesMain(ms[0], path + [ms[0].name]), ms[1..];
    forall p ensures p in PlacesMains(rest, path)
      <==> exists j :: 0 <= j < |rest| && p in PlacesMain(rest[j], path + [rest[j].name])
    {
      PlaceOfOne(rest, path, p);
    }
    forall j | 1 <= j < |ms| && ms[0].name != ms[j].name
      ensures Disjoint(ps, PlacesMain(ms[j], path + [ms[j].name]))
    {
      NamesSeparate(ms[0], ms[j], path);
    }
    if Disjoint(ps, PlacesMains(rest, path)) {
      forall j | 1 <= j < |ms| ensures Disjoint(ps, PlacesMain(ms[j], path + [ms[j].name])) {
        assert rest[j - 1] == ms[j];
      }
    }
    if forall j :: 1 <= j < |ms| ==> Disjoint(ps, PlacesMain(ms[j], path + [ms[j].name])) {
      forall i | 0 <= i < |ps| ensures ps[i] !in PlacesMains(rest, path) {
        forall j | 0 <= j < |rest| ensures ps[i] !in PlacesMain(rest[j], path + [rest[j].name]) {
          assert rest[j] == ms[j + 1];
        }
      }
    }
  }

  lemma {:induction false} PlacesDistinctMain(m: Main, path: seq<string>)
    requires UniqueInside(m) && KindsOnce(m)
    ensures NoDuplicates(PlacesMain(m, path)) <==> NestedApart(m, path)
    decreases m
  {
    hide NoDuplicates, Unique, NoRepeat, ListApart;
    match m.body
    case Pipeline(s) => PlacesDistinct(s, path, []);
    case Nested(ms) => PlacesDistinctMains(ms, path);
  }

  lemma {:induction false} PlacesDistinctMains(ms: seq<Main>, path: seq<string>)
    requires forall i :: 0 <= i < |ms| ==> UniqueInside(ms[i]) && KindsOnce(ms[i])
    ensures NoDuplicates(PlacesMains(ms, path))
      <==> ListApart(ms, path) && forall i :: 0 <= i < |ms| ==> NestedApart(ms[i], path + [ms[i].name])
    decreases ms
  {
    hide NoDuplicates, UniqueInside, KindsOnce, Disjoint, NestedApart;
    if ms == [] {
      NoDuplicatesNil<Place>();
    } else {
      PlacesDistinctMain(ms[0], path + [ms[0].name]);
      PlacesDistinctMains(ms[1..], path);
      FirstApart(ms, path);
      ApartSplit(PlacesMain(ms[0], path + [ms[0].name]), PlacesMains(ms[1..], path));
      ListApartSplit(ms, path);
      assert (forall i :: 1 <= i < |ms| ==> NestedApart(ms[i], path + [ms[i].name]))
        <==> forall i :: 0 <= i < |ms[1..]| ==> NestedApart(ms[1..][i], path + [ms[1..][i].name]) by {
        assert forall i :: 1 <= i < |ms| ==> ms[1..][i - 1] == ms[i];
      }
    }
  }

  lemma ApartSplit(ps: seq<Place>, qs: seq<Place>)
    ensures NoDuplicates(ps + qs) <==> NoDuplicates(ps) && NoDuplicates(qs) && Disjoint(ps, qs)
  {
    hide NoDuplicates;
    NoDuplicatesAppend(ps, qs);
  }

  lemma ListApartSplit(ms: seq<Main>, path: seq<string>)
    requires ms != []
    ensures ListApart(ms, path)
      <==> ListApart(ms[1..], path)
           && forall j :: 1 <= j < |ms| && ms[0].name == ms[j].name ==>
                Disjoint(PlacesMain(ms[0], path + [ms[0].name]), PlacesMain(ms[j], path + [ms[j].name]))
  {
    hide Disjoint, PlacesMain;
    var rest := ms[1..];
    if ListApart(ms, path) {
      forall i, j | 0 <= i < j < |rest| && rest[i].name == rest[j].name
        ensures Disjoint(PlacesMain(rest[i], path + [rest[i].name]), PlacesMain(rest[j], path + [rest[j].name]))
      {
        assert rest[i] == ms[i + 1] && rest[j] == ms[j + 1];
      }
    }
    if ListApart(rest, path) {
      forall i, j | 1 <= i < j < |ms| && ms[i].name == ms[j].name
        ensures Disjoint(PlacesMain(ms[i], path + [ms[i].name]), PlacesMain(ms[j], path + [ms[j].name]))
      {
        assert ms[i] == rest[i - 1] && ms[j] == rest[j - 1];
      }
    }
  }

  predicate AllSensible(ps: seq<seq<Kind>>) { forall i :: 0 <= i < |ps| ==> Sensible(ps[i]) }

  /** Stage sequences that pass the check repeat no kind. */
  lemma {:induction false} SensibleKindsOnce(m: Main)
    requires WellFormedMain(m) && AllSensible(PathsMain(m))
    ensures KindsOnce(m)
    decreases m
  {
    hide Increasing, NoRepeat;
    match m.body
    case Pipeline(s) =>
      forall i | 0 <= i < |Paths(s)| ensures Increasing([] + Paths(s)[i]) {
        assert Sensible(Paths(s)[i]);
        assert [] + Paths(s)[i] == Paths(s)[i];
      }
      IncreasingNoRepeat(s, []);
    case Nested(ms) => SensibleKindsOnceAll(ms);
  }

  lemma {:induction false} SensibleKindsOnceAll(ms: seq<Main>)
    requires (forall m :: m in ms ==> WellFormedMain(m)) && AllSensible(PathsMains(ms))
    ensures forall i :: 0 <= i < |ms| ==> KindsOnce(ms[i])
    decreases ms
  {
    hide Sensible, KindsOnce, WellFormedMain;
    if ms != [] {
      var head, tail := PathsMain(ms[0]), PathsMains(ms[1..]);
      forall i | 0 <= i < |head| ensures Sensible(head[i]) { assert head[i] == (head + tail)[i]; }
      forall i | 0 <= i < |tail| ensures Sensible(tail[i]) { assert tail[i] == (head + tail)[|head| + i]; }
      SensibleKindsOnce(ms[0]);
      SensibleKindsOnceAll(ms[1..]);
    }
  }

  // ---- Keys of the variable maps ----

  function StageName(k: Kind): string {
    match k
    case Fi => "filter"
    case Gr => "grouper"
    case Wi => "window"
    case Ag => "aggregator"
    case Gf => "group-filter"
    case Se => "selector"
  }

  function PathString(path: seq<string>): string {
    if path == [] then "/" else Prefixed(path, "/")
  }

  /** The key of a stage's variables. */
  function VarsKey(p: Place): string {
    PathString(p.path) + "/" + StageName(p.kind)
  }

  /** Branch names are free of slashes, and every stage lies in some main branch. */
  predicate Readable(p: Place) {
    p.path != [] && forall i :: 0 <= i < |p.path| ==> '/' !in p.path[i]
  }

  lemma StageNameInjective(k: Kind, l: Kind)
    ensures '/' !in StageName(k) && (StageName(k) == StageName(l) ==> k == l)
  {
    assert StageName(k)[0] != StageName(l)[0] || |StageName(k)| != |StageName(l)| || k == l;
  }

  lemma VarsKeySplits(p: Place)
    requires Readable(p)
    ensures VarsKey(p) == "/" + Intercalate(p.path + [StageName(p.kind)], "/")
    ensures StringFunctions.Split(Intercalate(p.path + [StageName(p.kind)], "/"), "/") == p.path + [StageName(p.kind)]
  {
    hide StageName, Intercalate, StringFunctions.Split;
    var v := p.path + [StageName(p.kind)];
    assert v[..|v| - 1] == p.path;
    PrefixedIsJoin(v, "/");
    StageNameInjective(p.kind, p.kind);
    JoinSplit(v, '/');
  }

  /** The key determines the path and the stage. */
  lemma VarsKeyInjective(p: Place, q: Place)
    requires Readable(p) && Readable(q)
    ensures VarsKey(p) == VarsKey(q) <==> p == q
  {
    hide StageName, Intercalate, StringFunctions.Split, VarsKey, Readable;
    if VarsKey(p) == VarsKey(q) {
      VarsKeySplits(p);
      VarsKeySplits(q);
      var v, w := p.path + [StageName(p.kind)], q.path + [StageName(q.kind)];
      assert VarsKey(p)[1..] == Intercalate(v, "/") && VarsKey(q)[1..] == Intercalate(w, "/");
      assert v == w;
      assert v[..|v| - 1] == p.path && w[..|w| - 1] == q.path && v[|v| - 1] == w[|w| - 1];
      StageNameInjective(p.kind, q.kind);
    }
  }

  /** Of a rule file that passes both checks, no two stages share a key exactly when, in its nested lists of main
      branches, branches of the same name have no place in common. */
  lemma KeysDistinctIff(mains: seq<Main>)
    requires forall m :: m in mains ==> WellFormedMain(m)
    requires UniqueMains(mains) && AllSensible(PathsMains(mains))
    requires forall k :: 0 <= k < |PlacesMains(mains, [])| ==> Readable(PlacesMains(mains, [])[k])
    ensures var ps := PlacesMains(mains, []);
            (forall i, j :: 0 <= i < j < |ps| ==> VarsKey(ps[i]) != VarsKey(ps[j]))
              <==> forall i :: 0 <= i < |mains| ==> NestedApart(mains[i], [mains[i].name])
  {
    hide VarsKey, Readable, Sensible, NestedApart, UniqueInside, KindsOnce, Disjoint;
    SensibleKindsOnceAll(mains);
    PlacesDistinctMains(mains, []);
    var ps := PlacesMains(mains, []);
    forall i, j | 0 <= i < j < |ps| ensures VarsKey(ps[i]) != VarsKey(ps[j]) <==> ps[i] != ps[j] {
      VarsKeyInjective(ps[i], ps[j]);
    }
    TopNamesApart(mains);
    assert forall i :: 0 <= i < |mains| ==> [] + [mains[i].name] == [mains[i].name];
  }

  lemma TopNamesApart(mains: seq<Main>)
    requires NoDuplicates(MainNames(mains))
    ensures ListApart(mains, [])
  {
    forall i, j | 0 <= i < j < |mains| ensures mains[i].name != mains[j].name {
      assert MainNames(mains)[i] != MainNames(mains)[j];
    }
  }

  lemma {:induction false} UniqueIsApart(m: Main, path: seq<string>)
    requires NestedUnique(m)
    ensures NestedApart(m, path)
    decreases m
  {
    hide Disjoint, PlacesMain;
    if m.body.Nested? {
      var ms := m.body.mains;
      forall i, j | 0 <= i < j < |ms| ensures ms[i].name != ms[j].name {
        assert MainNames(ms)[i] != MainNames(ms)[j];
      }
      forall i | 0 <= i < |ms| ensures NestedApart(ms[i], path + [ms[i].name]) {
        UniqueIsApart(ms[i], path + [ms[i].name]);
      }
    }
  }

  /** In particular in a file without nested lists, or whose nested lists repeat no name. */
  lemma KeysDistinct(mains: seq<Main>)
    requires forall m :: m in mains ==> WellFormedMain(m)
    requires UniqueMains(mains) && AllSensible(PathsMains(mains))
    requires forall k :: 0 <= k < |PlacesMains(mains, [])| ==> Readable(PlacesMains(mains, [])[k])
    requires forall i :: 0 <= i < |mains| ==> NestedUnique(mains[i])
    ensures var ps := PlacesMains(mains, []);
            NoDuplicates(ps) && forall i, j :: 0 <= i < j < |ps| ==> VarsKey(ps[i]) != VarsKey(ps[j])
  {
    hide VarsKey, Readable, Sensible, NestedApart, NestedUnique, UniqueMains;
    KeysDistinctIff(mains);
    forall i | 0 <= i < |mains| ensures NestedApart(mains[i], [mains[i].name]) {
      UniqueIsApart(mains[i], [mains[i].name]);
    }
  }

  /** The check does not look at names in nested lists: two equal names there pass, and their selectors share a key. */
  lemma NestedListsCanShareKeys() returns (mains: seq<Main>)
    ensures (forall m :: m in mains ==> WellFormedMain(m)) && UniqueMains(mains) && AllSensible(PathsMains(mains))
    ensures var ps := PlacesMains(mains, []);
            |ps| == 2 && Readable(ps[0]) && Readable(ps[1]) && VarsKey(ps[0]) == VarsKey(ps[1])
  {
    var inner := Main("b", Pipeline(Selector([])));
    var m := Main("a", Nested([inner, inner]));
    mains := [m];
    assert [inner, inner][1..] == [inner] && [inner][1..] == [] && mains[1..] == [];
    assert PathsMains([inner]) == [[Se]];
    assert PathsMain(m) == [[Se], [Se]];
    var p := Place(["a", "b"], Se);
    assert PlacesMains([inner], ["a"]) == [p] by { assert ["a"] + ["b"] == ["a", "b"]; }
    assert PlacesMain(m, ["a"]) == [p, p] by { assert ["a"] + ["b"] == ["a", "b"]; }
    assert [] + ["a"] == ["a"];
    assert PlacesMains(mains, []) == [p, p];
  }

  // ---- Variables ----

  datatype Var = Var(name: string, alias: string)

  function VarsAt(m: map<string, seq<Var>>, key: string): seq<Var> {
    if key in m then m[key] else []
  }

  /** The visitor's place in the tree and one of its maps. */
  class Variables {
    var stack: seq<string>
    var vars: map<string, seq<Var>>

    constructor ()
      ensures stack == [] && vars == map[]
    {
      stack, vars := [], map[];
    }

    method GetVars(kind: Kind) returns (found: bool, vs: seq<Var>)
      ensures found <==> VarsKey(Place(stack, kind)) in vars
      ensures vs == VarsAt(vars, VarsKey(Place(stack, kind)))
    {
      var key := PathString(stack) + "/" + StageName(kind);
      if key in vars { return true, vars[key]; }
      return false, [];
    }

    /** An insertion does not overwrite. */
    method AddVars(key: string, vs: seq<Var>)
      modifies this`vars
      ensures vars == if key in old(vars) then old(vars) else old(vars)[key := vs]
    {
      if key !in vars { vars := vars[key := vs]; }
    }

    method AddVar(kind: Kind, v: Var)
      modifies this`vars
      ensures vars == Added(old(vars), Place(stack, kind), v)
    {
      var key := PathString(stack) + "/" + StageName(kind);
      assert key == VarsKey(Place(stack, kind));
      if key in vars {
        vars := vars[key := vars[key] + [v]];
      } else {
        vars := vars[key := [v]];
        assert [] + [v] == [v];
      }
    }
  }

  function Added(m: map<string, seq<Var>>, p: Place, v: Var): map<string, seq<Var>> {
    m[VarsKey(p) := VarsAt(m, VarsKey(p)) + [v]]
  }

  /** The map after these additions, each made while visiting the stage with this number. */
  function AddAll(ps: seq<Place>, adds: seq<(nat, Var)>): map<string, seq<Var>>
    requires forall i :: 0 <= i < |adds| ==> adds[i].0 < |ps|
  {
    if adds == [] then map[]
    else var (i, v) := adds[|adds| - 1]; Added(AddAll(ps, adds[..|adds| - 1]), ps[i], v)
  }

  function OwnVars(adds: seq<(nat, Var)>, i: nat): seq<Var> {
    if adds == [] then []
    else OwnVars(adds[..|adds| - 1], i) + (if adds[|adds| - 1].0 == i then [adds[|adds| - 1].1] else [])
  }

  /** Whatever was added in whatever order, a stage finds exactly its own variables, in the order they were added. */
  lemma {:induction false} StagesFindTheirOwn(ps: seq<Place>, adds: seq<(nat, Var)>, i: nat)
    requires NoDuplicates(ps) && (forall k :: 0 <= k < |ps| ==> Readable(ps[k])) && i < |ps|
    requires forall k :: 0 <= k < |adds| ==> adds[k].0 < |ps|
    ensures VarsAt(AddAll(ps, adds), VarsKey(ps[i])) == OwnVars(adds, i)
  {
    hide VarsKey, Readable;
    if adds != [] {
      StagesFindTheirOwn(ps, adds[..|adds| - 1], i);
      VarsKeyInjective(ps[adds[|adds| - 1].0], ps[i]);
    }
  }
}
