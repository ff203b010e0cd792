/** The semantic check of stage sequences: a traversal with a stack, against the sequences it should accept. */
module StageSequence {
  import opened Ast
  import opened Sequences

  const ALLOWED: seq<seq<Kind>> := [
    [Fi, Gr, Wi, Ag, Gf, Se],
    [Gr, Wi, Ag, Gf, Se],
    [Fi, Wi, Ag, Gf, Se],
    [Wi, Ag, Gf, Se],
    [Fi, Gr, Ag, Gf, Se],
    [Gr, Ag, Gf, Se],
    [Fi, Ag, Gf, Se],
    [Ag, Gf, Se],
    [Fi, Gr, Wi, Gf, Se],
    [Gr, Wi, Gf, Se],
    [Fi, Gr, Gf, Se],
    [Gr, Gf, Se],
    [Fi, Gr, Wi, Ag, Se],
    [Gr, Wi, Ag, Se],
    [Fi, Wi, Ag, Se],
    [Wi, Ag, Se],
    [Fi, Gr, Ag, Se],
    [Gr, Ag, Se],
    [Fi, Ag, Se],
    [Ag, Se],
    [Fi, Gr, Wi, Se],
    [Gr, Wi, Se],
    [Fi, Gr, Se],
    [Gr, Se],
    [Fi, Se],
    [Se]
  ]

  // ---- The root-to-selector paths ----

  /** The kinds on every path from this stage to a selector, left to right. */
  function Paths(s: Stage): seq<seq<Kind>> {
    if s.Selector? then [[Se]] else Prepend(KindOf(s), PathsSucc(s.succ))
  }

  function PathsSucc(succ: Succ): seq<seq<Kind>> {
    match succ
    case Then(s) => Paths(s)
    case Split(bs) => PathsBranches(bs)
  }

  function PathsBranches(bs: seq<Branch>): seq<seq<Kind>> {
    if bs == [] then [] else Paths(bs[0].stage) + PathsBranches(bs[1..])
  }

  function PathsMain(m: Main): seq<seq<Kind>> {
    match m.body
    case Pipeline(s) => Paths(s)
    case Nested(ms) => PathsMains(ms)
  }

  function PathsMains(ms: seq<Main>): seq<seq<Kind>> {
    if ms == [] then [] else PathsMain(ms[0]) + PathsMains(ms[1..])
  }

  predicate AllAllowed(stack: seq<Kind>, ps: seq<seq<Kind>>) {
    forall i :: 0 <= i < |ps| ==> stack + ps[i] in ALLOWED
  }

  lemma AllAllowedPush(stack: seq<Kind>, k: Kind, ps: seq<seq<Kind>>)
    ensures AllAllowed(stack, Prepend(k, ps)) <==> AllAllowed(stack + [k], ps)
  {
    hide ALLOWED;
    forall i | 0 <= i < |ps| ensures stack + Prepend(k, ps)[i] in ALLOWED <==> (stack + [k]) + ps[i] in ALLOWED {
      assert stack + ([k] + ps[i]) == (stack + [k]) + ps[i];
    }
  }

  lemma AllAllowedAppend(stack: seq<Kind>, ps: seq<seq<Kind>>, qs: seq<seq<Kind>>)
    ensures AllAllowed(stack, ps + qs) <==> AllAllowed(stack, ps) && AllAllowed(stack, qs)
  {
    hide ALLOWED;
    if AllAllowed(stack, ps + qs) {
      forall i | 0 <= i < |ps| ensures stack + ps[i] in ALLOWED { assert ps[i] == (ps + qs)[i]; }
      forall i | 0 <= i < |qs| ensures stack + qs[i] in ALLOWED { assert qs[i] == (ps + qs)[|ps| + i]; }
    }
  }

  // ---- The visitor ----

  /** The checking visitor. A visit that finds a forbidden sequence throws; otherwise it restores the stack. */
  class Checker {
    var stack: seq<Kind>
    var actualMainBranch: string

    constructor ()
      ensures stack == []
    {
      stack, actualMainBranch := [], "";
    }

    method Check() returns (ok: bool)
      ensures ok <==> stack in ALLOWED
    {
      for i := 0 to |ALLOWED|
        invariant stack !in ALLOWED[..i]
      {
        if ALLOWED[i] == stack { return true; }
      }
      assert ALLOWED[..|ALLOWED|] == ALLOWED;
      return false;
    }

    method VisitStage(s: Stage) returns (ok: bool)
      modifies this`stack
      ensures ok <==> AllAllowed(old(stack), Paths(s))
      ensures ok ==> stack == old(stack)
      decreases s
    {
      hide ALLOWED;
      stack := stack + [KindOf(s)];
      if s.Selector? {
        assert Paths(s)[0] == [Se];
        ok := Check();
      } else {
        AllAllowedPush(old(stack), KindOf(s), PathsSucc(s.succ));
        ok := VisitSucc(s.succ);
      }
      if ok { stack := stack[..|stack| - 1]; }
    }

    method VisitSucc(succ: Succ) returns (ok: bool)
      modifies this`stack
      ensures ok <==> AllAllowed(old(stack), PathsSucc(succ))
      ensures ok ==> stack == old(stack)
      decreases succ
    {
      hide ALLOWED;
      match succ
      case Then(s) => ok := VisitStage(s);
      case Split(bs) => ok := VisitBranches(bs);
    }

    method VisitBranches(bs: seq<Branch>) returns (ok: bool)
      modifies this`stack
      ensures ok <==> AllAllowed(old(stack), PathsBranches(bs))
      ensures ok ==> stack == old(stack)
      decreases bs
    {
      hide ALLOWED;
      if bs == [] { return true; }
      AllAllowedAppend(stack, Paths(bs[0].stage), PathsBranches(bs[1..]));
      ok := VisitStage(bs[0].stage);
      if ok { ok := VisitBranches(bs[1..]); }
    }

    method VisitMain(m: Main) returns (ok: bool)
      modifies this
      ensures ok <==> AllAllowed(old(stack), PathsMain(m))
      ensures ok ==> stack == old(stack)
      decreases m
    {
      hide ALLOWED;
      actualMainBranch := m.name;
      match m.body
      case Pipeline(s) => ok := VisitStage(s);
      case Nested(ms) => ok := VisitMains(ms);
    }

    method VisitMains(ms: seq<Main>) returns (ok: bool)
      modifies this
      ensures ok <==> AllAllowed(old(stack), PathsMains(ms))
      ensures ok ==> stack == old(stack)
      decreases ms
    {
      hide ALLOWED;
      if ms == [] { return true; }
      AllAllowedAppend(stack, PathsMain(ms[0]), PathsMains(ms[1..]));
      ok := VisitMain(ms[0]);
      if ok { ok := VisitMains(ms[1..]); }
    }
  }

  // ---- What the table says ----

  function Rank(k: Kind): nat {
    match k case Fi => 0 case Gr => 1 case Wi => 2 case Ag => 3 case Gf => 4 case Se => 5
  }

  predicate Increasing(p: seq<Kind>) {
    forall i, j :: 0 <= i < j < |p| ==> Rank(p[i]) < Rank(p[j])
  }

  /** An ordered choice of filter, grouper, window, aggregator, group-filter that ends in a selector, in which
      a window or group-filter comes with a grouper or an aggregator. */
  predicate Sensible(p: seq<Kind>) {
    && Increasing(p) && p != [] && p[|p| - 1] == Se
    && (Wi in p || Gf in p ==> Gr in p || Ag in p)
  }

  function Pick(k: Kind, chosen: bool): seq<Kind> { if chosen then [k] else [] }

  /** The increasing sequence with these members. */
  function Ordered(fi: bool, gr: bool, wi: bool, ag: bool, gf: bool): seq<Kind> {
    [] + Pick(Fi, fi) + Pick(Gr, gr) + Pick(Wi, wi) + Pick(Ag, ag) + Pick(Gf, gf) + [Se]
  }

  function KindAt(r: nat): Kind
    requires r < 6
  {
    if r == 0 then Fi else if r == 1 then Gr else if r == 2 then Wi else if r == 3 then Ag else if r == 4 then Gf else Se
  }

  /** The members of p of rank below r, in order. */
  function Below(p: seq<Kind>, r: nat): seq<Kind>
    requires r <= 6
  {
    if r == 0 then [] else Below(p, r - 1) + Pick(KindAt(r - 1), KindAt(r - 1) in p)
  }

  lemma EmptyOrInhabited(p: seq<Kind>)
    ensures p == [] || exists k :: k in p
  {
    if p != [] { assert p[0] in p; }
  }

  lemma {:induction false} IncreasingIsBelow(p: seq<Kind>, r: nat)
    requires Increasing(p) && r <= 6 && forall k :: k in p ==> Rank(k) < r
    ensures p == Below(p, r)
    decreases r
  {
    hide Increasing, Rank, KindAt;
    if r == 0 {
      EmptyOrInhabited(p);
    } else if KindAt(r - 1) in p {
      TopIsLast(p, r);
      KindAtInverse(r - 1);
      var init := p[..|p| - 1];
      InitRanksBelow(init, KindAt(r - 1));
      IncreasingIsBelow(init, r - 1);
      SameBelow(p, init, r - 1);
    } else {
      forall k | k in p ensures Rank(k) < r - 1 {
        RankInverse(k);
      }
      IncreasingIsBelow(p, r - 1);
    }
  }

  lemma RankInverse(k: Kind)
    ensures KindAt(Rank(k)) == k && Rank(k) < 6
  {
  }

  lemma KindAtInverse(r: nat)
    requires r < 6
    ensures Rank(KindAt(r)) == r
  {
  }

  /** The kind of highest rank is the last one. */
  lemma TopIsLast(p: seq<Kind>, r: nat)
    requires Increasing(p) && 0 < r <= 6 && (forall k :: k in p ==> Rank(k) < r) && KindAt(r - 1) in p
    ensures p != [] && p == p[..|p| - 1] + [KindAt(r - 1)]
  {
    var i :| 0 <= i < |p| && p[i] == KindAt(r - 1);
    assert p[|p| - 1] in p;
    assert i == |p| - 1;
  }

  lemma InitRanksBelow(init: seq<Kind>, last: Kind)
    requires Increasing(init + [last])
    ensures Increasing(init)
    ensures forall k :: k in init ==> Rank(k) < Rank(last)
    ensures forall s: nat :: s < Rank(last) ==> (KindAt(s) in init + [last] <==> KindAt(s) in init)
  {
    var p := init + [last];
    forall i, j | 0 <= i < j < |init| ensures Rank(init[i]) < Rank(init[j]) {
      assert p[i] == init[i] && p[j] == init[j];
    }
    forall k | k in init ensures Rank(k) < Rank(last) {
      var j :| 0 <= j < |init| && init[j] == k;
      assert p[j] == k && p[|init|] == last;
    }
  }

  lemma {:induction false} SameBelow(p: seq<Kind>, q: seq<Kind>, r: nat)
    requires r <= 6 && forall s: nat :: s < r ==> (KindAt(s) in p <==> KindAt(s) in q)
    ensures Below(p, r) == Below(q, r)
  {
    if r > 0 { SameBelow(p, q, r - 1); }
  }

  lemma IncreasingIsOrdered(p: seq<Kind>)
    requires Increasing(p) && p != [] && p[|p| - 1] == Se
    ensures p == Ordered(Fi in p, Gr in p, Wi in p, Ag in p, Gf in p)
  {
    hide Increasing;
    IncreasingIsBelow(p, 6);
    assert Se in p;
    assert Below(p, 1) == Below(p, 0) + Pick(Fi, Fi in p);
    assert Below(p, 2) == Below(p, 1) + Pick(Gr, Gr in p);
    assert Below(p, 3) == Below(p, 2) + Pick(Wi, Wi in p);
    assert Below(p, 4) == Below(p, 3) + Pick(Ag, Ag in p);
    assert Below(p, 5) == Below(p, 4) + Pick(Gf, Gf in p);
    assert Below(p, 6) == Below(p, 5) + Pick(Se, Se in p);
  }

  /** The row of the table with these members. */
  function Row(fi: bool, gr: bool, wi: bool, ag: bool, gf: bool): nat
    requires wi || gf ==> gr || ag
  {
    var last := if fi then 0 else 1;
    if gf then (if ag then (if gr && wi then last else if wi then 2 + last else if gr then 4 + last else 6 + last)
                else if wi then 8 + last else 10 + last)
    else if ag then (if gr && wi then 12 + last else if wi then 14 + last else if gr then 16 + last else 18 + last)
    else if wi then 20 + last
    else if gr then 22 + last
    else 24 + last
  }

  lemma RowIsOrdered(fi: bool, gr: bool, wi: bool, ag: bool, gf: bool)
    requires wi || gf ==> gr || ag
    ensures Row(fi, gr, wi, ag, gf) < |ALLOWED| && ALLOWED[Row(fi, gr, wi, ag, gf)] == Ordered(fi, gr, wi, ag, gf)
  {
  }

  lemma TableIsSensible(i: nat)
    requires i < |ALLOWED|
    ensures Sensible(ALLOWED[i])
  {
  }

  /** The table lists exactly the sensible sequences. */
  lemma AllowedIffSensible(p: seq<Kind>)
    ensures p in ALLOWED <==> Sensible(p)
  {
    hide ALLOWED, Ordered;
    if p in ALLOWED {
      var i :| 0 <= i < |ALLOWED| && ALLOWED[i] == p;
      TableIsSensible(i);
    }
    if Sensible(p) {
      IncreasingIsOrdered(p);
      RowIsOrdered(Fi in p, Gr in p, Wi in p, Ag in p, Gf in p);
    }
  }

  /** The check accepts a rule file exactly when every root-to-selector path, however deeply the branches nest,
      is sensible. */
  method CheckSequences(mains: seq<Main>) returns (ok: bool)
    ensures ok <==> forall i :: 0 <= i < |PathsMains(mains)| ==> Sensible(PathsMains(mains)[i])
  {
    hide ALLOWED, Sensible;
    var checker := new Checker();
    ok := checker.VisitMains(mains);
    forall i | 0 <= i < |PathsMains(mains)|
      ensures [] + PathsMains(mains)[i] in ALLOWED <==> Sensible(PathsMains(mains)[i])
    {
      AllowedIffSensible(PathsMains(mains)[i]);
      assert [] + PathsMains(mains)[i] == PathsMains(mains)[i];
    }
  }
}
