/** The running pipeline: a tree of stages that keep state and send records to their successors depth first, with the
    aggregators' threads in between. Sharing stages between branches changes nothing: every selector receives exactly
    what its own root-to-selector line of stages alone would send it. */
module Pipeline {
  import opened Records
  import opened Sequences
  import opened Wrappers
  import opened AggFunctions
  import opened Aggregation

  // ---- One stage ----

  datatype RawAgg = RawAgg(cfg: Config, store: map<KeyBytes, Stored>)

  type AggBox = a: RawAgg | forall k :: k in a.store ==> Shaped(a.cfg, a.store[k])
    witness RawAgg(Config([], [], [], Global(0)), map[])

  /** `stop` is the process-wide flag: once it is set, aggregators drop what they receive. A `FaultStage` is an aggregator
      that cannot run: its start fails, or its first record ends the program. */
  datatype Stage =
    | FilterStage(passes: Record -> bool)
    | AggStage(agg: AggBox, stop: bool)
    | SelectorStage(out: seq<Record>)
    | FaultStage

  datatype Reaction = Reaction(stage: Stage, outs: seq<Record>)

  function Sent(out: seq<Option<Record>>): seq<Record> {
    if out == [] then [] else (if out[0].Some? then [out[0].value] else []) + Sent(out[1..])
  }

  function Machine(store: map<KeyBytes, Stored>, stop: bool): State { State(store, 0, false, stop, []) }

  /** One record in: the stage's new state and what it sends on. */
  function React(s: Stage, r: Record): Reaction {
    match s
    case FilterStage(passes) => Reaction(s, if passes(r) then [r] else [])
    case AggStage(a, stop) =>
      var s' := Next(a.cfg, Machine(a.store, stop), Store(r));
      Reaction(AggStage(RawAgg(a.cfg, s'.store), stop), Sent(s'.out))
    case SelectorStage(out) => Reaction(SelectorStage(out + [r]), [])
    case FaultStage => Reaction(s, [])
  }

  /** An aggregator's thread, or its destruction, sends out these groups. */
  function Pass(s: Stage, order: seq<KeyBytes>): Reaction {
    match s
    case AggStage(a, stop) =>
      var s' := Evict(a.cfg, Machine(a.store, stop), order);
      Reaction(AggStage(RawAgg(a.cfg, s'.store), stop), Sent(s'.out))
    case _ => Reaction(s, [])
  }

  function ReactAll(s: Stage, rs: seq<Record>): Reaction
    decreases rs
  {
    if rs == [] then Reaction(s, [])
    else
      var x := React(s, rs[0]);
      var y := ReactAll(x.stage, rs[1..]);
      Reaction(y.stage, x.outs + y.outs)
  }

  lemma {:induction false} ReactAllAppend(s: Stage, a: seq<Record>, b: seq<Record>)
    ensures var x := ReactAll(s, a);
            var y := ReactAll(x.stage, b);
            ReactAll(s, a + b) == Reaction(y.stage, x.outs + y.outs)
    decreases a
  {
    hide React;
    if a == [] {
      assert a + b == b;
      assert [] + ReactAll(s, b).outs == ReactAll(s, b).outs;
    } else {
      var x := React(s, a[0]);
      ReactAllAppend(x.stage, a[1..], b);
      assert (a + b)[1..] == a[1..] + b;
      var y := ReactAll(x.stage, a[1..]);
      AppendAssoc(x.outs, y.outs, ReactAll(y.stage, b).outs);
    }
  }

  /** Evaluating a record moves an aggregator as the stage reacts, whatever its clock and the first-record flag are. */
  lemma EvalReacts(cfg: Config, s: State, r: Record)
    requires Valid(cfg, s)
    ensures var s' := Next(cfg, Next(cfg, s, Seed(r)), Store(r));
            && s'.stop == s.stop && |s.out| <= |s'.out|
            && React(AggStage(RawAgg(cfg, s.store), s.stop), r)
                 == Reaction(AggStage(RawAgg(cfg, s'.store), s.stop), Sent(s'.out[|s.out|..]))
  {
    hide Init, Update, Emit, KeyOf, Sent;
    var s' := Next(cfg, Next(cfg, s, Seed(r)), Store(r));
    assert s'.out[|s.out|..] == Next(cfg, Machine(s.store, s.stop), Store(r)).out;
  }

  // ---- The tree ----

  datatype Tree = Tree(stage: Stage, next: seq<Tree>)

  /** The tree after these records have come in: every stage reacts to all it gets, and its successors get all it sends. */
  function Feed(t: Tree, rs: seq<Record>): Tree {
    var x := ReactAll(t.stage, rs);
    Tree(x.stage, FeedAll(t.next, x.outs))
  }

  function FeedAll(ts: seq<Tree>, rs: seq<Record>): (r: seq<Tree>)
    ensures |r| == |ts|
  {
    if ts == [] then [] else [Feed(ts[0], rs)] + FeedAll(ts[1..], rs)
  }

  lemma {:induction false} FeedAllAt(ts: seq<Tree>, rs: seq<Record>, i: nat)
    requires i < |ts|
    ensures FeedAll(ts, rs)[i] == Feed(ts[i], rs)
  {
    if i > 0 { FeedAllAt(ts[1..], rs, i - 1); }
  }

  /** Feeding in two portions is feeding at once. */
  lemma {:induction false} FeedTwice(t: Tree, a: seq<Record>, b: seq<Record>)
    ensures Feed(Feed(t, a), b) == Feed(t, a + b)
    decreases t
  {
    hide ReactAll;
    var x := ReactAll(t.stage, a);
    ReactAllAppend(t.stage, a, b);
    FeedAllTwice(t.next, x.outs, ReactAll(x.stage, b).outs);
  }

  lemma {:induction false} FeedAllTwice(ts: seq<Tree>, a: seq<Record>, b: seq<Record>)
    ensures FeedAll(FeedAll(ts, a), b) == FeedAll(ts, a + b)
    decreases ts
  {
    hide Feed;
    if ts != [] {
      FeedTwice(ts[0], a, b);
      FeedAllTwice(ts[1..], a, b);
      assert FeedAll(ts, a)[1..] == FeedAll(ts[1..], a);
    }
  }

  lemma {:induction false} FeedNothing(t: Tree)
    ensures Feed(t, []) == t
    decreases t
  {
    FeedAllNothing(t.next);
  }

  lemma {:induction false} FeedAllNothing(ts: seq<Tree>)
    ensures FeedAll(ts, []) == ts
    decreases ts
  {
    hide Feed;
    if ts != [] {
      FeedNothing(ts[0]);
      FeedAllNothing(ts[1..]);
    }
  }

  // ---- Events ----

  /** A record arrives at the roots; or the aggregator at this address (child numbers from the roots) sends groups out,
      from its thread or its destructor; or the first destructor sets the flag that stops all aggregators. */
  datatype Event = Input(r: Record) | Eviction(at: seq<nat>, order: seq<KeyBytes>) | Halt

  function Halted(s: Stage): Stage { if s.AggStage? then AggStage(s.agg, true) else s }

  function HaltTree(t: Tree): Tree { Tree(Halted(t.stage), HaltAll(t.next)) }

  function HaltAll(ts: seq<Tree>): (r: seq<Tree>)
    ensures |r| == |ts|
  {
    if ts == [] then [] else [HaltTree(ts[0])] + HaltAll(ts[1..])
  }

  lemma {:induction false} HaltAllAt(ts: seq<Tree>, i: nat)
    requires i < |ts|
    ensures HaltAll(ts)[i] == HaltTree(ts[i])
  {
    if i > 0 { HaltAllAt(ts[1..], i - 1); }
  }

  function EvictIn(ts: seq<Tree>, at: seq<nat>, order: seq<KeyBytes>): seq<Tree>
    decreases at
  {
    if at == [] || at[0] >= |ts| then ts
    else ts[at[0] := EvictAt(ts[at[0]], at[1..], order)]
  }

  function EvictAt(t: Tree, at: seq<nat>, order: seq<KeyBytes>): Tree
    decreases at
  {
    if at == [] then
      var x := Pass(t.stage, order);
      Tree(x.stage, FeedAll(t.next, x.outs))
    else if at[0] >= |t.next| then t
    else Tree(t.stage, t.next[at[0] := EvictAt(t.next[at[0]], at[1..], order)])
  }

  function Step(ts: seq<Tree>, e: Event): seq<Tree> {
    match e
    case Input(r) => FeedAll(ts, [r])
    case Eviction(at, order) => EvictIn(ts, at, order)
    case Halt => HaltAll(ts)
  }

  function RunForest(ts: seq<Tree>, es: seq<Event>): seq<Tree> {
    if es == [] then ts else Step(RunForest(ts, es[..|es| - 1]), es[|es| - 1])
  }

  // ---- One line of stages on its own ----

  /** The stages on the way to this address. */
  function Line(ts: seq<Tree>, addr: seq<nat>): (line: seq<Stage>)
    ensures |line| <= |addr|
    decreases addr
  {
    if addr == [] || addr[0] >= |ts| then []
    else [ts[addr[0]].stage] + Line(ts[addr[0]].next, addr[1..])
  }

  function FeedLine(line: seq<Stage>, rs: seq<Record>): seq<Stage> {
    if line == [] then []
    else
      var x := ReactAll(line[0], rs);
      [x.stage] + FeedLine(line[1..], x.outs)
  }

  /** An eviction concerns the line when it happens at one of its stages. */
  function EvictLine(line: seq<Stage>, addr: seq<nat>, at: seq<nat>, order: seq<KeyBytes>): seq<Stage> {
    if line == [] || addr == [] || at == [] || at[0] != addr[0] then line
    else if |at| == 1 then
      var x := Pass(line[0], order);
      [x.stage] + FeedLine(line[1..], x.outs)
    else [line[0]] + EvictLine(line[1..], addr[1..], at[1..], order)
  }

  function HaltLine(line: seq<Stage>): (r: seq<Stage>)
    ensures |r| == |line| && forall i :: 0 <= i < |line| ==> r[i] == Halted(line[i])
  {
    if line == [] then [] else [Halted(line[0])] + HaltLine(line[1..])
  }

  function StepLine(line: seq<Stage>, addr: seq<nat>, e: Event): seq<Stage> {
    match e
    case Input(r) => FeedLine(line, [r])
    case Eviction(at, order) => EvictLine(line, addr, at, order)
    case Halt => HaltLine(line)
  }

  function RunLine(line: seq<Stage>, addr: seq<nat>, es: seq<Event>): seq<Stage> {
    if es == [] then line else StepLine(RunLine(line, addr, es[..|es| - 1]), addr, es[|es| - 1])
  }

  lemma {:induction false} LineOfFeed(ts: seq<Tree>, addr: seq<nat>, rs: seq<Record>)
    ensures Line(FeedAll(ts, rs), addr) == FeedLine(Line(ts, addr), rs)
    decreases addr
  {
    hide ReactAll;
    if addr != [] && addr[0] < |ts| {
      FeedAllAt(ts, rs, addr[0]);
      var t := ts[addr[0]];
      LineOfFeed(t.next, addr[1..], ReactAll(t.stage, rs).outs);
    }
  }

  lemma {:induction false} LineOfEvict(ts: seq<Tree>, addr: seq<nat>, at: seq<nat>, order: seq<KeyBytes>)
    ensures Line(EvictIn(ts, at, order), addr) == EvictLine(Line(ts, addr), addr, at, order)
    decreases addr
  {
    hide Pass, FeedAll, FeedLine;
    if addr != [] && addr[0] < |ts| && at != [] && at[0] == addr[0] {
      var t := ts[addr[0]];
      if |at| == 1 {
        LineOfFeed(t.next, addr[1..], Pass(t.stage, order).outs);
      } else {
        LineOfEvict(t.next, addr[1..], at[1..], order);
        assert EvictAt(t, at[1..], order).next == EvictIn(t.next, at[1..], order);
      }
    }
  }

  lemma {:induction false} LineOfHalt(ts: seq<Tree>, addr: seq<nat>)
    ensures Line(HaltAll(ts), addr) == HaltLine(Line(ts, addr))
    decreases addr
  {
    if addr != [] && addr[0] < |ts| {
      HaltAllAt(ts, addr[0]);
      LineOfHalt(ts[addr[0]].next, addr[1..]);
    }
  }

  /** Whatever arrives and whatever the threads do, each line of the tree ends up as if it had run alone. */
  lemma {:induction false} LinesRunAlone(ts: seq<Tree>, addr: seq<nat>, es: seq<Event>)
    ensures Line(RunForest(ts, es), addr) == RunLine(Line(ts, addr), addr, es)
  {
    hide Line, Step, StepLine;
    if es != [] {
      LinesRunAlone(ts, addr, es[..|es| - 1]);
      StepOfLine(RunForest(ts, es[..|es| - 1]), addr, es[|es| - 1]);
    }
  }

  lemma StepOfLine(ts: seq<Tree>, addr: seq<nat>, e: Event)
    ensures Line(Step(ts, e), addr) == StepLine(Line(ts, addr), addr, e)
  {
    hide Line, FeedLine, EvictLine;
    match e
    case Input(r) => LineOfFeed(ts, addr, [r]);
    case Eviction(at, order) => LineOfEvict(ts, addr, at, order);
    case Halt => LineOfHalt(ts, addr);
  }

  // ---- Shutdown ----

  predicate NoAggregator(line: seq<Stage>) { forall i :: 0 <= i < |line| ==> !line[i].AggStage? }

  lemma {:induction false} HaltNoAggregator(line: seq<Stage>)
    requires NoAggregator(line)
    ensures HaltLine(line) == line
  {
    if line != [] { HaltNoAggregator(line[1..]); }
  }

  /** Everything stored, as records in this order. */
  function StoredRecords(a: AggBox, order: seq<KeyBytes>): seq<Record> {
    Pass(AggStage(a, true), order).outs
  }

  /** The records made from the groups under these keys, in order. */
  function EmitEach(a: AggBox, order: seq<KeyBytes>): seq<Option<Record>>
    requires forall k :: k in order ==> k in a.store
  {
    if order == [] then []
    else EmitEach(a, order[..|order| - 1]) + [Emit(a.cfg, a.store[order[|order| - 1]])]
  }

  lemma {:induction false} EvictOut(a: AggBox, stop: bool, order: seq<KeyBytes>)
    requires NoDuplicates(order) && forall k :: k in order ==> k in a.store
    ensures Evict(a.cfg, Machine(a.store, stop), order).out == EmitEach(a, order)
  {
    hide Emit;
    if order != [] {
      var init, k := order[..|order| - 1], order[|order| - 1];
      EvictOut(a, stop, init);
      EvictFrame(a.cfg, Machine(a.store, stop), init);
      assert order == init + [k];
      EvictSnoc(a.cfg, Machine(a.store, stop), init, k);
    }
  }

  /** What the destructor sends is one record for each stored group. */
  lemma StoredRecordsAreGroups(a: AggBox, order: seq<KeyBytes>)
    requires Enumerates(order, a.store.Keys)
    ensures StoredRecords(a, order) == Sent(EmitEach(a, order)) && |EmitEach(a, order)| == |a.store|
  {
    hide Evict, Emit, Sent;
    EvictOut(a, true, order);
    EmitEachLength(a, order);
    DistinctIsSetSize(order);
    assert Elements(order) == a.store.Keys;
  }

  lemma {:induction false} EmitEachLength(a: AggBox, order: seq<KeyBytes>)
    requires forall k :: k in order ==> k in a.store
    ensures |EmitEach(a, order)| == |order|
  {
    if order != [] { EmitEachLength(a, order[..|order| - 1]); }
  }

  /** The destructor of a line's only aggregator sends every stored group, once, through the stages behind it, and keeps
      none. */
  lemma {:induction false} ShutdownDelivers(line: seq<Stage>, addr: seq<nat>, k: nat, order: seq<KeyBytes>)
    requires k < |line| <= |addr| && line[k].AggStage? && Enumerates(order, line[k].agg.store.Keys)
    requires NoAggregator(line[..k]) && NoAggregator(line[k + 1..])
    ensures EvictLine(HaltLine(line), addr, addr[..k + 1], order)
         == Delivered(line, k, order)
    decreases k
  {
    hide FeedLine, Pass, StoredRecords, Enumerates, Delivered, NoAggregator, Halted;
    var at := addr[..k + 1];
    var h := HaltLine(line);
    assert at[0] == addr[0] && h[1..] == HaltLine(line[1..]);
    if k == 0 {
      assert line[1..] == line[k + 1..];
      HaltNoAggregator(line[1..]);
      PassEmpties(line[0].agg, order);
      HaltedAgg(line[0]);
      DeliveredFirst(line, order);
    } else {
      FrontWithout(line, k);
      assert at[1..] == addr[1..][..k];
      ShutdownDelivers(line[1..], addr[1..], k - 1, order);
      DeliveredCons(line, k, order);
    }
  }

  lemma PassEmpties(a: AggBox, order: seq<KeyBytes>)
    requires Enumerates(order, a.store.Keys)
    ensures Pass(AggStage(a, true), order)
         == Reaction(AggStage(RawAgg(a.cfg, map[]), true), StoredRecords(a, order))
  {
    hide Evict, Sent;
    EvictFrame(a.cfg, Machine(a.store, true), order);
    assert Evict(a.cfg, Machine(a.store, true), order).store == map[];
  }

  /** The line after the destructor of its aggregator, the k-th stage. */
  function Delivered(line: seq<Stage>, k: nat, order: seq<KeyBytes>): seq<Stage>
    requires k < |line| && line[k].AggStage?
  {
    line[..k] + [AggStage(RawAgg(line[k].agg.cfg, map[]), true)]
    + FeedLine(line[k + 1..], StoredRecords(line[k].agg, order))
  }

  lemma HaltedAgg(s: Stage)
    requires s.AggStage?
    ensures Halted(s) == AggStage(s.agg, true)
  {
  }

  /** Without its first stage, the line still has its only aggregator. */
  lemma FrontWithout(line: seq<Stage>, k: nat)
    requires 0 < k < |line| && NoAggregator(line[..k]) && NoAggregator(line[k + 1..])
    ensures line[1..][k - 1] == line[k] && NoAggregator(line[1..][..k - 1]) && NoAggregator(line[1..][k..])
    ensures Halted(line[0]) == line[0]
  {
    assert line[..k][0] == line[0];
    assert line[1..][..k - 1] == line[..k][1..];
    assert line[1..][k..] == line[k + 1..];
  }

  lemma DeliveredFirst(line: seq<Stage>, order: seq<KeyBytes>)
    requires line != [] && line[0].AggStage?
    ensures Delivered(line, 0, order)
         == [AggStage(RawAgg(line[0].agg.cfg, map[]), true)] + FeedLine(line[1..], StoredRecords(line[0].agg, order))
  {
    hide FeedLine, StoredRecords;
    assert line[..0] == [];
  }

  lemma DeliveredCons(line: seq<Stage>, k: nat, order: seq<KeyBytes>)
    requires 0 < k < |line| && line[k].AggStage? && line[1..][k - 1] == line[k]
    ensures Delivered(line, k, order) == [line[0]] + Delivered(line[1..], k - 1, order)
  {
    hide FeedLine, StoredRecords;
    assert line[..k] == [line[0]] + line[1..][..k - 1];
    assert line[1..][k..] == line[k + 1..];
  }

  /** An eviction at another address, or where the line has no aggregator, leaves the line as it is. */
  lemma {:induction false} EvictElsewhere(line: seq<Stage>, addr: seq<nat>, at: seq<nat>, order: seq<KeyBytes>)
    requires forall k :: 0 <= k < |line| && k < |addr| && line[k].AggStage? ==> at != addr[..k + 1]
    ensures EvictLine(line, addr, at, order) == line
    decreases line
  {
    hide FeedLine, Evict, Sent;
    if line != [] && addr != [] && at != [] && at[0] == addr[0] {
      if |at| == 1 {
        assert at == addr[..1];
        FeedLineNothing(line[1..]);
      } else {
        forall k | 0 <= k < |line[1..]| && k < |addr[1..]| && line[1..][k].AggStage? ensures at[1..] != addr[1..][..k + 1] {
          assert addr[..k + 2] == [addr[0]] + addr[1..][..k + 1];
          assert at == [at[0]] + at[1..];
        }
        EvictElsewhere(line[1..], addr[1..], at[1..], order);
      }
    }
  }

  lemma {:induction false} QuietRun(line: seq<Stage>, addr: seq<nat>, es: seq<Event>)
    requires forall e :: e in es ==> e.Eviction?
    requires forall e, k :: e in es && 0 <= k < |line| && k < |addr| && line[k].AggStage? ==> e.at != addr[..k + 1]
    ensures RunLine(line, addr, es) == line
  {
    hide EvictLine;
    if es != [] {
      QuietRun(line, addr, es[..|es| - 1]);
      EvictElsewhere(line, addr, es[|es| - 1].at, es[|es| - 1].order);
    }
  }

  lemma {:induction false} RunLineAppend(line: seq<Stage>, addr: seq<nat>, a: seq<Event>, b: seq<Event>)
    ensures RunLine(line, addr, a + b) == RunLine(RunLine(line, addr, a), addr, b)
    decreases b
  {
    hide StepLine;
    if b == [] {
      assert a + b == a;
    } else {
      RunLineAppend(line, addr, a, b[..|b| - 1]);
      assert (a + b)[..|a + b| - 1] == a + b[..|b| - 1];
    }
  }

  lemma {:induction false} FeedLineKinds(line: seq<Stage>, rs: seq<Record>)
    ensures |FeedLine(line, rs)| == |line|
    ensures forall i :: 0 <= i < |line| ==> (FeedLine(line, rs)[i].AggStage? <==> line[i].AggStage?)
  {
    if line != [] {
      ReactAllKind(line[0], rs);
      FeedLineKinds(line[1..], ReactAll(line[0], rs).outs);
    }
  }

  lemma {:induction false} ReactAllKind(s: Stage, rs: seq<Record>)
    ensures ReactAll(s, rs).stage.AggStage? <==> s.AggStage?
    decreases rs
  {
    if rs != [] { ReactAllKind(React(s, rs[0]).stage, rs[1..]); }
  }

  lemma StepLineKinds(line: seq<Stage>, addr: seq<nat>, e: Event)
    ensures var r := StepLine(line, addr, e);
            |r| == |line| && forall i :: 0 <= i < |line| ==> (r[i].AggStage? <==> line[i].AggStage?)
  {
    hide FeedLine, EvictLine;
    match e
    case Input(r) => FeedLineKinds(line, [r]);
    case Eviction(at, order) => EvictLineKinds(line, addr, at, order);
    case Halt =>
  }

  lemma {:induction false} EvictLineKinds(line: seq<Stage>, addr: seq<nat>, at: seq<nat>, order: seq<KeyBytes>)
    ensures var r := EvictLine(line, addr, at, order);
            |r| == |line| && forall i :: 0 <= i < |line| ==> (r[i].AggStage? <==> line[i].AggStage?)
    decreases line
  {
    hide FeedLine, Evict, Sent;
    if line != [] && addr != [] && at != [] && at[0] == addr[0] {
      if |at| == 1 {
        FeedLineKinds(line[1..], Pass(line[0], order).outs);
      } else {
        EvictLineKinds(line[1..], addr[1..], at[1..], order);
      }
    }
  }

  /** The whole shutdown, in whatever order the aggregators of all branches are destroyed: of a line with one aggregator,
      every stored group is sent once through the stages behind it. */
  lemma ShutdownRun(line: seq<Stage>, addr: seq<nat>, k: nat, before: seq<Event>, order: seq<KeyBytes>, after: seq<Event>)
    requires k < |line| <= |addr| && line[k].AggStage? && Enumerates(order, line[k].agg.store.Keys)
    requires NoAggregator(line[..k]) && NoAggregator(line[k + 1..])
    requires forall e :: e in before + after ==> e.Eviction? && e.at != addr[..k + 1]
    ensures RunLine(line, addr, [Halt] + before + [Eviction(addr[..k + 1], order)] + after) == Delivered(line, k, order)
  {
    hide RunLine, EvictLine, HaltLine, Delivered, Enumerates, NoAggregator;
    var h, d, e := HaltLine(line), Delivered(line, k, order), Eviction(addr[..k + 1], order);
    ShutdownDelivers(line, addr, k, order);
    DeliveredShape(line, k, order);
    HaltShape(line, k);
    RunLineAppend(line, addr, [Halt] + before + [e], after);
    RunLineAppend(line, addr, [Halt] + before, [e]);
    RunLineAppend(line, addr, [Halt], before);
    OneStep(line, addr, Halt);
    OneStep(h, addr, e);
    QuietElsewhere(h, addr, k, before);
    QuietElsewhere(d, addr, k, after);
  }

  /** A line whose only aggregator is the k-th stage is not touched by evictions at other addresses. */
  lemma QuietElsewhere(line: seq<Stage>, addr: seq<nat>, k: nat, es: seq<Event>)
    requires k < |addr| && forall i :: 0 <= i < |line| && line[i].AggStage? ==> i == k
    requires forall e :: e in es ==> e.Eviction? && e.at != addr[..k + 1]
    ensures RunLine(line, addr, es) == line
  {
    hide RunLine;
    QuietRun(line, addr, es);
  }

  lemma OneStep(line: seq<Stage>, addr: seq<nat>, e: Event)
    ensures RunLine(line, addr, [e]) == StepLine(line, addr, e)
  {
    assert [e][..0] == [];
  }

  lemma HaltShape(line: seq<Stage>, k: nat)
    requires k < |line| && NoAggregator(line[..k]) && NoAggregator(line[k + 1..])
    ensures forall i :: 0 <= i < |HaltLine(line)| && HaltLine(line)[i].AggStage? ==> i == k
  {
    forall i | 0 <= i < |line| && i != k ensures !line[i].AggStage? {
      assert line[i] == if i < k then line[..k][i] else line[k + 1..][i - k - 1];
    }
  }

  lemma DeliveredShape(line: seq<Stage>, k: nat, order: seq<KeyBytes>)
    requires k < |line| && line[k].AggStage? && NoAggregator(line[..k]) && NoAggregator(line[k + 1..])
    ensures var d := Delivered(line, k, order);
            forall i :: 0 <= i < |d| && d[i].AggStage? ==> i == k
  {
    hide FeedLine, StoredRecords;
    var d, rest := Delivered(line, k, order), FeedLine(line[k + 1..], StoredRecords(line[k].agg, order));
    FeedLineKinds(line[k + 1..], StoredRecords(line[k].agg, order));
    forall i | 0 <= i < |d| && i != k ensures !d[i].AggStage? {
      assert d[i] == if i < k then line[..k][i] else rest[i - k - 1];
    }
  }

  lemma {:induction false} StoppedDrops(a: AggBox, rs: seq<Record>)
    ensures ReactAll(AggStage(a, true), rs) == Reaction(AggStage(a, true), [])
  {
    if rs != [] { StoppedDrops(a, rs[1..]); }
  }

  lemma {:induction false} FeedLineNothing(line: seq<Stage>)
    ensures FeedLine(line, []) == line
  {
    if line != [] { FeedLineNothing(line[1..]); }
  }

  /** Nothing gets past a stopped aggregator. */
  lemma {:induction false} StoppedShields(h: seq<Stage>, j: nat, rs: seq<Record>)
    requires j < |h| && h[j].AggStage? && h[j].stop
    ensures |FeedLine(h, rs)| == |h| && FeedLine(h, rs)[j..] == h[j..]
    decreases j
  {
    hide ReactAll, FeedLine;
    var x := ReactAll(h[0], rs);
    FeedLineCons(h, rs);
    assert h == [h[0]] + h[1..];
    if j == 0 {
      StoppedDrops(h[0].agg, rs);
      FeedLineNothing(h[1..]);
    } else {
      StoppedShields(h[1..], j - 1, x.outs);
      BehindFirst(x.stage, FeedLine(h[1..], x.outs), j);
      BehindFirst(h[0], h[1..], j);
    }
  }

  lemma FeedLineCons(line: seq<Stage>, rs: seq<Record>)
    requires line != []
    ensures var x := ReactAll(line[0], rs);
            FeedLine(line, rs) == [x.stage] + FeedLine(line[1..], x.outs)
  {
  }

  /** An aggregator behind another one would drop what the first sends on destruction: nothing at or behind it changes. */
  lemma ShutdownLoses(line: seq<Stage>, j: nat, rs: seq<Record>)
    requires j < |line| && line[j].AggStage?
    ensures |FeedLine(HaltLine(line), rs)| == |line|
    ensures FeedLine(HaltLine(line), rs)[j..] == HaltLine(line)[j..]
  {
    hide FeedLine;
    StoppedShields(HaltLine(line), j, rs);
  }

  lemma BehindFirst(s: Stage, rest: seq<Stage>, j: nat)
    requires 1 <= j <= |rest| + 1
    ensures ([s] + rest)[j..] == rest[j - 1..]
  {
  }

  // ---- The objects ----

  /** A stage object. The links never change, only the states do. */
  class StageNode {
    var stage: Stage
    const successors: seq<StageNode>
    ghost const below: set<StageNode>

    /** The objects form a tree: the successors' objects are apart from each other and from this one. */
    ghost predicate Linked()
      decreases below
    {
      && this in below
      && (forall i :: 0 <= i < |successors| ==>
            successors[i].below <= below && this !in successors[i].below && successors[i].Linked())
      && forall i, j :: 0 <= i < j < |successors| ==> successors[i].below !! successors[j].below
    }

    ghost function View(): Tree
      requires Linked()
      reads below
      decreases below, |successors| + 1
    {
      Tree(stage, Views(|successors|))
    }

    /** The trees of the first n successors. */
    ghost function Views(n: nat): (r: seq<Tree>)
      requires Linked() && n <= |successors|
      reads below
      ensures |r| == n && forall i :: 0 <= i < n ==> r[i] == successors[i].View()
      decreases below, n
    {
      if n == 0 then [] else Views(n - 1) + [successors[n - 1].View()]
    }

    constructor (stage: Stage, successors: seq<StageNode>)
      requires forall i :: 0 <= i < |successors| ==> successors[i].Linked()
      requires forall i, j :: 0 <= i < j < |successors| ==> successors[i].below !! successors[j].below
      ensures Linked() && this.stage == stage && this.successors == successors
      ensures forall i :: 0 <= i < |successors| ==> successors[i].below <= below
    {
      this.stage, this.successors := stage, successors;
      this.below := {this} + Union(successors);
    }

    /** One record in: react, then send every result to every successor before the next result. */
    method Eval(r: Record)
      requires Linked()
      modifies below
      ensures View() == Feed(old(View()), [r])
      decreases below, 1
    {
      hide React;
      ghost var before := View();
      var x := React(stage, r);
      stage := x.stage;
      assert ReactAll(before.stage, [r]) == x by {
        assert [r][1..] == [];
        assert x.outs + [] == x.outs;
      }
      SendAll(before.next, x.outs);
    }

    /** The aggregator's thread or destruction. */
    method SendOut(order: seq<KeyBytes>)
      requires Linked()
      modifies below
      ensures View() == EvictAt(old(View()), [], order)
    {
      hide Pass;
      ghost var before := View();
      var x := Pass(stage, order);
      stage := x.stage;
      SendAll(before.next, x.outs);
    }

    method SendAll(ghost next: seq<Tree>, outs: seq<Record>)
      requires Linked() && Views(|successors|) == next
      modifies below - {this}
      ensures Views(|successors|) == FeedAll(next, outs)
      decreases below, 0, 1, |outs|
    {
      if outs == [] {
        FeedAllNothing(next);
      } else {
        Send(next, outs[0]);
        SendAll(FeedAll(next, [outs[0]]), outs[1..]);
        FeedAllTwice(next, [outs[0]], outs[1..]);
        assert [outs[0]] + outs[1..] == outs;
      }
    }

    method Send(ghost next: seq<Tree>, r: Record)
      requires Linked() && Views(|successors|) == next
      modifies below - {this}
      ensures Views(|successors|) == FeedAll(next, [r])
      decreases below, 0, 0, 1
    {
      hide Feed, FeedAll, View, Views;
      for i := 0 to |successors|
        invariant forall j :: 0 <= j < i ==> successors[j].View() == Feed(next[j], [r])
        invariant forall j :: i <= j < |successors| ==> successors[j].View() == next[j]
      {
        SendTo(i, r);
      }
      forall i | 0 <= i < |successors| ensures Views(|successors|)[i] == FeedAll(next, [r])[i] {
        FeedAllAt(next, [r], i);
      }
    }

    /** What one successor does leaves the others as they are. */
    method SendTo(i: nat, r: Record)
      requires Linked() && i < |successors|
      modifies successors[i].below
      ensures successors[i].View() == Feed(old(successors[i].View()), [r])
      ensures forall j :: 0 <= j < |successors| && j != i ==> successors[j].View() == old(successors[j].View())
      decreases below, 0, 0, 0
    {
      hide Feed, View;
      successors[i].Eval(r);
      forall j | 0 <= j < |successors| && j != i ensures successors[j].View() == old(successors[j].View()) {
        assert successors[j].below !! successors[i].below;
      }
    }
  }

  /** The main loop's body: a received record goes to every pipeline in turn. */
  method Process(pipelines: seq<StageNode>, ghost before: seq<Tree>, r: Record)
    requires Apart(pipelines) && |before| == |pipelines|
    requires forall i :: 0 <= i < |pipelines| ==> pipelines[i].View() == before[i]
    modifies Union(pipelines)
    ensures forall i :: 0 <= i < |pipelines| ==> pipelines[i].View() == Step(before, Input(r))[i]
  {
    hide Feed, FeedAll;
    for i := 0 to |pipelines|
      invariant forall j :: 0 <= j < i ==> pipelines[j].View() == Feed(before[j], [r])
      invariant forall j :: i <= j < |pipelines| ==> pipelines[j].View() == before[j]
    {
      label Turn:
      pipelines[i].Eval(r);
      forall j | 0 <= j < |pipelines| && j != i
        ensures pipelines[j].View() == old@Turn(pipelines[j].View())
      {
        assert pipelines[j].below !! pipelines[i].below;
      }
    }
    forall i | 0 <= i < |pipelines| ensures pipelines[i].View() == FeedAll(before, [r])[i] {
      FeedAllAt(before, [r], i);
    }
  }

  ghost predicate Apart(nodes: seq<StageNode>) {
    && (forall i :: 0 <= i < |nodes| ==> nodes[i].Linked())
    && forall i, j :: 0 <= i < j < |nodes| ==> nodes[i].below !! nodes[j].below
  }

  ghost function Union(nodes: seq<StageNode>): set<StageNode> {
    set i, n | 0 <= i < |nodes| && n in nodes[i].below :: n
  }
}
