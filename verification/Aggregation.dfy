/** The aggregator's critical sections as atomic steps of a state machine, and the specification they refine:
    "partition the accepted records into groups and fold each group". Eval, the timeout thread's sweep and
    flush, shutdown and the other aggregators (through the two process-wide flags) interleave freely. */
module Aggregation {
  import opened Records
  import opened Sequences
  import opened Wrappers
  import opened AggFunctions

  type KeyBytes = seq<Byte>

  /** `once` and `stop` are process-wide: every aggregator of the process sees the same two flags. */
  datatype State = State(store: map<KeyBytes, Stored>, clock: int, once: bool, stop: bool, out: seq<Option<Record>>)

  datatype Step =
    | Seed(r: Record)                 // eval: the first record ever seen by any aggregator sets the clock
    | Store(r: Record)                // eval: the storage section
    | Start                           // the passive thread starts
    | Sweep(order: seq<KeyBytes>)     // one pass over the storage; the evicted keys in iteration order
    | Advance                         // the thread moves its clock after a pass
    | Flush(order: seq<KeyBytes>)     // global timeout or destruction; all keys in iteration order
    | Stop                            // destruction of this or of another aggregator begins
    | SeedElsewhere                   // another aggregator has seen the first record

  function ActiveTimeout(w: Window): Option<nat> {
    match w
    case Active(t) => Some(t)
    case Mixed(a, _) => Some(a)
    case _ => None
  }

  function PassiveTimeout(w: Window): Option<nat> {
    match w
    case Passive(t) => Some(t)
    case Mixed(_, p) => Some(p)
    case _ => None
  }

  /** A record starting more than the active timeout after the group's start opens a new window. */
  predicate Expired(w: Window, first: nat, r: Record) {
    ActiveTimeout(w).Some? && Sec(first) + ActiveTimeout(w).value < Sec(r.first)
  }

  /** Strictly older than the cut-off. */
  predicate Stale(w: Window, clock: int, last: nat) {
    PassiveTimeout(w).Some? && Sec(last) < clock - PassiveTimeout(w).value
  }

  function Moved(w: Window, clock: int): int {
    if PassiveTimeout(w).Some? then clock + PassiveTimeout(w).value else clock
  }

  predicate Enumerates(order: seq<KeyBytes>, ks: set<KeyBytes>) {
    NoDuplicates(order) && (forall k :: k in order ==> k in ks) && (forall k :: k in ks ==> k in order)
  }

  // ---- The program ----

  predicate Valid(cfg: Config, s: State) {
    forall k :: k in s.store ==> Shaped(cfg, s.store[k])
  }

  function StoreStep(cfg: Config, s: State, r: Record): State
    requires Valid(cfg, s)
  {
    var k := KeyOf(cfg.keys, r);
    if s.stop then s
    else if k !in s.store then s.(store := s.store[k := Init(cfg, r)])
    else if Expired(cfg.window, s.store[k].first, r) then
      s.(store := s.store[k := Init(cfg, r)], out := s.out + [Emit(cfg, s.store[k])])
    else s.(store := s.store[k := Update(cfg, s.store[k], r)])
  }

  function Evict(cfg: Config, s: State, order: seq<KeyBytes>): State
    requires Valid(cfg, s)
    ensures Valid(cfg, Evict(cfg, s, order))
  {
    if order == [] then s
    else
      var s1 := Evict(cfg, s, order[..|order| - 1]);
      var k := order[|order| - 1];
      if k in s1.store then s1.(store := s1.store - {k}, out := s1.out + [Emit(cfg, s1.store[k])]) else s1
  }

  function Next(cfg: Config, s: State, step: Step): (s': State)
    requires Valid(cfg, s)
    ensures Valid(cfg, s')
  {
    match step
    case Seed(r) => if s.once then s.(clock := Sec(r.last), once := false) else s
    case Store(r) => StoreStep(cfg, s, r)
    case Start => s.(clock := Moved(cfg.window, s.clock))
    case Sweep(order) => Evict(cfg, s, order)
    case Advance => s.(clock := Moved(cfg.window, s.clock))
    case Flush(order) => Evict(cfg, s, order)
    case Stop => s.(stop := true)
    case SeedElsewhere => s.(once := false)
  }

  function StaleKeys(cfg: Config, s: State): set<KeyBytes> {
    set k | k in s.store && Stale(cfg.window, s.clock, s.store[k].last)
  }

  lemma {:induction false} EvictFrame(cfg: Config, s: State, order: seq<KeyBytes>)
    requires Valid(cfg, s)
    ensures var s' := Evict(cfg, s, order);
            && s'.clock == s.clock && s'.once == s.once && s'.stop == s.stop
            && (forall k :: k in s'.store <==> k in s.store && k !in order)
            && (forall k :: k in s'.store ==> s'.store[k] == s.store[k])
  {
    if order != [] {
      EvictFrame(cfg, s, order[..|order| - 1]);
      assert order == order[..|order| - 1] + [order[|order| - 1]];
    }
  }

  lemma EvictNil(cfg: Config, s: State)
    requires Valid(cfg, s)
    ensures Evict(cfg, s, []) == s
  {
  }

  lemma EvictSnoc(cfg: Config, s: State, order: seq<KeyBytes>, k: KeyBytes)
    requires Valid(cfg, s)
    ensures var s1 := Evict(cfg, s, order);
            Evict(cfg, s, order + [k]) ==
            if k in s1.store then s1.(store := s1.store - {k}, out := s1.out + [Emit(cfg, s1.store[k])]) else s1
  {
    assert (order + [k])[..|order|] == order;
  }

  /** Which keys a pass over the storage meets. */
  predicate Enabled(cfg: Config, s: State, step: Step) {
    match step
    case Sweep(order) => Enumerates(order, StaleKeys(cfg, s))
    case Flush(order) => Enumerates(order, s.store.Keys)
    case _ => true
  }

  function Run(cfg: Config, s: State, steps: seq<Step>): (s': State)
    requires Valid(cfg, s)
    ensures Valid(cfg, s')
  {
    if steps == [] then s else Next(cfg, Run(cfg, s, steps[..|steps| - 1]), steps[|steps| - 1])
  }

  predicate Possible(cfg: Config, s: State, steps: seq<Step>)
    requires Valid(cfg, s)
  {
    steps == [] ||
    (Possible(cfg, s, steps[..|steps| - 1]) &&
     Enabled(cfg, Run(cfg, s, steps[..|steps| - 1]), steps[|steps| - 1]))
  }

  function Initial(clock: int): State {
    State(map[], clock, true, false, [])
  }

  // ---- The specification ----

  datatype Group = Group(key: KeyBytes, recs: seq<Record>)

  /** `log` is the sequence of records accepted so far. */
  datatype Groups = Groups(open: map<KeyBytes, seq<Record>>, closed: seq<Group>, clock: int, once: bool, stop: bool,
                           log: seq<Record>)

  function EarliestStart(g: seq<Record>): nat requires g != [] { FoldVals(Min, 64, Column(g, AggFunctions.Start)) }

  function LatestEnd(g: seq<Record>): nat requires g != [] { FoldVals(Max, 64, Column(g, AggFunctions.End)) }

  predicate NonEmpty(gs: Groups) {
    (forall k :: k in gs.open ==> gs.open[k] != []) && (forall i :: 0 <= i < |gs.closed| ==> gs.closed[i].recs != [])
  }

  /** A record joins the open group of its key unless it starts a new window. */
  function AcceptAt(w: Window, gs: Groups, k: KeyBytes, r: Record): (gs': Groups)
    requires NonEmpty(gs)
    ensures NonEmpty(gs')
  {
    var logged := gs.(log := gs.log + [r]);
    if k !in gs.open then logged.(open := gs.open[k := [r]])
    else if Expired(w, EarliestStart(gs.open[k]), r) then
      logged.(open := gs.open[k := [r]], closed := gs.closed + [Group(k, gs.open[k])])
    else logged.(open := gs.open[k := gs.open[k] + [r]])
  }

  function AcceptRecord(cfg: Config, gs: Groups, r: Record): (gs': Groups)
    requires NonEmpty(gs)
    ensures NonEmpty(gs')
  {
    if gs.stop then gs else AcceptAt(cfg.window, gs, KeyOf(cfg.keys, r), r)
  }

  function Close(gs: Groups, order: seq<KeyBytes>): (gs': Groups)
    requires NonEmpty(gs)
    ensures NonEmpty(gs')
  {
    if order == [] then gs
    else
      var g1 := Close(gs, order[..|order| - 1]);
      var k := order[|order| - 1];
      if k in g1.open then g1.(open := g1.open - {k}, closed := g1.closed + [Group(k, g1.open[k])]) else g1
  }

  function NextGroups(cfg: Config, gs: Groups, step: Step): (gs': Groups)
    requires NonEmpty(gs)
    ensures NonEmpty(gs')
  {
    match step
    case Seed(r) => if gs.once then gs.(clock := Sec(r.last), once := false) else gs
    case Store(r) => AcceptRecord(cfg, gs, r)
    case Start => gs.(clock := Moved(cfg.window, gs.clock))
    case Sweep(order) => Close(gs, order)
    case Advance => gs.(clock := Moved(cfg.window, gs.clock))
    case Flush(order) => Close(gs, order)
    case Stop => gs.(stop := true)
    case SeedElsewhere => gs.(once := false)
  }

  function RunGroups(cfg: Config, gs: Groups, steps: seq<Step>): (gs': Groups)
    requires NonEmpty(gs)
    ensures NonEmpty(gs')
  {
    if steps == [] then gs else NextGroups(cfg, RunGroups(cfg, gs, steps[..|steps| - 1]), steps[|steps| - 1])
  }

  function NoGroups(clock: int): Groups {
    Groups(map[], [], clock, true, false, [])
  }

  // ---- Refinement ----

  function EmitAll(cfg: Config, closed: seq<Group>): seq<Option<Record>>
    requires forall i :: 0 <= i < |closed| ==> closed[i].recs != []
  {
    if closed == [] then []
    else EmitAll(cfg, closed[..|closed| - 1]) + [Emit(cfg, Fold(cfg, closed[|closed| - 1].recs))]
  }

  function MapValues<K, V, W>(m: map<K, V>, f: V --> W): map<K, W>
    requires forall k :: k in m ==> f.requires(m[k])
  {
    map k | k in m :: f(m[k])
  }

  function Folder(cfg: Config): seq<Record> --> Stored {
    (g: seq<Record>) requires g != [] => Fold(cfg, g)
  }

  /** The program state that holds these groups: every open group folded, every closed group folded and sent. */
  function Concrete(cfg: Config, gs: Groups): (s: State)
    requires NonEmpty(gs)
    ensures Valid(cfg, s)
  {
    State(MapValues(gs.open, Folder(cfg)), gs.clock, gs.once, gs.stop, EmitAll(cfg, gs.closed))
  }

  lemma EmitAllSnoc(cfg: Config, closed: seq<Group>, g: Group)
    requires (forall i :: 0 <= i < |closed| ==> closed[i].recs != []) && g.recs != []
    ensures EmitAll(cfg, closed + [g]) == EmitAll(cfg, closed) + [Emit(cfg, Fold(cfg, g.recs))]
  {
    assert (closed + [g])[..|closed|] == closed;
  }

  lemma FoldSnoc(cfg: Config, g: seq<Record>, r: Record)
    ensures Fold(cfg, g + [r]) == if g == [] then Init(cfg, r) else Update(cfg, Fold(cfg, g), r)
  {
    assert (g + [r])[..|g|] == g;
  }

  lemma MapUpdate<K, V, W>(m: map<K, V>, k: K, v: V, f: V --> W)
    requires (forall x :: x in m ==> f.requires(m[x])) && f.requires(v)
    ensures MapValues(m[k := v], f) == MapValues(m, f)[k := f(v)]
  {
  }

  lemma MapRemove<K, V, W>(m: map<K, V>, k: K, f: V --> W)
    requires forall x :: x in m ==> f.requires(m[x])
    ensures MapValues(m - {k}, f) == MapValues(m, f) - {k}
  {
  }

  lemma ConcreteUpdate(cfg: Config, gs: Groups, gs': Groups, k: KeyBytes, g: seq<Record>)
    requires NonEmpty(gs) && NonEmpty(gs') && g != [] && gs'.open == gs.open[k := g]
    ensures Concrete(cfg, gs').store == Concrete(cfg, gs).store[k := Fold(cfg, g)]
  {
    MapUpdate(gs.open, k, g, Folder(cfg));
  }

  lemma ConcreteRemove(cfg: Config, gs: Groups, gs': Groups, k: KeyBytes)
    requires NonEmpty(gs) && NonEmpty(gs') && gs'.open == gs.open - {k}
    ensures Concrete(cfg, gs').store == Concrete(cfg, gs).store - {k}
  {
    MapRemove(gs.open, k, Folder(cfg));
  }

  lemma RefineStore(cfg: Config, gs: Groups, r: Record)
    requires NonEmpty(gs)
    ensures StoreStep(cfg, Concrete(cfg, gs), r) == Concrete(cfg, AcceptRecord(cfg, gs, r))
  {
    var k, gs' := KeyOf(cfg.keys, r), AcceptRecord(cfg, gs, r);
    if gs.stop {
    } else if k !in gs.open {
      FoldSnoc(cfg, [], r);
      ConcreteUpdate(cfg, gs, gs', k, [r]);
    } else {
      var g := gs.open[k];
      FoldTimes(cfg, g);
      if Expired(cfg.window, EarliestStart(g), r) {
        FoldSnoc(cfg, [], r);
        ConcreteUpdate(cfg, gs, gs', k, [r]);
        EmitAllSnoc(cfg, gs.closed, Group(k, g));
      } else {
        FoldSnoc(cfg, g, r);
        ConcreteUpdate(cfg, gs, gs', k, g + [r]);
      }
    }
  }

  lemma {:induction false} RefineEvict(cfg: Config, gs: Groups, order: seq<KeyBytes>)
    requires NonEmpty(gs)
    ensures Evict(cfg, Concrete(cfg, gs), order) == Concrete(cfg, Close(gs, order))
  {
    if order != [] {
      RefineEvict(cfg, gs, order[..|order| - 1]);
      var g1 := Close(gs, order[..|order| - 1]);
      var k := order[|order| - 1];
      if k in g1.open {
        EmitAllSnoc(cfg, g1.closed, Group(k, g1.open[k]));
        ConcreteRemove(cfg, g1, Close(gs, order), k);
      }
    }
  }

  lemma RefineStep(cfg: Config, gs: Groups, step: Step)
    requires NonEmpty(gs)
    ensures Next(cfg, Concrete(cfg, gs), step) == Concrete(cfg, NextGroups(cfg, gs, step))
  {
    match step
    case Store(r) => RefineStore(cfg, gs, r);
    case Sweep(order) => RefineEvict(cfg, gs, order);
    case Flush(order) => RefineEvict(cfg, gs, order);
    case _ =>
  }

  /** Every interleaving of the critical sections computes "partition into groups, fold each group". */
  lemma {:induction false} RunRefines(cfg: Config, clock: int, steps: seq<Step>)
    ensures Run(cfg, Initial(clock), steps) == Concrete(cfg, RunGroups(cfg, NoGroups(clock), steps))
  {
    if steps == [] {
      assert Concrete(cfg, NoGroups(clock)).store == map[];
    } else {
      RunRefines(cfg, clock, steps[..|steps| - 1]);
      RefineStep(cfg, RunGroups(cfg, NoGroups(clock), steps[..|steps| - 1]), steps[|steps| - 1]);
    }
  }

  // ---- The groups are a partition ----

  /** The accepted records with one key, in order. */
  function Select(keys: seq<KeyField>, log: seq<Record>, k: KeyBytes): seq<Record> {
    if log == [] then []
    else Select(keys, log[..|log| - 1], k) + (if KeyOf(keys, log[|log| - 1]) == k then [log[|log| - 1]] else [])
  }

  /** The records of one key's closed groups, in closing order. */
  function ClosedOf(closed: seq<Group>, k: KeyBytes): seq<Record> {
    if closed == [] then []
    else ClosedOf(closed[..|closed| - 1], k) + (if closed[|closed| - 1].key == k then closed[|closed| - 1].recs else [])
  }

  function OpenOf(gs: Groups, k: KeyBytes): seq<Record> {
    if k in gs.open then gs.open[k] else []
  }

  ghost predicate Partitioned(cfg: Config, gs: Groups) {
    forall k :: ClosedOf(gs.closed, k) + OpenOf(gs, k) == Select(cfg.keys, gs.log, k)
  }

  lemma ClosedSnoc(closed: seq<Group>, g: Group, k: KeyBytes)
    ensures ClosedOf(closed + [g], k) == ClosedOf(closed, k) + (if g.key == k then g.recs else [])
  {
    assert (closed + [g])[..|closed|] == closed;
  }

  lemma SelectSnoc(keys: seq<KeyField>, log: seq<Record>, r: Record, k: KeyBytes)
    ensures Select(keys, log + [r], k) == Select(keys, log, k) + (if KeyOf(keys, r) == k then [r] else [])
  {
    assert (log + [r])[..|log|] == log;
  }

  lemma PartitionAt(w: Window, gs: Groups, key: KeyBytes, r: Record, k: KeyBytes)
    requires NonEmpty(gs)
    ensures var gs' := AcceptAt(w, gs, key, r);
            ClosedOf(gs'.closed, k) + OpenOf(gs', k)
            == ClosedOf(gs.closed, k) + OpenOf(gs, k) + (if key == k then [r] else [])
  {
    if key in gs.open && Expired(w, EarliestStart(gs.open[key]), r) {
      ClosedSnoc(gs.closed, Group(key, gs.open[key]), k);
    } else {
      AppendAssoc(ClosedOf(gs.closed, k), OpenOf(gs, k), if key == k then [r] else []);
    }
  }

  lemma AppendAssoc<T>(a: seq<T>, b: seq<T>, c: seq<T>)
    ensures a + (b + c) == (a + b) + c && b + [] == b && [] + b == b
  {
  }

  lemma PartitionAccept(cfg: Config, gs: Groups, r: Record)
    requires NonEmpty(gs) && Partitioned(cfg, gs)
    ensures Partitioned(cfg, AcceptRecord(cfg, gs, r))
  {
    if !gs.stop {
      var gs' := AcceptRecord(cfg, gs, r);
      forall k ensures ClosedOf(gs'.closed, k) + OpenOf(gs', k) == Select(cfg.keys, gs'.log, k) {
        assert ClosedOf(gs.closed, k) + OpenOf(gs, k) == Select(cfg.keys, gs.log, k);
        PartitionAt(cfg.window, gs, KeyOf(cfg.keys, r), r, k);
        SelectSnoc(cfg.keys, gs.log, r, k);
      }
    }
  }

  lemma {:induction false} PartitionClose(cfg: Config, gs: Groups, order: seq<KeyBytes>)
    requires NonEmpty(gs) && Partitioned(cfg, gs)
    ensures Partitioned(cfg, Close(gs, order)) && Close(gs, order).log == gs.log
  {
    if order != [] {
      PartitionClose(cfg, gs, order[..|order| - 1]);
      var g1, key := Close(gs, order[..|order| - 1]), order[|order| - 1];
      var g2 := Close(gs, order);
      if key in g1.open {
        forall k ensures ClosedOf(g2.closed, k) + OpenOf(g2, k) == Select(cfg.keys, g2.log, k) {
          assert ClosedOf(g1.closed, k) + OpenOf(g1, k) == Select(cfg.keys, g1.log, k);
          ClosedSnoc(g1.closed, Group(key, g1.open[key]), k);
        }
      }
    }
  }

  /** For every interleaving and every key: the closed groups of the key in order, followed by its open group,
      are exactly the accepted records with that key. Nothing is lost, duplicated, reordered or misfiled. */
  lemma {:induction false} RunPartitions(cfg: Config, clock: int, steps: seq<Step>)
    ensures Partitioned(cfg, RunGroups(cfg, NoGroups(clock), steps))
  {
    if steps != [] {
      RunPartitions(cfg, clock, steps[..|steps| - 1]);
      var gs := RunGroups(cfg, NoGroups(clock), steps[..|steps| - 1]);
      match steps[|steps| - 1]
      case Store(r) => PartitionAccept(cfg, gs, r);
      case Sweep(order) => PartitionClose(cfg, gs, order);
      case Flush(order) => PartitionClose(cfg, gs, order);
      case _ =>
        var gs' := RunGroups(cfg, NoGroups(clock), steps);
        forall k ensures ClosedOf(gs'.closed, k) + OpenOf(gs', k) == Select(cfg.keys, gs'.log, k) {
          assert OpenOf(gs', k) == OpenOf(gs, k);
        }
    }
  }

  predicate Stopped(steps: seq<Step>) {
    steps != [] && (steps[|steps| - 1].Stop? || Stopped(steps[..|steps| - 1]))
  }

  /** The records the steps bring in before any aggregator of the process starts to stop. */
  function Arrivals(steps: seq<Step>): seq<Record> {
    if steps == [] then []
    else
      var init, last := steps[..|steps| - 1], steps[|steps| - 1];
      Arrivals(init) + (if last.Store? && !Stopped(init) then [last.r] else [])
  }

  lemma {:induction false} LogIsArrivals(cfg: Config, clock: int, steps: seq<Step>)
    ensures var gs := RunGroups(cfg, NoGroups(clock), steps);
            (gs.stop <==> Stopped(steps)) && gs.log == Arrivals(steps)
  {
    if steps != [] {
      var init := steps[..|steps| - 1];
      LogIsArrivals(cfg, clock, init);
      var gs := RunGroups(cfg, NoGroups(clock), init);
      match steps[|steps| - 1]
      case Sweep(order) => CloseFrame(gs, order);
      case Flush(order) => CloseFrame(gs, order);
      case _ =>
    }
  }

  lemma {:induction false} CloseFrame(gs: Groups, order: seq<KeyBytes>)
    requires NonEmpty(gs)
    ensures var gs' := Close(gs, order);
            && gs'.log == gs.log && gs'.stop == gs.stop && gs'.once == gs.once && gs'.clock == gs.clock
            && gs'.open.Keys == gs.open.Keys - (set k | k in order)
            && forall k :: k in gs'.open ==> gs'.open[k] == gs.open[k]
  {
    if order != [] {
      assert order == order[..|order| - 1] + [order[|order| - 1]];
      CloseFrame(gs, order[..|order| - 1]);
    }
  }

  // ---- Conservation of the counters ----

  /** One slot for every unit of every entry. */
  ghost function Slots(m: map<KeyBytes, nat>): set<(KeyBytes, nat)> {
    set k, i | k in m && 0 <= i < m[k] :: (k, i)
  }

  /** The entries of a map added up. */
  ghost function SumMap(m: map<KeyBytes, nat>): nat { |Slots(m)| }

  lemma SumMapNothing()
    ensures SumMap(map[]) == 0
  {
    assert Slots(map[]) == {};
  }

  ghost function Row(k: KeyBytes, n: nat): set<(KeyBytes, nat)> { set i | 0 <= i < n :: (k, i) }

  lemma {:induction false} RowSize(k: KeyBytes, n: nat)
    ensures |Row(k, n)| == n
  {
    if n == 0 {
      assert Row(k, 0) == {};
    } else {
      RowSize(k, n - 1);
      assert Row(k, n) == Row(k, n - 1) + {(k, n - 1)};
    }
  }

  lemma SumMapRemove(m: map<KeyBytes, nat>, k: KeyBytes)
    requires k in m
    ensures SumMap(m) == m[k] + SumMap(m - {k})
  {
    var row, rest := Row(k, m[k]), Slots(m - {k});
    RowSize(k, m[k]);
    assert Slots(m) == row + rest;
    assert row !! rest;
  }

  function Lengths(open: map<KeyBytes, seq<Record>>): map<KeyBytes, nat> { map k | k in open :: |open[k]| }

  function Counters(store: map<KeyBytes, Stored>): map<KeyBytes, nat> { map k | k in store :: store[k].count }

  /** How many records the open groups hold. */
  ghost function SumOpen(open: map<KeyBytes, seq<Record>>): nat { SumMap(Lengths(open)) }

  /** The stored counters added up. */
  ghost function SumStored(store: map<KeyBytes, Stored>): nat { SumMap(Counters(store)) }

  lemma SumOpenRemove(open: map<KeyBytes, seq<Record>>, k: KeyBytes)
    requires k in open
    ensures SumOpen(open) == |open[k]| + SumOpen(open - {k})
  {
    hide SumMap;
    SumMapRemove(Lengths(open), k);
    assert Lengths(open) - {k} == Lengths(open - {k});
  }

  lemma SumOpenUpdate(open: map<KeyBytes, seq<Record>>, k: KeyBytes, g: seq<Record>)
    ensures SumOpen(open[k := g]) == |g| + SumOpen(open - {k})
  {
    hide SumOpen;
    SumOpenRemove(open[k := g], k);
    assert open[k := g] - {k} == open - {k};
  }

  function SumClosed(closed: seq<Group>): nat {
    if closed == [] then 0 else SumClosed(closed[..|closed| - 1]) + |closed[|closed| - 1].recs|
  }

  lemma SumClosedSnoc(closed: seq<Group>, g: Group)
    ensures SumClosed(closed + [g]) == SumClosed(closed) + |g.recs|
  {
    assert (closed + [g])[..|closed|] == closed;
  }

  ghost predicate Balanced(gs: Groups) {
    SumClosed(gs.closed) + SumOpen(gs.open) == |gs.log|
  }

  lemma BalanceAccept(cfg: Config, gs: Groups, r: Record)
    requires NonEmpty(gs) && Balanced(gs)
    ensures Balanced(AcceptRecord(cfg, gs, r))
  {
    var k := KeyOf(cfg.keys, r);
    if k in gs.open {
      SumOpenRemove(gs.open, k);
      SumOpenUpdate(gs.open, k, gs.open[k] + [r]);
      SumClosedSnoc(gs.closed, Group(k, gs.open[k]));
    } else {
      assert gs.open - {k} == gs.open;
    }
    SumOpenUpdate(gs.open, k, [r]);
  }

  lemma {:induction false} BalanceClose(gs: Groups, order: seq<KeyBytes>)
    requires NonEmpty(gs) && Balanced(gs)
    ensures Balanced(Close(gs, order))
  {
    if order != [] {
      BalanceClose(gs, order[..|order| - 1]);
      var g1, k := Close(gs, order[..|order| - 1]), order[|order| - 1];
      CloseFrame(gs, order[..|order| - 1]);
      CloseFrame(gs, order);
      if k in g1.open {
        SumOpenRemove(g1.open, k);
        SumClosedSnoc(g1.closed, Group(k, g1.open[k]));
      }
    }
  }

  lemma {:induction false} RunBalanced(cfg: Config, clock: int, steps: seq<Step>)
    ensures Balanced(RunGroups(cfg, NoGroups(clock), steps))
  {
    if steps != [] {
      RunBalanced(cfg, clock, steps[..|steps| - 1]);
      var gs := RunGroups(cfg, NoGroups(clock), steps[..|steps| - 1]);
      match steps[|steps| - 1]
      case Store(r) => BalanceAccept(cfg, gs, r);
      case Sweep(order) => BalanceClose(gs, order);
      case Flush(order) => BalanceClose(gs, order);
      case _ =>
    }
  }

  function SumCounts(out: seq<Option<Record>>): nat {
    if out == [] then 0
    else SumCounts(out[..|out| - 1]) + (match out[|out| - 1] case Some(r) => r.count case None => 0)
  }

  lemma SumCountsSnoc(out: seq<Option<Record>>, e: Option<Record>)
    ensures SumCounts(out + [e]) == SumCounts(out) + (match e case Some(r) => r.count case None => 0)
  {
    assert (out + [e])[..|out|] == out;
  }

  lemma EmittedCount(cfg: Config, g: seq<Record>)
    requires Uniform(cfg) && 0 < |g| < COUNT_LIMIT
    ensures Emit(cfg, Fold(cfg, g)).Some? && Emit(cfg, Fold(cfg, g)).value.count == |g|
  {
    FoldCount(cfg, g);
    SmallCount(|g|);
    EmitSome(cfg, Fold(cfg, g));
  }

  lemma {:induction false} EmittedCounts(cfg: Config, closed: seq<Group>)
    requires Uniform(cfg) && SumClosed(closed) < COUNT_LIMIT
    requires forall i :: 0 <= i < |closed| ==> closed[i].recs != []
    ensures SumCounts(EmitAll(cfg, closed)) == SumClosed(closed)
    ensures forall i :: 0 <= i < |EmitAll(cfg, closed)| ==> EmitAll(cfg, closed)[i].Some?
  {
    hide Emit, Fold, Uniform;
    if closed != [] {
      var init := closed[..|closed| - 1];
      EmittedCounts(cfg, init);
      EmittedCount(cfg, closed[|closed| - 1].recs);
      SumCountsSnoc(EmitAll(cfg, init), Emit(cfg, Fold(cfg, closed[|closed| - 1].recs)));
    }
  }

  /** The counters in storage are the lengths of the open groups. */
  lemma StoredCounts(cfg: Config, gs: Groups)
    requires NonEmpty(gs) && SumOpen(gs.open) < COUNT_LIMIT
    ensures SumStored(Concrete(cfg, gs).store) == SumOpen(gs.open)
  {
    hide SumMap, Fold, EmitAll;
    var s := Concrete(cfg, gs);
    forall k | k in gs.open ensures k in s.store && s.store[k].count == |gs.open[k]| {
      SumMapRemove(Lengths(gs.open), k);
      FoldCount(cfg, gs.open[k]);
      SmallCount(|gs.open[k]|);
    }
    assert Counters(s.store) == Lengths(gs.open);
  }

  /** In every state of every run, emitted COUNTs and stored counters together are the number of records that have
      arrived, as long as there were fewer than 2^32 of them. */
  lemma CountsAddUp(cfg: Config, clock: int, steps: seq<Step>)
    requires Uniform(cfg) && |Arrivals(steps)| < COUNT_LIMIT
    ensures var s := Run(cfg, Initial(clock), steps);
            SumCounts(s.out) + SumStored(s.store) == |Arrivals(steps)|
  {
    hide Run, RunGroups, SumOpen, SumStored, SumCounts, SumClosed, EmitAll, Uniform;
    var gs := RunGroups(cfg, NoGroups(clock), steps);
    RunRefines(cfg, clock, steps);
    LogIsArrivals(cfg, clock, steps);
    RunBalanced(cfg, clock, steps);
    EmittedCounts(cfg, gs.closed);
    StoredCounts(cfg, gs);
  }

  /** In particular, after a flush the emitted COUNTs are all of them. */
  lemma FlushedCountsAddUp(cfg: Config, clock: int, steps: seq<Step>, order: seq<KeyBytes>)
    requires Uniform(cfg) && Possible(cfg, Initial(clock), steps + [Flush(order)]) && |Arrivals(steps)| < COUNT_LIMIT
    ensures var s := Run(cfg, Initial(clock), steps + [Flush(order)]);
            s.store == map[] && SumCounts(s.out) == |Arrivals(steps)|
  {
    hide Uniform, SumCounts, Evict;
    var all := steps + [Flush(order)];
    assert all[..|all| - 1] == steps;
    EvictFrame(cfg, Run(cfg, Initial(clock), steps), order);
    var s := Run(cfg, Initial(clock), all);
    assert s.store == map[];
    assert Arrivals(all) == Arrivals(steps) + [] == Arrivals(steps);
    CountsAddUp(cfg, clock, all);
    assert Counters(s.store) == map[];
    SumMapNothing();
  }
}
