/** When groups close: active windows over whole runs, and the exact sweep at which an idle group is evicted. */
module Timeouts {
  import opened Records
  import opened Sequences
  import opened Wrappers
  import opened AggFunctions
  import opened Aggregation

  // ---- Active windows ----

  /** Every joining record starts at most t seconds after the earliest start before it. */
  predicate InWindow(t: nat, g: seq<Record>) {
    forall i :: 0 < i < |g| ==> Sec(g[i].first) <= Sec(EarliestStart(g[..i])) + t
  }

  predicate AllInWindow(t: nat, gs: Groups) {
    (forall k :: k in gs.open ==> InWindow(t, gs.open[k])) &&
    (forall i :: 0 <= i < |gs.closed| ==> InWindow(t, gs.closed[i].recs))
  }

  lemma InWindowSnoc(t: nat, g: seq<Record>, r: Record)
    requires g != [] && InWindow(t, g) && Sec(r.first) <= Sec(EarliestStart(g)) + t
    ensures InWindow(t, g + [r])
  {
    var h := g + [r];
    forall i | 0 < i < |h| ensures Sec(h[i].first) <= Sec(EarliestStart(h[..i])) + t {
      if i < |g| {
        assert h[..i] == g[..i];
      } else {
        assert h[..i] == g;
      }
    }
  }

  lemma {:induction false} CloseInWindow(t: nat, gs: Groups, order: seq<KeyBytes>)
    requires NonEmpty(gs) && AllInWindow(t, gs)
    ensures AllInWindow(t, Close(gs, order))
  {
    if order != [] { CloseInWindow(t, gs, order[..|order| - 1]); }
  }

  lemma AcceptInWindow(cfg: Config, t: nat, gs: Groups, r: Record)
    requires NonEmpty(gs) && ActiveTimeout(cfg.window) == Some(t) && AllInWindow(t, gs)
    ensures AllInWindow(t, AcceptRecord(cfg, gs, r))
  {
    var k := KeyOf(cfg.keys, r);
    assert InWindow(t, [r]);
    if k in gs.open && !Expired(cfg.window, EarliestStart(gs.open[k]), r) {
      InWindowSnoc(t, gs.open[k], r);
    }
  }

  /** In every run with an active timeout, whatever the arrival order and the interleaved evictions, every group
      ever formed keeps the window. */
  lemma {:induction false} RunInWindow(cfg: Config, t: nat, clock: int, steps: seq<Step>)
    requires ActiveTimeout(cfg.window) == Some(t)
    ensures AllInWindow(t, RunGroups(cfg, NoGroups(clock), steps))
  {
    if steps != [] {
      RunInWindow(cfg, t, clock, steps[..|steps| - 1]);
      var gs := RunGroups(cfg, NoGroups(clock), steps[..|steps| - 1]);
      match steps[|steps| - 1]
      case Store(r) => AcceptInWindow(cfg, t, gs, r);
      case Sweep(order) => CloseInWindow(t, gs, order);
      case Flush(order) => CloseInWindow(t, gs, order);
      case _ =>
    }
  }

  /** One key's groups in order, the open one last. */
  function ClosedParts(closed: seq<Group>, k: KeyBytes): seq<seq<Record>> {
    if closed == [] then []
    else
      ClosedParts(closed[..|closed| - 1], k)
      + (if closed[|closed| - 1].key == k then [closed[|closed| - 1].recs] else [])
  }

  function Parts(gs: Groups, k: KeyBytes): seq<seq<Record>> {
    ClosedParts(gs.closed, k) + (if k in gs.open then [gs.open[k]] else [])
  }

  /** Each group is in the window and the next one starts more than t seconds after its earliest start. */
  predicate Separated(t: nat, parts: seq<seq<Record>>) {
    && (forall i :: 0 <= i < |parts| ==> parts[i] != [] && InWindow(t, parts[i]))
    && (forall i :: 0 < i < |parts| ==> Sec(EarliestStart(parts[i - 1])) + t < Sec(parts[i][0].first))
  }

  /** The step closes the group of k. */
  predicate Evicts(step: Step, k: KeyBytes) { (step.Sweep? || step.Flush?) && k in step.order }

  /** No step of the run from gs closes the group of k before the stop. */
  predicate Keeps(cfg: Config, gs: Groups, k: KeyBytes, steps: seq<Step>)
    requires NonEmpty(gs)
  {
    steps == [] || (
      && Keeps(cfg, gs, k, steps[..|steps| - 1])
      && (Evicts(steps[|steps| - 1], k) ==> RunGroups(cfg, gs, steps[..|steps| - 1]).stop))
  }

  /** Since k had n closed groups, they have been followed by an open one. */
  predicate ReopenedSince(gs: Groups, k: KeyBytes, n: nat) {
    && n <= |ClosedParts(gs.closed, k)|
    && (!gs.stop && k !in gs.open ==> |ClosedParts(gs.closed, k)| == n)
  }

  lemma ClosedPartsSnoc(closed: seq<Group>, g: Group, k: KeyBytes)
    ensures ClosedParts(closed + [g], k) == ClosedParts(closed, k) + (if g.key == k then [g.recs] else [])
  {
    assert (closed + [g])[..|closed|] == closed;
  }

  /** What accepting a record does to one key's groups: nothing, one more group, or a longer last group. */
  lemma AcceptParts(cfg: Config, gs: Groups, r: Record, k: KeyBytes)
    requires NonEmpty(gs)
    ensures var gs', p := AcceptRecord(cfg, gs, r), Parts(gs, k);
            && gs'.stop == gs.stop && |ClosedParts(gs.closed, k)| <= |ClosedParts(gs'.closed, k)|
            && if gs.stop || KeyOf(cfg.keys, r) != k then
                 Parts(gs', k) == p && ClosedParts(gs'.closed, k) == ClosedParts(gs.closed, k)
                 && (k in gs'.open <==> k in gs.open)
               else
                 && k in gs'.open
                 && (k in gs.open ==> p != [] && p[|p| - 1] == gs.open[k])
                 && Parts(gs', k) == if k !in gs.open || Expired(cfg.window, EarliestStart(gs.open[k]), r) then p + [[r]]
                                     else p[..|p| - 1] + [gs.open[k] + [r]]
  {
    var key := KeyOf(cfg.keys, r);
    if key in gs.open { ClosedPartsSnoc(gs.closed, Group(key, gs.open[key]), k); }
  }

  /** Closing groups, in whatever order, leaves the groups of every key as they are. */
  lemma {:induction false} CloseParts(gs: Groups, order: seq<KeyBytes>, k: KeyBytes)
    requires NonEmpty(gs)
    ensures var gs' := Close(gs, order);
            && Parts(gs', k) == Parts(gs, k) && |ClosedParts(gs.closed, k)| <= |ClosedParts(gs'.closed, k)|
            && (k !in order ==> gs'.closed == gs.closed || ClosedParts(gs'.closed, k) == ClosedParts(gs.closed, k))
  {
    hide ClosedParts;
    if order != [] {
      var init, key := order[..|order| - 1], order[|order| - 1];
      assert order == init + [key];
      CloseParts(gs, init, k);
      var g1 := Close(gs, init);
      if key in g1.open { ClosedPartsSnoc(g1.closed, Group(key, g1.open[key]), k); }
    }
  }

  lemma SeparatedAdd(t: nat, p: seq<seq<Record>>, r: Record)
    ensures Separated(t, p + [[r]])
       <==> Separated(t, p) && (p == [] || Sec(EarliestStart(p[|p| - 1])) + t < Sec(r.first))
  {
    hide InWindow, EarliestStart;
    var q := p + [[r]];
    assert q[|p|] == [r] && InWindow(t, [r]) by { OneInWindow(t, r); }
    assert forall i :: 0 <= i < |p| ==> q[i] == p[i];
    if Separated(t, q) {
      if p != [] { assert q[|p| - 1] == p[|p| - 1]; }
      forall i | 0 <= i < |p| ensures p[i] != [] && InWindow(t, p[i]) { assert q[i] == p[i]; }
      forall i | 0 < i < |p| ensures Sec(EarliestStart(p[i - 1])) + t < Sec(p[i][0].first) {
        assert q[i - 1] == p[i - 1] && q[i] == p[i];
      }
    }
    if Separated(t, p) && (p == [] || Sec(EarliestStart(p[|p| - 1])) + t < Sec(r.first)) {
      forall i | 0 < i < |q| ensures Sec(EarliestStart(q[i - 1])) + t < Sec(q[i][0].first) {
        assert q[i - 1] == p[i - 1];
      }
    }
  }

  lemma OneInWindow(t: nat, r: Record)
    ensures InWindow(t, [r])
  {
  }

  lemma SeparatedExtend(t: nat, p: seq<seq<Record>>, r: Record)
    requires Separated(t, p) && p != [] && Sec(r.first) <= Sec(EarliestStart(p[|p| - 1])) + t
    ensures Separated(t, p[..|p| - 1] + [p[|p| - 1] + [r]])
  {
    InWindowSnoc(t, p[|p| - 1], r);
    var q := p[..|p| - 1] + [p[|p| - 1] + [r]];
    forall i | 0 < i < |q| ensures Sec(EarliestStart(q[i - 1])) + t < Sec(q[i][0].first) {
      assert q[i - 1] == p[i - 1] && q[i][0] == p[i][0];
    }
  }

  lemma SeparatedAccept(cfg: Config, t: nat, gs: Groups, r: Record, k: KeyBytes, n: nat)
    requires NonEmpty(gs) && ActiveTimeout(cfg.window) == Some(t)
    requires ReopenedSince(gs, k, n) && Separated(t, Parts(gs, k)[n..])
    ensures ReopenedSince(AcceptRecord(cfg, gs, r), k, n) && Separated(t, Parts(AcceptRecord(cfg, gs, r), k)[n..])
  {
    hide ClosedParts, Separated, EarliestStart, AcceptRecord, KeyOf;
    AcceptParts(cfg, gs, r, k);
    var p := Parts(gs, k);
    if !gs.stop && KeyOf(cfg.keys, r) == k {
      assert (p + [[r]])[n..] == p[n..] + [[r]];
      if k in gs.open {
        assert p[n..] != [] && p[n..][|p[n..]| - 1] == gs.open[k];
        if Expired(cfg.window, EarliestStart(gs.open[k]), r) {
          SeparatedAdd(t, p[n..], r);
        } else {
          SeparatedExtend(t, p[n..], r);
          assert (p[..|p| - 1] + [gs.open[k] + [r]])[n..] == p[n..][..|p[n..]| - 1] + [gs.open[k] + [r]];
        }
      } else {
        assert p[n..] == [];
        SeparatedAdd(t, p[n..], r);
      }
    }
  }

  lemma SeparatedClose(t: nat, gs: Groups, order: seq<KeyBytes>, k: KeyBytes, n: nat)
    requires NonEmpty(gs) && (k in order ==> gs.stop)
    requires ReopenedSince(gs, k, n) && Separated(t, Parts(gs, k)[n..])
    ensures ReopenedSince(Close(gs, order), k, n) && Separated(t, Parts(Close(gs, order), k)[n..])
  {
    hide ClosedParts, Separated, Close, Parts;
    CloseParts(gs, order, k);
    CloseFrame(gs, order);
  }

  /** With an active timeout, while no step closes the group of k before the stop: the groups that k gets from some moment
      on, beginning with the one that is open then, are windowed and separated. */
  lemma {:induction false} SegmentSeparated(cfg: Config, t: nat, gs: Groups, steps: seq<Step>, k: KeyBytes, n: nat)
    requires NonEmpty(gs) && ActiveTimeout(cfg.window) == Some(t) && Keeps(cfg, gs, k, steps)
    requires n == |ClosedParts(gs.closed, k)| && (k in gs.open ==> InWindow(t, gs.open[k]))
    ensures ReopenedSince(RunGroups(cfg, gs, steps), k, n)
    ensures Separated(t, Parts(RunGroups(cfg, gs, steps), k)[n..])
  {
    hide ClosedParts, Evicts, InWindow, AcceptRecord, Close;
    if steps == [] {
      if k in gs.open { assert Parts(gs, k)[n..] == [gs.open[k]]; } else { assert Parts(gs, k)[n..] == []; }
    } else {
      hide Separated;
      var init, step := steps[..|steps| - 1], steps[|steps| - 1];
      SegmentSeparated(cfg, t, gs, init, k, n);
      var g1 := RunGroups(cfg, gs, init);
      match step
      case Store(r) => SeparatedAccept(cfg, t, g1, r, k, n);
      case Sweep(order) => EvictsMeans(step, k); SeparatedClose(t, g1, order, k, n);
      case Flush(order) => EvictsMeans(step, k); SeparatedClose(t, g1, order, k, n);
      case _ => assert Parts(NextGroups(cfg, g1, step), k) == Parts(g1, k);
    }
  }

  lemma EvictsMeans(step: Step, k: KeyBytes)
    ensures Evicts(step, k) <==> (step.Sweep? || step.Flush?) && k in step.order
  {
  }

  /** Windows of an active and a passive timeout: between two moments at which a sweep closes the group of k, its groups are
      windowed and separated. */
  lemma MixedSeparated(cfg: Config, t: nat, clock: int, before: seq<Step>, steps: seq<Step>, k: KeyBytes)
    requires ActiveTimeout(cfg.window) == Some(t) && Keeps(cfg, RunGroups(cfg, NoGroups(clock), before), k, steps)
    ensures var gs := RunGroups(cfg, NoGroups(clock), before);
            var n := |ClosedParts(gs.closed, k)|;
            n <= |Parts(RunGroups(cfg, gs, steps), k)| && Separated(t, Parts(RunGroups(cfg, gs, steps), k)[n..])
  {
    hide InWindow, Keeps, Separated, ClosedParts;
    var gs := RunGroups(cfg, NoGroups(clock), before);
    RunInWindow(cfg, t, clock, before);
    SegmentSeparated(cfg, t, gs, steps, k, |ClosedParts(gs.closed, k)|);
  }

  /** At the seam: the first record of k after its group was closed starts a new one whenever it comes, so that the groups
      stay separated exactly when it starts late enough by itself. */
  lemma SeamSeparatedIff(cfg: Config, t: nat, gs: Groups, r: Record, k: KeyBytes)
    requires NonEmpty(gs) && !gs.stop && KeyOf(cfg.keys, r) == k && k !in gs.open
    ensures Parts(AcceptRecord(cfg, gs, r), k) == Parts(gs, k) + [[r]]
    ensures var p := Parts(gs, k);
            Separated(t, p + [[r]]) <==> Separated(t, p) && (p == [] || Sec(EarliestStart(p[|p| - 1])) + t < Sec(r.first))
  {
    hide ClosedParts, Separated, EarliestStart;
    AcceptParts(cfg, gs, r, k);
    SeparatedAdd(t, Parts(gs, k), r);
  }

  /** A sweep can come between: with an active timeout t and a passive timeout p, a group swept after p seconds is followed
      by one that starts within the t seconds. */
  lemma SweepsSplitWindows(cfg: Config, t: nat, p: nat, clock: int, r: Record, r': Record)
    requires cfg.window == Mixed(t, p) && Sec(r.last) < clock - p
    requires KeyOf(cfg.keys, r) == KeyOf(cfg.keys, r') && Sec(r'.first) <= Sec(r.first) + t
    ensures var k := KeyOf(cfg.keys, r);
            var steps := [Store(r), Sweep([k]), Store(r')];
            && Possible(cfg, Initial(clock), steps)
            && Parts(RunGroups(cfg, NoGroups(clock), steps), k) == [[r], [r']]
            && !Separated(t, [[r], [r']])
  {
    hide KeyOf, Possible, RunGroups, Separated, Parts, EarliestStart;
    SplitPossible(cfg, clock, r, r');
    SplitParts(cfg, t, clock, r, r');
    OneStart(r);
    assert [[r]] + [[r']] == [[r], [r']];
    SeparatedAdd(t, [[r]], r');
  }

  lemma SplitPossible(cfg: Config, clock: int, r: Record, r': Record)
    requires Stale(cfg.window, clock, r.last)
    ensures Possible(cfg, Initial(clock), [Store(r), Sweep([KeyOf(cfg.keys, r)]), Store(r')])
  {
    hide KeyOf, Possible, Run, RunGroups, Stale;
    var order: seq<KeyBytes> := [KeyOf(cfg.keys, r)];
    assert [Store(r)] + [Sweep(order)] == [Store(r), Sweep(order)];
    assert [Store(r), Sweep(order)] + [Store(r')] == [Store(r), Sweep(order), Store(r')];
    OneStored(cfg, clock, r);
    RunSnoc(cfg, clock, [Store(r)], Sweep(order));
    RunSnoc(cfg, clock, [Store(r), Sweep(order)], Store(r'));
    OnlyStale(cfg, KeyOf(cfg.keys, r), Run(cfg, Initial(clock), [Store(r)]));
  }

  lemma SplitParts(cfg: Config, t: nat, clock: int, r: Record, r': Record)
    requires KeyOf(cfg.keys, r) == KeyOf(cfg.keys, r')
    ensures var k := KeyOf(cfg.keys, r);
            Parts(RunGroups(cfg, NoGroups(clock), [Store(r), Sweep([k]), Store(r')]), k) == [[r], [r']]
  {
    hide KeyOf, Possible, Run, RunGroups, Separated, Parts, EarliestStart, Close;
    var k := KeyOf(cfg.keys, r);
    var order: seq<KeyBytes> := [k];
    assert [Store(r)] + [Sweep(order)] == [Store(r), Sweep(order)];
    assert [Store(r), Sweep(order)] + [Store(r')] == [Store(r), Sweep(order), Store(r')];
    OneStored(cfg, clock, r);
    RunSnoc(cfg, clock, [Store(r)], Sweep(order));
    RunSnoc(cfg, clock, [Store(r), Sweep(order)], Store(r'));
    var g1 := RunGroups(cfg, NoGroups(clock), [Store(r)]);
    CloseFrame(g1, order);
    CloseParts(g1, order, k);
    OneOpen(g1, k, r);
    SeamSeparatedIff(cfg, t, Close(g1, order), r', k);
    assert [[r]] + [[r']] == [[r], [r']];
  }

  /** A single record stored. */
  lemma OneStored(cfg: Config, clock: int, r: Record)
    ensures var k := KeyOf(cfg.keys, r);
            && Possible(cfg, Initial(clock), [Store(r)])
            && RunGroups(cfg, NoGroups(clock), [Store(r)]) == Groups(map[k := [r]], [], clock, true, false, [r])
            && var s := Run(cfg, Initial(clock), [Store(r)]);
               s.store.Keys == {k} && s.store[k].last == r.last && s.clock == clock
  {
    hide KeyOf, Init;
    RunSnoc(cfg, clock, [], Store(r));
    RunNothing(cfg, clock);
    InitLast(cfg, r);
  }

  /** Running one more step, for the program and for the groups. */
  lemma RunSnoc(cfg: Config, clock: int, steps: seq<Step>, step: Step)
    ensures var s := Run(cfg, Initial(clock), steps);
            && Run(cfg, Initial(clock), steps + [step]) == Next(cfg, s, step)
            && (Possible(cfg, Initial(clock), steps + [step])
                  == (Possible(cfg, Initial(clock), steps) && Enabled(cfg, s, step)))
    ensures RunGroups(cfg, NoGroups(clock), steps + [step])
         == NextGroups(cfg, RunGroups(cfg, NoGroups(clock), steps), step)
    ensures steps == [] ==> steps + [step] == [step]
  {
    hide Next, NextGroups, Enabled;
    assert (steps + [step])[..|steps|] == steps;
  }

  lemma RunNothing(cfg: Config, clock: int)
    ensures Run(cfg, Initial(clock), []) == Initial(clock) && RunGroups(cfg, NoGroups(clock), []) == NoGroups(clock)
    ensures Possible(cfg, Initial(clock), [])
  {
  }

  lemma OnlyStale(cfg: Config, k: KeyBytes, s: State)
    requires s.store.Keys == {k} && Stale(cfg.window, s.clock, s.store[k].last)
    ensures Enumerates([k], StaleKeys(cfg, s))
  {
    hide Stale;
    assert StaleKeys(cfg, s) == {k};
  }

  lemma OneOpen(gs: Groups, k: KeyBytes, r: Record)
    requires gs.open == map[k := [r]] && gs.closed == []
    ensures Parts(gs, k) == [[r]]
  {
  }

  lemma InitLast(cfg: Config, r: Record)
    ensures Init(cfg, r).last == r.last
  {
  }

  lemma OneStart(r: Record)
    ensures EarliestStart([r]) == r.first
  {
  }

  /** Every flush comes after the stop: without a passive or global timeout, only the destructor flushes. */
  predicate FlushesStopped(steps: seq<Step>) {
    steps == [] || (FlushesStopped(steps[..|steps| - 1]) && (steps[|steps| - 1].Flush? ==> Stopped(steps[..|steps| - 1])))
  }

  /** A possible run of an active window closes no group from outside before the stop: its sweeps find nothing stale. */
  lemma {:induction false} ActiveKeeps(cfg: Config, clock: int, steps: seq<Step>, k: KeyBytes)
    requires cfg.window.Active? && Possible(cfg, Initial(clock), steps) && FlushesStopped(steps)
    ensures Keeps(cfg, NoGroups(clock), k, steps)
  {
    hide StaleKeys, Stopped, Run;
    if steps != [] {
      var init, step := steps[..|steps| - 1], steps[|steps| - 1];
      ActiveKeeps(cfg, clock, init, k);
      LogIsArrivals(cfg, clock, init);
      if step.Sweep? { NothingStale(cfg, Run(cfg, Initial(clock), init)); }
    }
  }

  lemma NothingStale(cfg: Config, s: State)
    requires cfg.window.Active?
    ensures StaleKeys(cfg, s) == {}
  {
  }

  /** Active windows: in every possible run, the destructor's flush included, the groups of a key are windowed and
      separated. */
  lemma RunSeparated(cfg: Config, t: nat, clock: int, steps: seq<Step>, k: KeyBytes)
    requires cfg.window == Active(t) && Possible(cfg, Initial(clock), steps) && FlushesStopped(steps)
    ensures Separated(t, Parts(RunGroups(cfg, NoGroups(clock), steps), k))
  {
    hide Possible, FlushesStopped, Keeps, Separated;
    ActiveKeeps(cfg, clock, steps, k);
    SegmentSeparated(cfg, t, NoGroups(clock), steps, k, 0);
    var p := Parts(RunGroups(cfg, NoGroups(clock), steps), k);
    assert p[0..] == p;
  }

  predicate SortedByStart(g: seq<Record>) {
    forall i, j :: 0 <= i <= j < |g| ==> g[i].first <= g[j].first
  }

  lemma {:induction false} SortedEarliest(g: seq<Record>)
    requires g != [] && SortedByStart(g)
    ensures EarliestStart(g) == g[0].first
  {
    ColumnPrefix(g, AggFunctions.Start);
    if |g| > 1 { SortedEarliest(g[..|g| - 1]); }
  }

  function Flatten(parts: seq<seq<Record>>): seq<Record> {
    if parts == [] then [] else Flatten(parts[..|parts| - 1]) + parts[|parts| - 1]
  }

  lemma {:induction false} FlattenClosed(closed: seq<Group>, k: KeyBytes)
    ensures Flatten(ClosedParts(closed, k)) == ClosedOf(closed, k)
  {
    if closed != [] {
      FlattenClosed(closed[..|closed| - 1], k);
      var p := ClosedParts(closed[..|closed| - 1], k);
      if closed[|closed| - 1].key == k {
        assert (p + [closed[|closed| - 1].recs])[..|p|] == p;
      } else {
        assert p + [] == p;
      }
    }
  }

  /** Each part is a block of the flattened sequence. */
  lemma {:induction false} PartSorted(parts: seq<seq<Record>>, i: nat)
    requires i < |parts| && SortedByStart(Flatten(parts))
    ensures SortedByStart(parts[i])
  {
    var init, last := Flatten(parts[..|parts| - 1]), parts[|parts| - 1];
    var all := Flatten(parts);
    if i == |parts| - 1 {
      forall a, b | 0 <= a <= b < |last| ensures last[a].first <= last[b].first {
        assert all[|init| + a] == last[a] && all[|init| + b] == last[b];
      }
    } else {
      forall a, b | 0 <= a <= b < |init| ensures init[a].first <= init[b].first {
        assert all[a] == init[a] && all[b] == init[b];
      }
      PartSorted(parts[..|parts| - 1], i);
    }
  }

  lemma InWindowSpan(t: nat, g: seq<Record>, j: nat)
    requires g != [] && SortedByStart(g) && InWindow(t, g) && j < |g|
    ensures Sec(g[0].first) <= Sec(g[j].first) <= Sec(g[0].first) + t
  {
    DivMonotone(g[0].first, g[j].first);
    if j > 0 { SortedEarliest(g[..j]); }
  }

  lemma DivMonotone(a: nat, b: nat)
    requires a <= b
    ensures Sec(a) <= Sec(b)
  {
  }

  /** Each group spans at most t seconds from its first record, which starts it; the next group's first record
      is more than t seconds later, hence after every record of the group. */
  predicate Windowed(t: nat, parts: seq<seq<Record>>) {
    && (forall i :: 0 <= i < |parts| ==> parts[i] != [])
    && (forall i, j :: 0 <= i < |parts| && 0 <= j < |parts[i]| ==>
          Sec(parts[i][0].first) <= Sec(parts[i][j].first) <= Sec(parts[i][0].first) + t)
    && (forall i :: 0 < i < |parts| ==> Sec(parts[i - 1][0].first) + t < Sec(parts[i][0].first))
  }

  lemma SeparatedWindowed(t: nat, parts: seq<seq<Record>>)
    requires Separated(t, parts) && SortedByStart(Flatten(parts))
    ensures Windowed(t, parts)
  {
    forall i, j | 0 <= i < |parts| && 0 <= j < |parts[i]|
      ensures Sec(parts[i][0].first) <= Sec(parts[i][j].first) <= Sec(parts[i][0].first) + t
    {
      PartSorted(parts, i);
      InWindowSpan(t, parts[i], j);
    }
    forall i | 0 < i < |parts| ensures Sec(parts[i - 1][0].first) + t < Sec(parts[i][0].first) {
      PartSorted(parts, i - 1);
      SortedEarliest(parts[i - 1]);
    }
  }

  lemma PartsFlatten(cfg: Config, clock: int, steps: seq<Step>, k: KeyBytes)
    ensures Flatten(Parts(RunGroups(cfg, NoGroups(clock), steps), k)) == Select(cfg.keys, Arrivals(steps), k)
  {
    var gs := RunGroups(cfg, NoGroups(clock), steps);
    RunPartitions(cfg, clock, steps);
    LogIsArrivals(cfg, clock, steps);
    FlattenClosed(gs.closed, k);
    assert ClosedOf(gs.closed, k) + OpenOf(gs, k) == Select(cfg.keys, gs.log, k);
    var p := ClosedParts(gs.closed, k);
    if k in gs.open {
      assert Parts(gs, k)[..|p|] == p;
    } else {
      assert Parts(gs, k) == p;
      assert ClosedOf(gs.closed, k) + [] == ClosedOf(gs.closed, k);
    }
  }

  /** If one key's records arrive in non-decreasing start order, the groups of the key in any possible run of an active
      window, the destructor's flush included, cut its records into windows. */
  lemma ActiveWindows(cfg: Config, t: nat, clock: int, steps: seq<Step>, k: KeyBytes)
    requires cfg.window == Active(t) && Possible(cfg, Initial(clock), steps) && FlushesStopped(steps)
    requires SortedByStart(Select(cfg.keys, Arrivals(steps), k))
    ensures var parts := Parts(RunGroups(cfg, NoGroups(clock), steps), k);
            Flatten(parts) == Select(cfg.keys, Arrivals(steps), k) && Windowed(t, parts)
  {
    RunSeparated(cfg, t, clock, steps, k);
    PartsFlatten(cfg, clock, steps, k);
    SeparatedWindowed(t, Parts(RunGroups(cfg, NoGroups(clock), steps), k));
  }

  // ---- Passive eviction ----

  predicate StaleGroup(cfg: Config, gs: Groups, k: KeyBytes)
    requires NonEmpty(gs)
  {
    k in gs.open && Stale(cfg.window, gs.clock, LatestEnd(gs.open[k]))
  }

  function StaleGroups(cfg: Config, gs: Groups): set<KeyBytes>
    requires NonEmpty(gs)
  {
    set k | k in gs.open && StaleGroup(cfg, gs, k)
  }

  /** A stored record's last time is the latest end of its group. */
  lemma ConcreteLast(cfg: Config, gs: Groups, k: KeyBytes)
    requires NonEmpty(gs)
    ensures var s := Concrete(cfg, gs);
            && s.clock == gs.clock && (k in s.store <==> k in gs.open)
            && (k in gs.open ==> s.store[k].last == LatestEnd(gs.open[k]))
  {
    hide Fold, EmitAll, Column, FoldVals;
    if k in gs.open { FoldTimes(cfg, gs.open[k]); }
  }

  /** The sweep of the program looks at exactly the groups whose latest end is before the cut-off. */
  lemma StaleRefines(cfg: Config, gs: Groups)
    requires NonEmpty(gs)
    ensures StaleKeys(cfg, Concrete(cfg, gs)) == StaleGroups(cfg, gs)
  {
    hide Concrete, LatestEnd, Stale;
    forall k ensures k in StaleKeys(cfg, Concrete(cfg, gs)) <==> k in StaleGroups(cfg, gs) {
      ConcreteLast(cfg, gs, k);
    }
  }

  /** The keys a pass over the storage meets, in terms of the groups. */
  predicate Meets(cfg: Config, gs: Groups, step: Step)
    requires NonEmpty(gs)
  {
    match step
    case Sweep(order) => Enumerates(order, StaleGroups(cfg, gs))
    case Flush(order) => Enumerates(order, gs.open.Keys)
    case _ => true
  }

  predicate Scheduled(cfg: Config, gs: Groups, steps: seq<Step>)
    requires NonEmpty(gs)
  {
    steps == [] || (Scheduled(cfg, gs, steps[..|steps| - 1]) &&
                    Meets(cfg, RunGroups(cfg, gs, steps[..|steps| - 1]), steps[|steps| - 1]))
  }

  /** The runs possible in the program are exactly the scheduled runs of the groups. */
  lemma {:induction false} PossibleIffScheduled(cfg: Config, gs: Groups, steps: seq<Step>)
    requires NonEmpty(gs)
    ensures Possible(cfg, Concrete(cfg, gs), steps) <==> Scheduled(cfg, gs, steps)
  {
    if steps != [] {
      var init := steps[..|steps| - 1];
      PossibleIffScheduled(cfg, gs, init);
      RunRefinesFrom(cfg, gs, init);
      EnabledIffMeets(cfg, RunGroups(cfg, gs, init), steps[|steps| - 1]);
    }
  }

  lemma EnabledIffMeets(cfg: Config, gs: Groups, step: Step)
    requires NonEmpty(gs)
    ensures Enabled(cfg, Concrete(cfg, gs), step) <==> Meets(cfg, gs, step)
  {
    StaleRefines(cfg, gs);
    assert Concrete(cfg, gs).store.Keys == gs.open.Keys;
  }

  /** After a sweep every stored group is at or above the cut-off, and only groups below it were closed. */
  lemma SweepEvictsExactlyStale(cfg: Config, gs: Groups, order: seq<KeyBytes>)
    requires NonEmpty(gs) && Enumerates(order, StaleGroups(cfg, gs))
    ensures var gs' := NextGroups(cfg, gs, Sweep(order));
            && (forall k :: k in gs'.open <==> k in gs.open && !StaleGroup(cfg, gs, k))
            && (forall k :: k in gs'.open ==> gs'.open[k] == gs.open[k] && !StaleGroup(cfg, gs', k))
  {
    CloseFrame(gs, order);
    assert forall k :: k in order <==> k in StaleGroups(cfg, gs);
  }

  function Sweeps(steps: seq<Step>): nat {
    if steps == [] then 0 else Sweeps(steps[..|steps| - 1]) + (if steps[|steps| - 1].Sweep? then 1 else 0)
  }

  function Advances(steps: seq<Step>): nat {
    if steps == [] then 0 else Advances(steps[..|steps| - 1]) + (if steps[|steps| - 1].Advance? then 1 else 0)
  }

  /** The timeout thread's loop: a sweep, then the clock, and so on, with anything else in between. */
  predicate Alternates(steps: seq<Step>) {
    steps == [] || (
      && Alternates(steps[..|steps| - 1])
      && (steps[|steps| - 1].Sweep? ==> Sweeps(steps[..|steps| - 1]) == Advances(steps[..|steps| - 1]))
      && (steps[|steps| - 1].Advance? ==> Sweeps(steps[..|steps| - 1]) == Advances(steps[..|steps| - 1]) + 1))
  }

  /** No step touches the group of k other than the sweeps themselves. */
  predicate Untouched(cfg: Config, k: KeyBytes, steps: seq<Step>) {
    forall i :: 0 <= i < |steps| ==> QuietStep(cfg, k, steps[i])
  }

  /** The thread's clock depends on its own steps only. */
  lemma {:induction false} ClockTime(cfg: Config, p: nat, gs: Groups, k: KeyBytes, steps: seq<Step>)
    requires NonEmpty(gs) && !gs.once && PassiveTimeout(cfg.window) == Some(p)
    requires Alternates(steps) && Untouched(cfg, k, steps)
    ensures var gs' := RunGroups(cfg, gs, steps);
            && gs'.clock == gs.clock + Advances(steps) * p && !gs'.once
            && Advances(steps) <= Sweeps(steps) <= Advances(steps) + 1
  {
    if steps != [] {
      var init := steps[..|steps| - 1];
      ClockTime(cfg, p, gs, k, init);
      var g1 := RunGroups(cfg, gs, init);
      match steps[|steps| - 1]
      case Sweep(order) => CloseFrame(g1, order);
      case Advance => assert (Advances(init) + 1) * p == Advances(init) * p + p;
      case _ =>
    }
  }

  /** Still stored after j sweeps of a thread whose clock was c: at or above the last cut-off c - p + (j-1)*p. */
  predicate Survives(c: int, p: nat, j: nat, t: nat) {
    j == 0 || t >= c - p + (j - 1) * p
  }

  lemma SurvivesStep(c: int, p: nat, j: nat, t: nat)
    ensures Survives(c, p, j + 1, t) <==> Survives(c, p, j, t) && t >= c - p + j * p
  {
    if j > 0 { assert j * p == (j - 1) * p + p; }
  }

  predicate QuietStep(cfg: Config, k: KeyBytes, step: Step) {
    match step
    case Store(r) => KeyOf(cfg.keys, r) != k
    case Flush(_) => false
    case Start => false
    case _ => true
  }

  /** One step's effect on an untouched key. */
  lemma StepOnKey(cfg: Config, p: nat, gs: Groups, k: KeyBytes, step: Step)
    requires NonEmpty(gs) && QuietStep(cfg, k, step) && PassiveTimeout(cfg.window) == Some(p)
    requires Meets(cfg, gs, step)
    ensures var gs' := NextGroups(cfg, gs, step);
            && (k in gs'.open <==>
                  k in gs.open && (step.Sweep? ==> Sec(LatestEnd(gs.open[k])) >= gs.clock - p))
            && (k in gs'.open ==> gs'.open[k] == gs.open[k])
  {
    match step
    case Sweep(order) => SweepEvictsExactlyStale(cfg, gs, order);
    case _ =>
  }

  /** One step of a thread whose clock was c at its start, after j sweeps, on a group last seen at second t. */
  lemma EvictionStep(cfg: Config, p: nat, g0: seq<Record>, gs: Groups, k: KeyBytes, step: Step, c: int, j: nat)
    requires NonEmpty(gs) && QuietStep(cfg, k, step) && PassiveTimeout(cfg.window) == Some(p)
    requires Meets(cfg, gs, step) && g0 != []
    requires k in gs.open <==> Survives(c, p, j, Sec(LatestEnd(g0)))
    requires k in gs.open ==> gs.open[k] == g0
    requires step.Sweep? ==> gs.clock == c + j * p
    ensures var gs' := NextGroups(cfg, gs, step);
            && (k in gs'.open <==> Survives(c, p, if step.Sweep? then j + 1 else j, Sec(LatestEnd(g0))))
            && (k in gs'.open ==> gs'.open[k] == g0)
  {
    StepOnKey(cfg, p, gs, k, step);
    SurvivesStep(c, p, j, Sec(LatestEnd(g0)));
  }

  /** The exact eviction time. With the thread's clock at `gs.clock` when its loop starts, the cut-off of sweep j
      is gs.clock - p + (j-1)*p however long the passes take; an untouched group last seen at second t is still
      stored after j sweeps if and only if t is at or above the cut-off of sweep j. */
  lemma {:induction false} EvictionTime(cfg: Config, p: nat, gs: Groups, k: KeyBytes, steps: seq<Step>)
    requires NonEmpty(gs) && k in gs.open && !gs.once && PassiveTimeout(cfg.window) == Some(p)
    requires Scheduled(cfg, gs, steps) && Alternates(steps) && Untouched(cfg, k, steps)
    ensures var gs' := RunGroups(cfg, gs, steps);
            && (k in gs'.open <==> Survives(gs.clock, p, Sweeps(steps), Sec(LatestEnd(gs.open[k]))))
            && (k in gs'.open ==> gs'.open[k] == gs.open[k])
  {
    if steps != [] {
      var init, step := steps[..|steps| - 1], steps[|steps| - 1];
      EvictionTime(cfg, p, gs, k, init);
      ClockTime(cfg, p, gs, k, init);
      EvictionStep(cfg, p, gs.open[k], RunGroups(cfg, gs, init), k, step, gs.clock, Sweeps(init));
    }
  }

  lemma {:induction false} RunRefinesFrom(cfg: Config, gs: Groups, steps: seq<Step>)
    requires NonEmpty(gs)
    ensures Run(cfg, Concrete(cfg, gs), steps) == Concrete(cfg, RunGroups(cfg, gs, steps))
  {
    if steps != [] {
      RunRefinesFrom(cfg, gs, steps[..|steps| - 1]);
      RefineStep(cfg, RunGroups(cfg, gs, steps[..|steps| - 1]), steps[|steps| - 1]);
    }
  }
}
