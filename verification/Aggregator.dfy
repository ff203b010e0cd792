/** The aggregator object: a keyed storage of records updated in place, the vectors behind its COUNT_DISTINCT
    fields, and the critical sections of its two threads, each proved to be one step of the state machine. */
module Aggregator {
  import opened Records
  import opened Sequences
  import opened Wrappers
  import opened AggFunctions
  import opened Aggregation
  import opened VectorHeap

  /** The process-wide flags: set up once, seen by every aggregator. */
  class Process {
    var once: bool
    var stop: bool

    constructor ()
      ensures once && !stop
    {
      once, stop := true, false;
    }
  }

  /** The bytes of an output record. A COUNT_DISTINCT field holds the address of its vector until the record is
      sent, and the number of distinct values afterwards. */
  datatype Raw = Raw(count: nat, first: nat, last: nat, keyVals: seq<nat>, vals: seq<nat>, ptrs: seq<nat>)

  /** The bytes hold this value, with addresses in place of its vectors. */
  predicate Mirrors(cfg: Config, d: Raw, s: Stored, ptrs: seq<nat>, sets: seq<seq<nat>>) {
    && Shaped(cfg, s)
    && d.count == s.count && d.first == s.first && d.last == s.last
    && d.keyVals == s.keyVals && d.vals == s.vals && d.ptrs == ptrs && sets == s.sets
  }

  /** The book of the vectors and the values of the stored records. */
  datatype Ledger = Ledger(book: Book<KeyBytes>, contents: map<KeyBytes, Stored>)

  /** The vectors are exactly those of the stored records, and each stored record holds its value. */
  ghost predicate Coherent(cfg: Config, storage: map<KeyBytes, Raw>, v: Vectors, l: Ledger) {
    && HeapOk(v, l.book)
    && storage.Keys == l.contents.Keys == l.book.sets.Keys == l.book.addresses.Keys
    && forall k :: k in storage ==>
         Mirrors(cfg, storage[k], l.contents[k], l.book.addresses[k], l.book.sets[k])
  }

  lemma CoherentSet(cfg: Config, storage: map<KeyBytes, Raw>, v: Vectors, l: Ledger, k: KeyBytes, d: Raw, s: Stored,
                    v': Vectors, b': Book<KeyBytes>, sets: seq<seq<nat>>)
    requires Coherent(cfg, storage, v, l) && Mirrors(cfg, d, s, d.ptrs, sets) && HeapOk(v', b')
    requires b'.addresses == l.book.addresses[k := d.ptrs] && b'.sets == l.book.sets[k := sets]
    ensures Coherent(cfg, storage[k := d], v', Ledger(b', l.contents[k := s]))
  {
  }

  lemma CoherentDrop(cfg: Config, storage: map<KeyBytes, Raw>, v: Vectors, l: Ledger, k: KeyBytes,
                     v': Vectors, b': Book<KeyBytes>)
    requires Coherent(cfg, storage, v, l) && HeapOk(v', b')
    requires b'.addresses == l.book.addresses - {k} && b'.sets == l.book.sets - {k}
    ensures Coherent(cfg, storage - {k}, v', Ledger(b', l.contents - {k}))
  {
  }

  lemma MirrorsInit(cfg: Config, r: Record, ptrs: seq<nat>)
    ensures Mirrors(cfg, Raw(1, r.first, r.last, Reads(KeyNames(cfg.keys), r), Reads(FieldNames(cfg.fields), r), ptrs),
                    Init(cfg, r), ptrs, Singles(Reads(cfg.distinct, r)))
  {
  }

  lemma MirrorsUpdate(cfg: Config, d: Raw, s: Stored, sets: seq<seq<nat>>, r: Record)
    requires Mirrors(cfg, d, s, d.ptrs, sets)
    ensures Mirrors(cfg, Raw(NextCount(d.count), if r.first < d.first then r.first else d.first,
                             if r.last > d.last then r.last else d.last, d.keyVals,
                             UpdateVals(cfg.fields, d.vals, r), d.ptrs),
                    Update(cfg, s, r), d.ptrs, PushAll(sets, Reads(cfg.distinct, r)))
  {
  }

  // ---- One stored record ----

  /** Copy the record's fields and give every COUNT_DISTINCT field a new vector. */
  method InitRecordData(cfg: Config, storage: map<KeyBytes, Raw>, v: Vectors, ghost l: Ledger, k: KeyBytes, r: Record)
    returns (storage': map<KeyBytes, Raw>, v': Vectors, ghost l': Ledger)
    requires Coherent(cfg, storage, v, l) && k !in l.contents
    ensures Coherent(cfg, storage', v', l')
    ensures l'.contents == l.contents[k := Init(cfg, r)]
    ensures k in storage' && storage' == storage[k := storage'[k]]
    ensures storage'[k].count == 1 && storage'[k].first == r.first && storage'[k].last == r.last
  {
    var ptrs;
    ghost var b;
    v', ptrs, b := AllocVectors(v, l.book, k, Reads(cfg.distinct, r));
    var d := Raw(1, r.first, r.last, Reads(KeyNames(cfg.keys), r), Reads(FieldNames(cfg.fields), r), ptrs);
    MirrorsInit(cfg, r, ptrs);
    CoherentSet(cfg, storage, v, l, k, d, Init(cfg, r), v', b, Singles(Reads(cfg.distinct, r)));
    storage', l' := storage[k := d], Ledger(b, l.contents[k := Init(cfg, r)]);
  }

  /** The counter and the two times, then the loop over the functions, then the loop over the vectors. */
  method ProcessAggFunctions(cfg: Config, storage: map<KeyBytes, Raw>, v: Vectors, ghost l: Ledger, k: KeyBytes, r: Record)
    returns (storage': map<KeyBytes, Raw>, v': Vectors, ghost l': Ledger)
    requires Coherent(cfg, storage, v, l) && k in l.contents
    ensures Coherent(cfg, storage', v', l')
    ensures l'.contents == l.contents[k := Update(cfg, l.contents[k], r)]
    ensures k in storage && k in storage' && storage' == storage[k := storage'[k]]
    ensures storage'[k].count == NextCount(storage[k].count) && storage'[k].ptrs == storage[k].ptrs
  {
    hide Update, UpdateVals, PushAll, Reads;
    var d := storage[k];
    var vals := UpdateFields(cfg.fields, d.vals, r);
    var first := if r.first < d.first then r.first else d.first;
    var last := if r.last > d.last then r.last else d.last;
    var d' := Raw(NextCount(d.count), first, last, d.keyVals, vals, d.ptrs);
    ghost var b;
    v', b := UpdateVectors(v, l.book, k, d.ptrs, Reads(cfg.distinct, r));
    assert b.addresses == l.book.addresses[k := d.ptrs];
    MirrorsUpdate(cfg, d, l.contents[k], l.book.sets[k], r);
    CoherentSet(cfg, storage, v, l, k, d', Update(cfg, l.contents[k], r), v', b,
                PushAll(l.book.sets[k], Reads(cfg.distinct, r)));
    storage', l' := storage[k := d'], Ledger(b, l.contents[k := Update(cfg, l.contents[k], r)]);
  }

  method UpdateFields(fields: seq<Field>, before: seq<nat>, r: Record) returns (vals: seq<nat>)
    requires |before| == |fields|
    ensures vals == UpdateVals(fields, before, r)
  {
    vals := before;
    ghost var goal := UpdateVals(fields, before, r);
    for i := 0 to |fields|
      invariant |vals| == |fields|
      invariant forall j :: 0 <= j < i ==> vals[j] == goal[j]
      invariant forall j :: i <= j < |fields| ==> vals[j] == before[j]
    {
      var f := fields[i];
      vals := vals[i := Apply(Processing(f), Width(f.typ), vals[i], Get(r, f.name))];
    }
  }

  /** Post-process a stored record into the message to send; its vectors are released, each exactly once. From here
      until it is initialised again or freed, the record is not part of the storage. */
  method PrepareToSend(cfg: Config, storage: map<KeyBytes, Raw>, v: Vectors, ghost l: Ledger, k: KeyBytes)
    returns (storage': map<KeyBytes, Raw>, v': Vectors, ghost l': Ledger, message: Option<Record>)
    requires Coherent(cfg, storage, v, l) && k in l.contents
    ensures Coherent(cfg, storage', v', l')
    ensures l'.contents == l.contents - {k} && message == Emit(cfg, l.contents[k])
  {
    var d := storage[k];
    var results;
    ghost var b;
    v', results, b := ReleaseVectors(v, l.book, k, d.ptrs);
    message := Message(cfg, d, results);
    CoherentDrop(cfg, storage, v, l, k, v', b);
    storage', l' := storage - {k}, Ledger(b, l.contents - {k});
  }

  method Message(cfg: Config, d: Raw, results: seq<nat>) returns (message: Option<Record>)
    requires |d.keyVals| == |cfg.keys| && |d.vals| == |cfg.fields| && |results| == |cfg.distinct|
    ensures message == EmitParts(cfg, d.count, d.first, d.last, d.keyVals, d.vals, results)
  {
    var posted := Some(d.vals);
    if NeedsPost(cfg) { posted := PrepareFields(cfg.fields, d.vals, d.count, Elapsed(d.first, d.last)); }
    if posted.None? { return None; }
    return Some(Record(d.first, d.last, d.count,
                       MapOf(KeyNames(cfg.keys), d.keyVals) + MapOf(FieldNames(cfg.fields), posted.value)
                       + MapOf(DistinctNames(cfg.distinct), results)));
  }

  method PrepareFields(fields: seq<Field>, vals: seq<nat>, count: nat, seconds: nat)
    returns (posted: Option<seq<nat>>)
    requires |vals| == |fields|
    ensures posted == PostVals(fields, vals, count, seconds)
  {
    var out: seq<nat> := [];
    for i := 0 to |fields|
      invariant |out| == i
      invariant forall j :: 0 <= j < i ==> PostVal(fields[j], vals[j], count, seconds) == Some(out[j])
    {
      match PostVal(fields[i], vals[i], count, seconds)
      case None =>
        return None;
      case Some(v) =>
        out := out + [v];
    }
    assert PostVals(fields, vals, count, seconds).Some?;
    assert PostVals(fields, vals, count, seconds).value == out;
    return Some(out);
  }

  lemma ReAdd<K, W>(m: map<K, W>, k: K, w: W)
    ensures (m - {k})[k := w] == m[k := w]
  {
  }

  lemma StoreCases(cfg: Config, s: State, r: Record)
    requires Aggregation.Valid(cfg, s)
    ensures var k := KeyOf(cfg.keys, r);
            StoreStep(cfg, s, r) ==
            if s.stop then s
            else if k !in s.store then s.(store := s.store[k := Init(cfg, r)])
            else if Expired(cfg.window, s.store[k].first, r) then
              s.(store := s.store[k := Init(cfg, r)], out := s.out + [Emit(cfg, s.store[k])])
            else s.(store := s.store[k := Update(cfg, s.store[k], r)])
  {
  }

  class Agg {
    const cfg: Config
    const process: Process
    var storage: map<KeyBytes, Raw>
    var clock: int
    var vectors: Vectors
    var sent: seq<Option<Record>>
    ghost var ledger: Ledger

    ghost predicate Valid()
      reads this
    {
      Coherent(cfg, storage, vectors, ledger)
    }

    /** The state of the specification machine this object is in. */
    ghost function View(): State
      reads this, process
    {
      State(ledger.contents, clock, process.once, process.stop, sent)
    }

    constructor (cfg: Config, process: Process, now: int)
      ensures this.cfg == cfg && this.process == process && Valid()
      ensures View() == State(map[], now, process.once, process.stop, [])
    {
      this.cfg, this.process := cfg, process;
      storage, clock, vectors, sent := map[], now, Vectors(map[], 0), [];
      ledger := Ledger(Book(map[], map[], map[]), map[]);
    }

    method SendRecordOut(k: KeyBytes)
      requires Valid() && k in ledger.contents
      modifies this`storage, this`vectors, this`ledger, this`sent
      ensures Valid()
      ensures ledger.contents == old(ledger).contents - {k}
      ensures sent == old(sent) + [Emit(cfg, old(ledger).contents[k])]
    {
      var message;
      storage, vectors, ledger, message := PrepareToSend(cfg, storage, vectors, ledger, k);
      sent := sent + [message];
    }

    /** A stored record shows the times of the group it stands for. */
    lemma StoredTimes(k: KeyBytes)
      requires Valid() && k in storage
      ensures k in ledger.contents
      ensures storage[k].first == ledger.contents[k].first && storage[k].last == ledger.contents[k].last
    {
      assert Mirrors(cfg, storage[k], ledger.contents[k], ledger.book.addresses[k], ledger.book.sets[k]);
    }

    /** The records in storage stand for the machine's groups. */
    lemma StorageView()
      requires Valid()
      ensures storage.Keys == ledger.contents.Keys && Aggregation.Valid(cfg, View())
    {
      forall k | k in ledger.contents ensures Shaped(cfg, ledger.contents[k]) {
        assert Mirrors(cfg, storage[k], ledger.contents[k], ledger.book.addresses[k], ledger.book.sets[k]);
      }
    }

    // ---- Critical sections ----

    method SeedClock(r: Record)
      requires Valid()
      modifies this`clock, process`once
      ensures Valid() && View() == Next(cfg, old(View()), Seed(r))
    {
      if process.once {
        clock := Sec(r.last);
        process.once := false;
      }
    }

    method StoreRecord(r: Record)
      requires Valid()
      modifies this
      ensures Valid() && View() == Next(cfg, old(View()), Store(r))
    {
      hide Update, Init, KeyOf, StoreStep, Emit, Coherent, Shaped, Mirrors;
      ghost var start := View();
      StorageView();
      StoreCases(cfg, start, r);
      if process.stop { return; }
      var key := MakeKey(cfg.keys, r);
      var k := key.data[..key.dataLength];
      if k in storage {
        StoredTimes(k);
        var newTimeWindow := ActiveTimeout(cfg.window).Some? &&
                             Sec(storage[k].first) + ActiveTimeout(cfg.window).value < Sec(r.first);
        if newTimeWindow {
          SendRecordOut(k);
          storage, vectors, ledger := InitRecordData(cfg, storage, vectors, ledger, k, r);
          ReAdd(start.store, k, Init(cfg, r));
        } else {
          storage, vectors, ledger := ProcessAggFunctions(cfg, storage, vectors, ledger, k, r);
        }
      } else {
        storage, vectors, ledger := InitRecordData(cfg, storage, vectors, ledger, k, r);
      }
    }

    /** Processing one input record: two critical sections, between which the other threads may step. */
    method Eval(r: Record)
      requires Valid()
      modifies this, process`once
      ensures Valid() && View() == Next(cfg, Next(cfg, old(View()), Seed(r)), Store(r))
    {
      SeedClock(r);
      StoreRecord(r);
    }

    method StartThread()
      requires Valid()
      modifies this`clock
      ensures Valid() && View() == Next(cfg, old(View()), Aggregation.Start)
    {
      if PassiveTimeout(cfg.window).Some? { clock := clock + PassiveTimeout(cfg.window).value; }
    }

    /** The clock after a pass that took `elapsed` seconds: sleeping makes up for the time spent, even when the
        pass took longer than the timeout and nothing is slept. */
    method AdvanceClock(elapsed: nat) returns (sleep: nat)
      requires Valid() && PassiveTimeout(cfg.window).Some?
      modifies this`clock
      ensures Valid() && View() == Next(cfg, old(View()), Advance)
      ensures sleep == if elapsed < PassiveTimeout(cfg.window).value then PassiveTimeout(cfg.window).value - elapsed else 0
    {
      var timeout := PassiveTimeout(cfg.window).value;
      var secToSleep := timeout - elapsed;
      clock := clock + (elapsed + secToSleep);
      sleep := if secToSleep > 0 then secToSleep else 0;
    }

    method SweepStorage() returns (ghost order: seq<KeyBytes>)
      requires Valid() && PassiveTimeout(cfg.window).Some?
      modifies this
      ensures Valid() && View() == Next(cfg, old(View()), Sweep(order))
      ensures Enabled(cfg, old(View()), Sweep(order))
    {
      hide Evict, Emit, HeapOk, Coherent, Shaped;
      var timeout := PassiveTimeout(cfg.window).value;
      StorageView();
      ghost var start := View();
      EvictNil(cfg, start);
      var todo := storage.Keys;
      order := [];
      while todo != {}
        invariant Valid() && View() == Evict(cfg, start, order)
        invariant todo <= storage.Keys && NoDuplicates(order)
        invariant forall k :: k in order ==> k in StaleKeys(cfg, start)
        invariant forall k :: k in storage && k !in todo ==> k !in StaleKeys(cfg, start)
        decreases todo
      {
        var k :| k in todo;
        todo := todo - {k};
        EvictFrame(cfg, start, order);
        StorageView();
        StoredTimes(k);
        assert View().store[k] == start.store[k];
        if Sec(storage[k].last) < clock - timeout {
          EvictSnoc(cfg, start, order, k);
          NoDuplicatesSnoc(order, k);
          SendRecordOut(k);
          order := order + [k];
        }
        StorageView();
      }
      StorageView();
      EvictFrame(cfg, start, order);
    }

    method FlushStorage() returns (ghost order: seq<KeyBytes>)
      requires Valid()
      modifies this
      ensures Valid() && View() == Next(cfg, old(View()), Flush(order))
      ensures Enabled(cfg, old(View()), Flush(order))
      ensures storage == map[]
    {
      hide Evict, Emit, HeapOk;
      ghost var start := View();
      EvictNil(cfg, start);
      var todo := storage.Keys;
      order := [];
      while todo != {}
        invariant Valid() && View() == Evict(cfg, start, order)
        invariant storage.Keys == todo && NoDuplicates(order)
        invariant forall k :: k in order ==> k in start.store
        decreases todo
      {
        var k :| k in todo;
        EvictFrame(cfg, start, order);
        EvictSnoc(cfg, start, order, k);
        NoDuplicatesSnoc(order, k);
        SendRecordOut(k);
        todo := todo - {k};
        order := order + [k];
      }
      EvictFrame(cfg, start, order);
    }

    /** Live vectors are always exactly stored records times COUNT_DISTINCT fields. */
    lemma LiveVectorCount()
      requires Valid()
      ensures |vectors.live| == |storage| * |cfg.distinct|
    {
      forall k | k in ledger.book.sets ensures |ledger.book.sets[k]| == |cfg.distinct| {
        assert Mirrors(cfg, storage[k], ledger.contents[k], ledger.book.addresses[k], ledger.book.sets[k]);
      }
      LiveVectors(vectors, ledger.book, |cfg.distinct|);
      assert |storage| == |storage.Keys| == |ledger.book.sets.Keys| == |ledger.book.sets|;
    }

    /** Destruction: stop every aggregator, then send what is stored. Nothing stays allocated. */
    method Destroy() returns (ghost order: seq<KeyBytes>)
      requires Valid()
      modifies this, process`stop
      ensures Valid() && View() == Next(cfg, Next(cfg, old(View()), Stop), Flush(order))
      ensures Enabled(cfg, Next(cfg, old(View()), Stop), Flush(order))
      ensures storage == map[] && vectors.live == map[]
    {
      process.stop := true;
      order := FlushStorage();
      LiveVectorCount();
    }
  }
}
