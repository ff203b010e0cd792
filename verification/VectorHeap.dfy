/** The heap of vectors behind COUNT_DISTINCT: every stored record owns one vector per such field through an
    address kept in the record, and no other vector is live. K is the type of the storage's keys. */
module VectorHeap {
  import opened AggFunctions

  datatype Vectors = Vectors(live: map<nat, seq<nat>>, next: nat)

  /** The i-th COUNT_DISTINCT field of the record stored under a key. */
  datatype Slot<K> = Slot(key: K, index: nat)

  /** Who owns which address, and for each stored record its addresses and the values of its vectors. */
  datatype Book<K(==)> = Book(owner: map<nat, Slot<K>>, addresses: map<K, seq<nat>>, sets: map<K, seq<seq<nat>>>)

  /** Key k's addresses hold exactly the vectors `sets`. */
  predicate Owned<K(==)>(v: Vectors, b: Book<K>, k: K, sets: seq<seq<nat>>) {
    && k in b.addresses && |b.addresses[k]| == |sets|
    && forall i :: 0 <= i < |sets| ==>
         var a := b.addresses[k][i];
         a in v.live && a in b.owner && b.owner[a] == Slot(k, i) && v.live[a] == sets[i]
  }

  predicate InUse<K(==)>(v: Vectors, b: Book<K>, a: nat)
    requires a in b.owner
  {
    var k, i := b.owner[a].key, b.owner[a].index;
    a < v.next && k in b.addresses && i < |b.addresses[k]| && b.addresses[k][i] == a
  }

  predicate HeapOk<K(==)>(v: Vectors, b: Book<K>) {
    && b.addresses.Keys == b.sets.Keys
    && v.live.Keys == b.owner.Keys
    && (forall k | k in b.sets :: Owned(v, b, k, b.sets[k]))
    && (forall a | a in b.owner :: InUse(v, b, a))
  }

  /** What one key owns stays owned when only others' vectors change. */
  lemma OwnedFrame<K>(v: Vectors, b: Book<K>, v': Vectors, b': Book<K>, k: K, sets: seq<seq<nat>>)
    requires Owned(v, b, k, sets) && k in b'.addresses && b'.addresses[k] == b.addresses[k]
    requires forall a :: a in b.owner && b.owner[a].key == k && a in v.live ==>
               a in b'.owner && a in v'.live && b'.owner[a] == b.owner[a] && v'.live[a] == v.live[a]
    ensures Owned(v', b', k, sets)
  {
  }

  // ---- Allocation ----

  method AllocLoop<K>(v: Vectors, ghost owner: map<nat, Slot<K>>, ghost k: K, values: seq<nat>)
    returns (v': Vectors, ptrs: seq<nat>, ghost owner': map<nat, Slot<K>>)
    requires v.live.Keys == owner.Keys && forall a :: a in v.live ==> a < v.next
    ensures v'.live.Keys == owner'.Keys && v'.next >= v.next && |ptrs| == |values|
    ensures forall j :: 0 <= j < |values| ==>
              && ptrs[j] !in v.live && ptrs[j] in owner' && owner'[ptrs[j]] == Slot(k, j)
              && v'.live[ptrs[j]] == [values[j]]
    ensures forall a :: a in owner ==> a in owner' && owner'[a] == owner[a] && v'.live[a] == v.live[a]
    ensures forall a :: a in owner' && a !in owner ==>
              a < v'.next && owner'[a].key == k && owner'[a].index < |ptrs| && ptrs[owner'[a].index] == a
  {
    v', owner', ptrs := v, owner, [];
    for i := 0 to |values|
      invariant v'.live.Keys == owner'.Keys && |ptrs| == i && v'.next >= v.next
      invariant forall a :: a in v'.live ==> a < v'.next
      invariant forall j :: 0 <= j < i ==>
                  && ptrs[j] !in v.live && ptrs[j] in owner' && owner'[ptrs[j]] == Slot(k, j)
                  && v'.live[ptrs[j]] == [values[j]]
      invariant forall a :: a in owner ==> a in owner' && owner'[a] == owner[a] && v'.live[a] == v.live[a]
      invariant forall a :: a in owner' && a !in owner ==>
                  owner'[a].key == k && owner'[a].index < i && ptrs[owner'[a].index] == a
    {
      var newVec := v'.next;
      v' := Vectors(v'.live[newVec := [values[i]]], newVec + 1);
      owner' := owner'[newVec := Slot(k, i)];
      ptrs := ptrs + [newVec];
    }
  }

  lemma AllocOk<K>(v: Vectors, b: Book<K>, v': Vectors, b': Book<K>, k: K, sets: seq<seq<nat>>, ptrs: seq<nat>)
    requires HeapOk(v, b) && k !in b.sets
    requires b'.addresses == b.addresses[k := ptrs] && b'.sets == b.sets[k := sets]
    requires v'.live.Keys == b'.owner.Keys && v'.next >= v.next && |ptrs| == |sets|
    requires forall j :: 0 <= j < |ptrs| ==>
               ptrs[j] in b'.owner && b'.owner[ptrs[j]] == Slot(k, j) && v'.live[ptrs[j]] == sets[j]
    requires forall a :: a in b.owner ==> a in b'.owner && b'.owner[a] == b.owner[a] && v'.live[a] == v.live[a]
    requires forall a :: a in b'.owner && a !in b.owner ==>
               a < v'.next && b'.owner[a].key == k && b'.owner[a].index < |ptrs| && ptrs[b'.owner[a].index] == a
    ensures HeapOk(v', b')
  {
    forall l | l in b'.sets ensures Owned(v', b', l, b'.sets[l]) {
      if l != k { OwnedFrame(v, b, v', b', l, b.sets[l]); }
    }
    forall a | a in b'.owner ensures InUse(v', b', a) {
      if a in b.owner { assert InUse(v, b, a); }
    }
  }

  /** One new one-element vector per COUNT_DISTINCT field. */
  method AllocVectors<K>(v: Vectors, ghost b: Book<K>, ghost k: K, values: seq<nat>)
    returns (v': Vectors, ptrs: seq<nat>, ghost b': Book<K>)
    requires HeapOk(v, b) && k !in b.sets
    ensures HeapOk(v', b') && b'.addresses == b.addresses[k := ptrs] && b'.sets == b.sets[k := Singles(values)]
    ensures |ptrs| == |values|
    ensures forall j :: 0 <= j < |ptrs| ==>
              ptrs[j] !in v.live && ptrs[j] in v'.live && v'.live[ptrs[j]] == [values[j]]
    ensures forall a :: a in v.live ==> a in v'.live && v'.live[a] == v.live[a]
  {
    forall a | a in v.live ensures a < v.next { assert InUse(v, b, a); }
    ghost var owner;
    v', ptrs, owner := AllocLoop(v, b.owner, k, values);
    b' := Book(owner, b.addresses[k := ptrs], b.sets[k := Singles(values)]);
    AllocOk(v, b, v', b', k, Singles(values), ptrs);
  }

  // ---- Update ----

  /** Linear search, then push at the back. */
  method CountDistinct(vec: seq<nat>, x: nat) returns (vec': seq<nat>)
    ensures vec' == Push(vec, x)
  {
    for i := 0 to |vec|
      invariant x !in vec[..i]
    {
      if vec[i] == x { return vec; }
    }
    assert vec[..|vec|] == vec;
    return vec + [x];
  }

  method UpdateLoop<K>(live: map<nat, seq<nat>>, ghost owner: map<nat, Slot<K>>, ghost k: K,
                       ghost sets: seq<seq<nat>>, ptrs: seq<nat>, values: seq<nat>)
    returns (live': map<nat, seq<nat>>)
    requires live.Keys == owner.Keys && |ptrs| == |sets| == |values|
    requires forall i :: 0 <= i < |ptrs| ==> ptrs[i] in live && owner[ptrs[i]] == Slot(k, i) && live[ptrs[i]] == sets[i]
    ensures live'.Keys == live.Keys
    ensures forall j :: 0 <= j < |ptrs| ==> live'[ptrs[j]] == Push(sets[j], values[j])
    ensures forall a :: a in live && owner[a].key != k ==> live'[a] == live[a]
  {
    live' := live;
    for i := 0 to |ptrs|
      invariant live'.Keys == live.Keys
      invariant forall j :: 0 <= j < i ==> live'[ptrs[j]] == Push(sets[j], values[j])
      invariant forall j :: i <= j < |ptrs| ==> live'[ptrs[j]] == sets[j]
      invariant forall a :: a in live && owner[a].key != k ==> live'[a] == live[a]
    {
      var vec := CountDistinct(live'[ptrs[i]], values[i]);
      live' := live'[ptrs[i] := vec];
    }
  }

  lemma UpdateOk<K>(v: Vectors, b: Book<K>, v': Vectors, b': Book<K>, k: K, sets: seq<seq<nat>>)
    requires HeapOk(v, b) && k in b.sets && b' == b.(sets := b.sets[k := sets])
    requires v'.live.Keys == v.live.Keys && v'.next == v.next && |sets| == |b.addresses[k]|
    requires forall j :: 0 <= j < |sets| ==> b.addresses[k][j] in v'.live && v'.live[b.addresses[k][j]] == sets[j]
    requires forall a :: a in v.live && b.owner[a].key != k ==> v'.live[a] == v.live[a]
    ensures HeapOk(v', b')
  {
    assert Owned(v, b, k, b.sets[k]);
    forall l | l in b'.sets ensures Owned(v', b', l, b'.sets[l]) {
      if l != k { OwnedFrame(v, b, v', b', l, b.sets[l]); }
    }
    forall a | a in b'.owner ensures InUse(v', b', a) {
      assert InUse(v, b, a);
    }
  }

  method UpdateVectors<K>(v: Vectors, ghost b: Book<K>, ghost k: K, ptrs: seq<nat>, values: seq<nat>)
    returns (v': Vectors, ghost b': Book<K>)
    requires HeapOk(v, b) && k in b.sets && ptrs == b.addresses[k] && |b.sets[k]| == |values|
    ensures HeapOk(v', b') && b'.addresses == b.addresses && b'.sets == b.sets[k := PushAll(b.sets[k], values)]
    ensures v'.live.Keys == v.live.Keys && |ptrs| == |values|
    ensures forall j :: 0 <= j < |ptrs| ==>
              ptrs[j] in v.live && v'.live[ptrs[j]] == Push(v.live[ptrs[j]], values[j])
    ensures forall a :: a in v.live && a !in ptrs ==> v'.live[a] == v.live[a]
  {
    assert Owned(v, b, k, b.sets[k]);
    OwnAddresses(v, b, k);
    var live := UpdateLoop(v.live, b.owner, k, b.sets[k], ptrs, values);
    v', b' := v.(live := live), b.(sets := b.sets[k := PushAll(b.sets[k], values)]);
    UpdateOk(v, b, v', b', k, PushAll(b.sets[k], values));
  }

  // ---- Release ----

  lemma ReleaseOk<K>(v: Vectors, b: Book<K>, v': Vectors, b': Book<K>, k: K)
    requires HeapOk(v, b) && k in b.sets
    requires b'.addresses == b.addresses - {k} && b'.sets == b.sets - {k}
    requires v'.live.Keys == b'.owner.Keys && v'.next == v.next
    requires forall a :: a in b'.owner ==>
               a in b.owner && b.owner[a].key != k && b'.owner[a] == b.owner[a] && v'.live[a] == v.live[a]
    requires forall a :: a in b.owner && b.owner[a].key != k ==> a in b'.owner
    ensures HeapOk(v', b')
  {
    forall l | l in b'.sets ensures Owned(v', b', l, b'.sets[l]) {
      OwnedFrame(v, b, v', b', l, b.sets[l]);
    }
    forall a | a in b'.owner ensures InUse(v', b', a) {
      assert InUse(v, b, a);
    }
  }

  /** Each address is live when it is released; nothing else is touched. */
  method ReleaseLoop<K>(live: map<nat, seq<nat>>, ghost owner: map<nat, Slot<K>>, ghost k: K,
                        ghost sets: seq<seq<nat>>, ptrs: seq<nat>)
    returns (live': map<nat, seq<nat>>, results: seq<nat>)
    requires live.Keys == owner.Keys && |ptrs| == |sets|
    requires forall i :: 0 <= i < |ptrs| ==> ptrs[i] in live && owner[ptrs[i]] == Slot(k, i) && live[ptrs[i]] == sets[i]
    ensures results == Sizes(sets)
    ensures forall a :: a in live' <==> a in live && a !in ptrs
    ensures forall a :: a in live' ==> live'[a] == live[a]
  {
    live', results := live, [];
    for i := 0 to |ptrs|
      invariant |results| == i && forall j :: 0 <= j < i ==> results[j] == |sets[j]|
      invariant forall a :: a in live' <==> a in live && a !in ptrs[..i]
      invariant forall a :: a in live' ==> live'[a] == live[a]
    {
      var address := ptrs[i];
      assert address !in ptrs[..i];
      results := results + [|live'[address]|];
      live' := live' - {address};
      assert ptrs[..i + 1] == ptrs[..i] + [address];
    }
    assert ptrs[..|ptrs|] == ptrs;
    assert results == Sizes(sets);
  }

  function Remaining<K>(b: Book<K>, k: K): Book<K>
    requires k in b.addresses
  {
    Book(map a | a in b.owner && b.owner[a].key != k :: b.owner[a], b.addresses - {k}, b.sets - {k})
  }

  /** Key k's addresses are exactly the ones it owns. */
  lemma OwnAddresses<K>(v: Vectors, b: Book<K>, k: K)
    requires HeapOk(v, b) && k in b.sets
    ensures forall a :: a in b.owner ==> (a in b.addresses[k] <==> b.owner[a].key == k)
    ensures forall a :: a in b.addresses[k] ==> a in b.owner
  {
    assert Owned(v, b, k, b.sets[k]);
    forall a | a in b.owner ensures a in b.addresses[k] <==> b.owner[a].key == k {
      assert InUse(v, b, a);
    }
  }

  /** Replace every vector by its size and release it. */
  method ReleaseVectors<K>(v: Vectors, ghost b: Book<K>, ghost k: K, ptrs: seq<nat>)
    returns (v': Vectors, results: seq<nat>, ghost b': Book<K>)
    requires HeapOk(v, b) && k in b.sets && ptrs == b.addresses[k]
    ensures results == Sizes(b.sets[k])
    ensures HeapOk(v', b') && b'.addresses == b.addresses - {k} && b'.sets == b.sets - {k}
  {
    assert Owned(v, b, k, b.sets[k]);
    var live;
    live, results := ReleaseLoop(v.live, b.owner, k, b.sets[k], ptrs);
    OwnAddresses(v, b, k);
    v', b' := v.(live := live), Remaining(b, k);
    ReleaseOk(v, b, v', b', k);
  }

  // ---- The number of live vectors ----

  lemma MinusSize<A, W>(m: map<A, W>, s: set<A>)
    requires s <= m.Keys
    ensures |m - s| == |m| - |s|
  {
    assert m.Keys == (m - s).Keys + s;
    assert |m| == |m.Keys| && |m - s| == |(m - s).Keys|;
  }

  /** An injective map has as many values as keys. */
  lemma {:induction false} InjectiveSize<A(!new), B>(m: map<A, B>)
    requires forall a, c :: a in m && c in m && m[a] == m[c] ==> a == c
    ensures |m.Values| == |m|
    decreases |m|
  {
    if m == map[] {
      assert m.Values == {};
    } else {
      var a :| a in m;
      MinusSize(m, {a});
      InjectiveSize(m - {a});
      forall c | c in m ensures m[c] in (m - {a}).Values + {m[a]} {
        if c != a { assert c in m - {a}; }
      }
      assert m.Values == (m - {a}).Values + {m[a]};
    }
  }

  ghost function Slots<K(!new)>(ks: set<K>, n: nat): set<Slot<K>> {
    set k, i | k in ks && 0 <= i < n :: Slot(k, i)
  }

  lemma {:induction false} RowSize<K(!new)>(k: K, n: nat)
    ensures |Slots({k}, n)| == n
  {
    if n == 0 {
      assert Slots({k}, n) == {};
    } else {
      RowSize(k, n - 1);
      assert Slots({k}, n) == Slots({k}, n - 1) + {Slot(k, n - 1)};
    }
  }

  lemma {:induction false} SlotsSize<K(!new)>(ks: set<K>, n: nat)
    ensures |Slots(ks, n)| == |ks| * n
  {
    if ks == {} {
      assert Slots(ks, n) == {};
    } else {
      var k :| k in ks;
      SlotsSize(ks - {k}, n);
      RowSize(k, n);
      assert Slots(ks, n) == Slots(ks - {k}, n) + Slots({k}, n);
      assert Slots(ks - {k}, n) !! Slots({k}, n);
      Distribute(|ks|, n);
    }
  }

  lemma Distribute(m: nat, n: nat)
    requires m >= 1
    ensures m * n == (m - 1) * n + n
  {
  }

  /** The live vectors number exactly the stored records times the COUNT_DISTINCT fields. */
  lemma LiveVectors<K(!new)>(v: Vectors, b: Book<K>, n: nat)
    requires HeapOk(v, b) && forall k | k in b.sets :: |b.sets[k]| == n
    ensures |v.live| == |b.sets| * n
  {
    forall a, c | a in b.owner && c in b.owner && b.owner[a] == b.owner[c] ensures a == c {
      assert InUse(v, b, a) && InUse(v, b, c);
    }
    InjectiveSize(b.owner);
    OwnersAreSlots(v, b, n);
    SlotsSize(b.sets.Keys, n);
    assert |v.live| == |v.live.Keys| == |b.owner.Keys| == |b.owner|;
    assert |b.sets| == |b.sets.Keys|;
  }

  lemma OwnersAreSlots<K(!new)>(v: Vectors, b: Book<K>, n: nat)
    requires HeapOk(v, b) && forall k | k in b.sets :: |b.sets[k]| == n
    ensures b.owner.Values == Slots(b.sets.Keys, n)
  {
    forall a | a in b.owner ensures b.owner[a] in Slots(b.sets.Keys, n) {
      assert InUse(v, b, a);
      assert Owned(v, b, b.owner[a].key, b.sets[b.owner[a].key]);
    }
    forall k, i | k in b.sets && 0 <= i < n ensures Slot(k, i) in b.owner.Values {
      assert Owned(v, b, k, b.sets[k]);
      assert b.owner[b.addresses[k][i]] == Slot(k, i);
    }
  }
}
