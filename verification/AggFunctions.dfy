/** The aggregation functions and what a stored record means: seeded from the first record of a group,
    updated in arrival order, post-processed once when it is sent. */
module AggFunctions {
  import opened Bits
  import opened Records
  import opened Sequences
  import opened Wrappers

  datatype Func = Sum | Avg | Min | Max | First | Last | BitOr | BitAnd | Rate

  /** Unsigned numbers of a width in bits, and IP addresses, which are compared as 128-bit numbers. */
  datatype FieldType = Unsigned(bits: nat) | Address

  function Width(t: FieldType): nat { if t.Unsigned? then t.bits else 128 }

  /** An aggregated field: the function asked for, and the type that decides which one it gets. */
  datatype Field = Field(name: string, func: Func, typ: FieldType)

  /** The function a field is processed with. For addresses only MIN, MAX and LAST exist; any other is replaced by the
      function that does nothing, so that the first address stays. */
  function Processing(f: Field): Func {
    if f.typ.Address? && f.func != Min && f.func != Max && f.func != Last then First else f.func
  }

  datatype Window = Active(timeout: nat) | Passive(timeout: nat) | Global(timeout: nat) | Mixed(active: nat, passive: nat)

  /** Key fields, aggregated fields, fields whose distinct values are counted, and the window. */
  datatype Config = Config(keys: seq<KeyField>, fields: seq<Field>, distinct: seq<string>, window: Window)

  /** A stored output record; `sets[i]` is the vector behind the i-th COUNT_DISTINCT field. */
  datatype Stored = Stored(count: nat, first: nat, last: nat, keyVals: seq<nat>, vals: seq<nat>, sets: seq<seq<nat>>)

  /** Wrap-around of an unsigned value at its width. */
  function Wrap(x: nat, bits: nat): nat {
    if x < Pow2(bits) then x else Wrap(x - Pow2(bits), bits)
  }

  lemma {:induction false} WrapIsMod(x: nat, bits: nat)
    ensures Wrap(x, bits) == x % Pow2(bits)
    decreases x
  {
    if x < Pow2(bits) {
      ModUnique(x, Pow2(bits), 0, x);
    } else {
      WrapIsMod(x - Pow2(bits), bits);
      ModStep(x, Pow2(bits));
    }
  }

  lemma ModStep(x: nat, d: nat)
    requires 1 <= d <= x
    ensures x % d == (x - d) % d
  {
    var q, r := (x - d) / d, (x - d) % d;
    assert d * (q + 1) == d * q + d;
    ModUnique(x, d, q + 1, r);
  }

  /** One call of an aggregation function: the new destination value. */
  function Apply(f: Func, bits: nat, dst: nat, src: nat): nat {
    match f
    case Sum | Avg | Rate => Wrap(dst + src, bits)
    case Min => if src < dst then src else dst
    case Max => if src > dst then src else dst
    case First => dst
    case Last => src
    case BitOr => Or(dst, src)
    case BitAnd => And(dst, src)
  }

  function Push(vec: seq<nat>, x: nat): seq<nat> {
    if x in vec then vec else vec + [x]
  }

  /** A column of the input: one of the two times or a field by name. */
  datatype Attr = Start | End | Named(name: string)

  function Read(r: Record, a: Attr): nat {
    match a
    case Start => r.first
    case End => r.last
    case Named(name) => Get(r, name)
  }

  function Reads(names: seq<string>, r: Record): (v: seq<nat>)
    ensures |v| == |names| && forall i :: 0 <= i < |names| ==> v[i] == Get(r, names[i])
  {
    if names == [] then [] else Reads(names[..|names| - 1], r) + [Get(r, names[|names| - 1])]
  }

  function KeyNames(keys: seq<KeyField>): (r: seq<string>)
    ensures |r| == |keys|
  {
    if keys == [] then [] else KeyNames(keys[..|keys| - 1]) + [keys[|keys| - 1].name]
  }

  function FieldNames(fields: seq<Field>): (r: seq<string>)
    ensures |r| == |fields| && forall i :: 0 <= i < |fields| ==> r[i] == fields[i].name
  {
    if fields == [] then [] else FieldNames(fields[..|fields| - 1]) + [fields[|fields| - 1].name]
  }

  function Singles(values: seq<nat>): (sets: seq<seq<nat>>)
    ensures |sets| == |values| && forall i :: 0 <= i < |values| ==> sets[i] == [values[i]]
  {
    if values == [] then [] else Singles(values[..|values| - 1]) + [[values[|values| - 1]]]
  }

  function Init(cfg: Config, r: Record): (s: Stored)
    ensures Shaped(cfg, s)
  {
    Stored(1, r.first, r.last, Reads(KeyNames(cfg.keys), r), Reads(FieldNames(cfg.fields), r), Singles(Reads(cfg.distinct, r)))
  }

  predicate Shaped(cfg: Config, s: Stored) {
    |s.keyVals| == |cfg.keys| && |s.vals| == |cfg.fields| && |s.sets| == |cfg.distinct|
  }

  const COUNT_LIMIT: nat := 0x1_0000_0000

  /** The 32-bit counter wraps. */
  function NextCount(count: nat): nat {
    if count + 1 == COUNT_LIMIT then 0 else count + 1
  }

  function UpdateVals(fields: seq<Field>, vals: seq<nat>, r: Record): (vals': seq<nat>)
    requires |vals| == |fields|
    ensures |vals'| == |fields|
    ensures forall i :: 0 <= i < |fields| ==>
              vals'[i] == Apply(Processing(fields[i]), Width(fields[i].typ), vals[i], Get(r, fields[i].name))
  {
    if fields == [] then []
    else
      var n := |fields| - 1;
      UpdateVals(fields[..n], vals[..n], r)
        + [Apply(Processing(fields[n]), Width(fields[n].typ), vals[n], Get(r, fields[n].name))]
  }

  function PushAll(sets: seq<seq<nat>>, values: seq<nat>): (sets': seq<seq<nat>>)
    requires |sets| == |values|
    ensures |sets'| == |values| && forall i :: 0 <= i < |values| ==> sets'[i] == Push(sets[i], values[i])
  {
    if values == [] then []
    else
      var n := |values| - 1;
      PushAll(sets[..n], values[..n]) + [Push(sets[n], values[n])]
  }

  function Update(cfg: Config, s: Stored, r: Record): (s': Stored)
    requires Shaped(cfg, s)
    ensures Shaped(cfg, s')
  {
    Stored(NextCount(s.count),
           if r.first < s.first then r.first else s.first,
           if r.last > s.last then r.last else s.last,
           s.keyVals,
           UpdateVals(cfg.fields, s.vals, r),
           PushAll(s.sets, Reads(cfg.distinct, r)))
  }

  /** The stored record of a group: what the program holds after the group's records in order. */
  function Fold(cfg: Config, g: seq<Record>): (s: Stored)
    requires g != []
    ensures Shaped(cfg, s)
  {
    if |g| == 1 then Init(cfg, g[0]) else Update(cfg, Fold(cfg, g[..|g| - 1]), g[|g| - 1])
  }

  // ---- What each component of a fold is ----

  function Column(g: seq<Record>, a: Attr): (c: seq<nat>)
    ensures |c| == |g|
  {
    if g == [] then [] else Column(g[..|g| - 1], a) + [Read(g[|g| - 1], a)]
  }

  function FoldVals(f: Func, bits: nat, xs: seq<nat>): nat
    requires xs != []
  {
    if |xs| == 1 then xs[0] else Apply(f, bits, FoldVals(f, bits, xs[..|xs| - 1]), xs[|xs| - 1])
  }

  function FoldSet(xs: seq<nat>): (vec: seq<nat>)
    ensures forall x :: x in vec <==> x in xs
    ensures forall i, j :: 0 <= i < j < |vec| ==> vec[i] != vec[j]
  {
    if xs == [] then [] else Push(FoldSet(xs[..|xs| - 1]), xs[|xs| - 1])
  }

  lemma ColumnPrefix(g: seq<Record>, name: Attr)
    requires g != []
    ensures Column(g, name)[..|g| - 1] == Column(g[..|g| - 1], name)
    ensures Column(g, name)[|g| - 1] == Read(g[|g| - 1], name)
  {
  }

  lemma CountStep(n: nat)
    ensures NextCount(n % COUNT_LIMIT) == (n + 1) % COUNT_LIMIT
  {
    var q, c := n / COUNT_LIMIT, n % COUNT_LIMIT;
    assert n == COUNT_LIMIT * q + c;
    if c + 1 == COUNT_LIMIT {
      ModUnique(n + 1, COUNT_LIMIT, q + 1, 0);
    } else {
      ModUnique(n + 1, COUNT_LIMIT, q, c + 1);
    }
  }

  lemma SmallCount(n: nat)
    requires n < COUNT_LIMIT
    ensures n % COUNT_LIMIT == n
  {
    ModUnique(n, COUNT_LIMIT, 0, n);
  }

  lemma ModAdd(a: nat, b: nat, d: nat)
    requires d >= 1
    ensures (a % d + b) % d == (a + b) % d
  {
    var q := a / d;
    assert a + b == d * q + (a % d + b);
    var q', r' := (a % d + b) / d, (a % d + b) % d;
    assert a + b == d * (q + q') + r' by {
      assert d * (q + q') == d * q + d * q';
    }
    ModUnique(a + b, d, q + q', r');
  }

  // A stored record is, component by component, the fold of one column of its group.

  /** The counter after n records. */
  function CountOf(n: nat): nat {
    if n <= 1 then n else NextCount(CountOf(n - 1))
  }

  lemma {:induction false} CountOfIsMod(n: nat)
    ensures CountOf(n) == n % COUNT_LIMIT
  {
    if n <= 1 {
      SmallCount(n);
    } else {
      CountOfIsMod(n - 1);
      CountStep(n - 1);
    }
  }

  lemma {:induction false} FoldCountOf(cfg: Config, g: seq<Record>)
    requires g != []
    ensures Fold(cfg, g).count == CountOf(|g|)
  {
    hide UpdateVals, PushAll, Reads, Column;
    if |g| > 1 { FoldCountOf(cfg, g[..|g| - 1]); }
  }

  lemma FoldCount(cfg: Config, g: seq<Record>)
    requires g != []
    ensures Fold(cfg, g).count == |g| % COUNT_LIMIT
  {
    FoldCountOf(cfg, g);
    CountOfIsMod(|g|);
  }

  lemma {:induction false} FoldTimes(cfg: Config, g: seq<Record>)
    requires g != []
    ensures Fold(cfg, g).first == FoldVals(Min, 64, Column(g, Start))
    ensures Fold(cfg, g).last == FoldVals(Max, 64, Column(g, End))
  {
    hide UpdateVals, PushAll, Reads, Column;
    ColumnPrefix(g, Start);
    ColumnPrefix(g, End);
    if |g| > 1 { FoldTimes(cfg, g[..|g| - 1]); }
  }

  /** The key fields are copied from the first record and never touched again. */
  lemma {:induction false} FoldKeyVals(cfg: Config, g: seq<Record>)
    requires g != []
    ensures Fold(cfg, g).keyVals == Reads(KeyNames(cfg.keys), g[0])
  {
    if |g| > 1 { FoldKeyVals(cfg, g[..|g| - 1]); }
  }

  lemma {:induction false} FoldValAt(cfg: Config, g: seq<Record>, i: nat)
    requires g != [] && i < |cfg.fields|
    ensures var f := cfg.fields[i];
            Fold(cfg, g).vals[i] == FoldVals(Processing(f), Width(f.typ), Column(g, Named(f.name)))
  {
    ColumnPrefix(g, Named(cfg.fields[i].name));
    if |g| > 1 { FoldValAt(cfg, g[..|g| - 1], i); }
  }

  lemma {:induction false} FoldSetAt(cfg: Config, g: seq<Record>, i: nat)
    requires g != [] && i < |cfg.distinct|
    ensures Fold(cfg, g).sets[i] == FoldSet(Column(g, Named(cfg.distinct[i])))
  {
    var c := Column(g, Named(cfg.distinct[i]));
    ColumnPrefix(g, Named(cfg.distinct[i]));
    if |g| > 1 {
      FoldSetAt(cfg, g[..|g| - 1], i);
    } else {
      assert c[..0] == [];
      assert FoldSet(c) == Push(FoldSet(c[..0]), c[0]);
    }
  }

  function Total(xs: seq<nat>): nat {
    if xs == [] then 0 else Total(xs[..|xs| - 1]) + xs[|xs| - 1]
  }

  /** The documented meaning of each function over all values of the group, independent of the update steps. */
  ghost predicate Means(f: Func, bits: nat, xs: seq<nat>, r: nat) {
    match f
    case Sum | Avg | Rate => r == Total(xs) % Pow2(bits)
    case Min => r in xs && forall x :: x in xs ==> r <= x
    case Max => r in xs && forall x :: x in xs ==> x <= r
    case First => xs != [] && r == xs[0]
    case Last => xs != [] && r == xs[|xs| - 1]
    case BitOr => forall i: nat :: Bit(r, i) <==> exists x :: x in xs && Bit(x, i)
    case BitAnd => forall i: nat :: Bit(r, i) <==> forall x :: x in xs ==> Bit(x, i)
  }

  lemma MeansStep(f: Func, bits: nat, xs: seq<nat>, x: nat, r: nat)
    requires Means(f, bits, xs, r) && xs != []
    ensures Means(f, bits, xs + [x], Apply(f, bits, r, x))
  {
    var ys := xs + [x];
    assert forall y :: y in ys <==> y in xs || y == x;
    match f
    case Sum | Avg | Rate =>
      assert ys[..|xs|] == xs;
      WrapIsMod(r + x, bits);
      ModAdd(Total(xs), x, Pow2(bits));
    case BitOr =>
      forall i: nat ensures Bit(Or(r, x), i) <==> exists y :: y in ys && Bit(y, i) {
        OrBits(r, x, i);
        if Bit(x, i) { assert x in ys; }
      }
    case BitAnd =>
      forall i: nat ensures Bit(And(r, x), i) <==> forall y :: y in ys ==> Bit(y, i) {
        AndBits(r, x, i);
        assert x in ys;
      }
    case Min =>
    case Max =>
    case First =>
    case Last =>
  }

  lemma MeansSingle(f: Func, bits: nat, xs: seq<nat>)
    requires |xs| == 1 && xs[0] < Pow2(bits)
    ensures Means(f, bits, xs, xs[0])
  {
    assert xs[..0] == [];
    assert Total(xs) == xs[0];
    ModUnique(xs[0], Pow2(bits), 0, xs[0]);
    assert xs[0] in xs;
  }

  /** Every aggregation function, seeded from the first value and updated in arrival order, has its named meaning. */
  lemma {:induction false} FoldMeans(f: Func, bits: nat, xs: seq<nat>)
    requires xs != [] && forall i :: 0 <= i < |xs| ==> xs[i] < Pow2(bits)
    ensures Means(f, bits, xs, FoldVals(f, bits, xs))
  {
    if |xs| == 1 {
      MeansSingle(f, bits, xs);
    } else {
      var init := xs[..|xs| - 1];
      assert xs == init + [xs[|xs| - 1]];
      FoldMeans(f, bits, init);
      MeansStep(f, bits, init, xs[|xs| - 1], FoldVals(f, bits, init));
    }
  }

  /** Each stored value means what the function that processes its field says. */
  lemma FieldMeans(cfg: Config, g: seq<Record>, i: nat)
    requires g != [] && i < |cfg.fields| && GroupFits(cfg, g)
    ensures var f := cfg.fields[i];
            && Means(Processing(f), Width(f.typ), Column(g, Named(f.name)), Fold(cfg, g).vals[i])
            && (f.typ.Unsigned? ==> Means(f.func, f.typ.bits, Column(g, Named(f.name)), Fold(cfg, g).vals[i]))
  {
    hide Means, FoldVals, Fold, Column;
    var f := cfg.fields[i];
    assert f in cfg.fields;
    FoldValAt(cfg, g, i);
    ColumnMembers(g, Named(f.name), Pow2(Width(f.typ)));
    FoldMeans(Processing(f), Width(f.typ), Column(g, Named(f.name)));
  }

  /** An address field with any function but MIN, MAX and LAST keeps the first address of its group. */
  lemma AddressKeepsFirst(cfg: Config, g: seq<Record>, i: nat)
    requires g != [] && i < |cfg.fields| && cfg.fields[i].typ.Address? && GroupFits(cfg, g)
    requires cfg.fields[i].func != Min && cfg.fields[i].func != Max && cfg.fields[i].func != Last
    ensures Fold(cfg, g).vals[i] == Get(g[0], cfg.fields[i].name)
  {
    hide Fold;
    FieldMeans(cfg, g, i);
    ColumnFirst(g, Named(cfg.fields[i].name));
  }

  /** An address field has, on every group, the meaning that was asked for exactly with MIN, MAX, FIRST and LAST. */
  lemma AddressMeansIff(f: Field)
    requires f.typ.Address?
    ensures (forall xs: seq<nat> :: xs != [] && (forall x :: x in xs ==> x < Pow2(128)) ==>
               Means(f.func, 128, xs, FoldVals(Processing(f), 128, xs)))
      <==> f.func == Min || f.func == Max || f.func == First || f.func == Last
  {
    hide Pow2, Means, FoldVals;
    if f.func == Min || f.func == Max || f.func == First || f.func == Last {
      forall xs: seq<nat> | xs != [] && (forall x :: x in xs ==> x < Pow2(128))
        ensures Means(f.func, 128, xs, FoldVals(Processing(f), 128, xs))
      {
        forall i | 0 <= i < |xs| ensures xs[i] < Pow2(128) { assert xs[i] in xs; }
        FoldMeans(f.func, 128, xs);
      }
    } else {
      OneTwo(f);
      assert forall x :: x in [1, 2] ==> x < Pow2(128);
    }
  }

  lemma OneTwo(f: Field)
    requires Processing(f) == First && f.func != First && f.func != Min && f.func != Max && f.func != Last
    ensures 2 < Pow2(128) && !Means(f.func, 128, [1, 2], FoldVals(First, 128, [1, 2]))
  {
    hide Pow2, FoldVals, Total, Bit;
    var xs: seq<nat> := [1, 2];
    OneTwoTotal();
    OneTwoBits();
    ModUnique(3, Pow2(128), 0, 3);
    assert xs[0] == 1 && xs[1] == 2;
  }

  lemma OneTwoTotal()
    ensures 3 < Pow2(128) && Total([1, 2]) == 3 && FoldVals(First, 128, [1, 2]) == 1
  {
    hide Pow2;
    Pow2Mono(2, 128);
    FourIsPow2();
    var xs: seq<nat> := [1, 2];
    assert xs[..1] == [1] && [1][..0] == [];
  }

  lemma FourIsPow2()
    ensures Pow2(2) == 4
  {
  }

  lemma OneTwoBits()
    ensures Bit(1, 0) && !Bit(1, 1) && Bit(2, 1) && !Bit(2, 0)
  {
  }

  lemma {:induction false} ColumnFirst(g: seq<Record>, a: Attr)
    requires g != []
    ensures Column(g, a)[0] == Read(g[0], a)
  {
    if |g| > 1 { ColumnFirst(g[..|g| - 1], a); }
  }

  // ---- Order independence ----

  predicate OrderFree(f: Func) { f != First && f != Last }

  lemma {:induction false} TotalRemove(xs: seq<nat>, j: nat)
    requires j < |xs|
    ensures Total(xs) == Total(xs[..j] + xs[j + 1..]) + xs[j]
  {
    var ys := xs[..j] + xs[j + 1..];
    if j == |xs| - 1 {
      assert ys == xs[..|xs| - 1];
    } else {
      TotalRemove(xs[..|xs| - 1], j);
      assert ys[..|ys| - 1] == xs[..|xs| - 1][..j] + xs[..|xs| - 1][j + 1..];
      assert ys[|ys| - 1] == xs[|xs| - 1];
    }
  }

  /** The last element of one permutation, found and removed in the other. */
  lemma RemoveLast<T>(xs: seq<T>, ys: seq<T>) returns (j: nat)
    requires xs != [] && multiset(xs) == multiset(ys)
    ensures j < |ys| && ys[j] == xs[|xs| - 1]
    ensures ys == (ys[..j] + [ys[j]]) + ys[j + 1..]
    ensures multiset(ys[..j] + ys[j + 1..]) == multiset(xs[..|xs| - 1])
  {
    var init, x := xs[..|xs| - 1], xs[|xs| - 1];
    assert xs == init + [x];
    assert x in multiset(ys);
    j :| 0 <= j < |ys| && ys[j] == x;
    assert ys == (ys[..j] + [ys[j]]) + ys[j + 1..];
    assert multiset(ys) == multiset(ys[..j]) + multiset{x} + multiset(ys[j + 1..]);
    assert multiset(ys[..j] + ys[j + 1..]) == multiset(ys[..j]) + multiset(ys[j + 1..]);
    assert multiset(xs) == multiset(init) + multiset{x};
    assert multiset(ys[..j] + ys[j + 1..]) + multiset{x} == multiset(init) + multiset{x};
    CancelOne(multiset(ys[..j] + ys[j + 1..]), multiset(init), x);
  }

  lemma CancelOne<T>(a: multiset<T>, b: multiset<T>, x: T)
    requires a + multiset{x} == b + multiset{x}
    ensures a == b
  {
    forall y ensures a[y] == b[y] {
      assert (a + multiset{x})[y] == (b + multiset{x})[y];
    }
  }

  lemma {:induction false} TotalPermuted(xs: seq<nat>, ys: seq<nat>)
    requires multiset(xs) == multiset(ys)
    ensures Total(xs) == Total(ys)
    decreases |xs|
  {
    if xs == [] {
      assert |multiset(ys)| == 0;
    } else {
      var j := RemoveLast(xs, ys);
      TotalPermuted(xs[..|xs| - 1], ys[..j] + ys[j + 1..]);
      TotalRemove(ys, j);
    }
  }

  lemma MeansUnique(f: Func, bits: nat, xs: seq<nat>, ys: seq<nat>, r: nat, s: nat)
    requires OrderFree(f) && multiset(xs) == multiset(ys)
    requires Means(f, bits, xs, r) && Means(f, bits, ys, s)
    ensures r == s
  {
    SameElements(xs, ys);
    match f
    case Sum | Avg | Rate => TotalPermuted(xs, ys);
    case BitOr =>
      forall i: nat ensures Bit(r, i) <==> Bit(s, i) {
      }
      SameBits(r, s);
    case BitAnd =>
      forall i: nat ensures Bit(r, i) <==> Bit(s, i) {
      }
      SameBits(r, s);
    case Min =>
    case Max =>
  }

  lemma SameElements<T>(xs: seq<T>, ys: seq<T>)
    requires multiset(xs) == multiset(ys)
    ensures forall x :: x in xs <==> x in ys
  {
    assert forall x :: x in xs <==> x in multiset(xs);
    assert forall x :: x in ys <==> x in multiset(ys);
  }

  lemma {:induction false} ColumnAppend(g: seq<Record>, h: seq<Record>, name: Attr)
    ensures Column(g + h, name) == Column(g, name) + Column(h, name)
  {
    if h == [] {
      assert g + h == g;
    } else {
      assert (g + h)[..|g + h| - 1] == g + h[..|h| - 1];
      ColumnAppend(g, h[..|h| - 1], name);
    }
  }

  lemma {:induction false} ColumnPermuted(g: seq<Record>, h: seq<Record>, name: Attr)
    requires multiset(g) == multiset(h)
    ensures multiset(Column(g, name)) == multiset(Column(h, name))
    decreases |g|
  {
    if g == [] {
      assert |multiset(h)| == 0;
    } else {
      var init, x := g[..|g| - 1], g[|g| - 1];
      assert g == init + [x];
      var j := RemoveLast(g, h);
      var a, b := h[..j], h[j + 1..];
      ColumnPermuted(init, a + b, name);
      ColumnAppend(a, b, name);
      ColumnAppend(a + [x], b, name);
      ColumnAppend(a, [x], name);
      ColumnAppend(init, [x], name);
    }
  }

  lemma {:induction false} ColumnMembers(g: seq<Record>, name: Attr, bound: nat)
    requires forall r :: r in g ==> Read(r, name) < bound
    ensures forall i :: 0 <= i < |g| ==> Column(g, name)[i] < bound
  {
    if g != [] {
      assert g == g[..|g| - 1] + [g[|g| - 1]];
      ColumnMembers(g[..|g| - 1], name, bound);
    }
  }

  /** Every value a function reads fits the function's width. */
  predicate GroupFits(cfg: Config, g: seq<Record>) {
    && (forall r :: r in g ==> r.first < Pow2(64) && r.last < Pow2(64))
    && (forall r, f :: r in g && f in cfg.fields ==> Get(r, f.name) < Pow2(Width(f.typ)))
  }

  lemma ColumnOrder(f: Func, bits: nat, g: seq<Record>, h: seq<Record>, name: Attr)
    requires g != [] && multiset(g) == multiset(h) && OrderFree(f)
    requires forall r :: r in g ==> Read(r, name) < Pow2(bits)
    ensures h != []
    ensures FoldVals(f, bits, Column(g, name)) == FoldVals(f, bits, Column(h, name))
  {
    assert g[0] in multiset(h);
    SameElements(g, h);
    ColumnPermuted(g, h, name);
    ColumnMembers(g, name, Pow2(bits));
    ColumnMembers(h, name, Pow2(bits));
    FoldMeans(f, bits, Column(g, name));
    FoldMeans(f, bits, Column(h, name));
    MeansUnique(f, bits, Column(g, name), Column(h, name),
                FoldVals(f, bits, Column(g, name)), FoldVals(f, bits, Column(h, name)));
  }

  // ---- Post-processing ----

  /** Post-processing is switched on by any AVG or RATE, whatever the type of its field. */
  predicate NeedsPost(cfg: Config) { exists f :: f in cfg.fields && (f.func == Avg || f.func == Rate) }

  /** The fields that have a post-processing function: AVG and RATE of a number. */
  predicate HasPost(f: Field) { (f.func == Avg || f.func == Rate) && f.typ.Unsigned? }

  /** Whole seconds between the two times. */
  function Elapsed(first: nat, last: nat): nat {
    (if last >= first then last - first else first - last) / SECOND
  }

  /** A field without an average function is handed to its rate function, which is null unless the field is the RATE of
      a number. */
  function PostVal(f: Field, val: nat, count: nat, seconds: nat): Option<nat> {
    if !HasPost(f) then None
    else if f.func == Avg then (if count == 0 then None else Some(val / count))
    else if seconds == 0 then Some(0)
    else Some(val / seconds)
  }

  function PostVals(fields: seq<Field>, vals: seq<nat>, count: nat, seconds: nat): (r: Option<seq<nat>>)
    requires |fields| == |vals|
    ensures r.Some? ==> |r.value| == |fields| && forall i :: 0 <= i < |fields| ==>
              PostVal(fields[i], vals[i], count, seconds) == Some(r.value[i])
    ensures r.None? <==> exists i :: 0 <= i < |fields| && PostVal(fields[i], vals[i], count, seconds).None?
  {
    if fields == [] then Some([])
    else
      var n := |fields| - 1;
      var init := PostVals(fields[..n], vals[..n], count, seconds);
      if init.None? then
        assert forall i :: 0 <= i < n ==> fields[..n][i] == fields[i] && vals[..n][i] == vals[i];
        None
      else
        match PostVal(fields[n], vals[n], count, seconds)
        case None => None
        case Some(v) => Some(init.value + [v])
  }

  function Sizes(sets: seq<seq<nat>>): (r: seq<nat>)
    ensures |r| == |sets| && forall i :: 0 <= i < |sets| ==> r[i] == |sets[i]|
  {
    if sets == [] then [] else Sizes(sets[..|sets| - 1]) + [|sets[|sets| - 1]|]
  }

  function MapOf(names: seq<string>, vals: seq<nat>): map<string, nat>
    requires |names| == |vals|
  {
    if names == [] then map[]
    else MapOf(names[..|names| - 1], vals[..|vals| - 1])[names[|names| - 1] := vals[|vals| - 1]]
  }

  function DistinctNames(distinct: seq<string>): (r: seq<string>)
    ensures |r| == |distinct|
  {
    if distinct == [] then []
    else DistinctNames(distinct[..|distinct| - 1]) + ["COUNT_DISTINCT_" + distinct[|distinct| - 1]]
  }

  /** What is sent for a stored record; None is the run-time fault (a null function call or a division by zero). */
  function Emit(cfg: Config, s: Stored): Option<Record>
    requires Shaped(cfg, s)
  {
    EmitParts(cfg, s.count, s.first, s.last, s.keyVals, s.vals, Sizes(s.sets))
  }

  /** The same from the record's fields, the COUNT_DISTINCT results being in place of the vectors. */
  function EmitParts(cfg: Config, count: nat, first: nat, last: nat, keyVals: seq<nat>, vals: seq<nat>, sizes: seq<nat>)
    : Option<Record>
    requires |keyVals| == |cfg.keys| && |vals| == |cfg.fields| && |sizes| == |cfg.distinct|
  {
    var posted := if NeedsPost(cfg) then PostVals(cfg.fields, vals, count, Elapsed(first, last)) else Some(vals);
    if posted.None? then None
    else Some(Record(first, last, count,
                     MapOf(KeyNames(cfg.keys), keyVals) + MapOf(FieldNames(cfg.fields), posted.value)
                     + MapOf(DistinctNames(cfg.distinct), sizes)))
  }

  lemma EmitFaults(cfg: Config, s: Stored)
    requires Shaped(cfg, s)
    ensures Emit(cfg, s).None? <==>
              || (NeedsPost(cfg) && exists f :: f in cfg.fields && !HasPost(f))
              || ((exists f :: f in cfg.fields && f.func == Avg) && s.count == 0)
  {
    var e := Elapsed(s.first, s.last);
    if f :| f in cfg.fields && (!HasPost(f) || (f.func == Avg && s.count == 0)) {
      var i :| 0 <= i < |cfg.fields| && cfg.fields[i] == f;
      assert PostVal(cfg.fields[i], s.vals[i], s.count, e).None?;
    }
    if NeedsPost(cfg) && PostVals(cfg.fields, s.vals, s.count, e).None? {
      var i :| 0 <= i < |cfg.fields| && PostVal(cfg.fields[i], s.vals[i], s.count, e).None?;
      assert cfg.fields[i] in cfg.fields;
    }
  }

  /** AVG and RATE, where they are used, are used for every plain field, each of them a number: then only a wrapped
      counter could fault. */
  predicate Uniform(cfg: Config) {
    NeedsPost(cfg) ==> forall f :: f in cfg.fields ==> HasPost(f)
  }

  lemma EmitHeader(cfg: Config, s: Stored)
    requires Shaped(cfg, s) && Emit(cfg, s).Some?
    ensures var r := Emit(cfg, s).value; r.count == s.count && r.first == s.first && r.last == s.last
  {
  }

  lemma EmitSome(cfg: Config, s: Stored)
    requires Shaped(cfg, s) && Uniform(cfg) && s.count != 0
    ensures Emit(cfg, s).Some? && Emit(cfg, s).value.count == s.count
  {
    EmitFaults(cfg, s);
    if Emit(cfg, s).Some? { EmitHeader(cfg, s); }
  }

  /** Exactly when sending a group faults: AVG or RATE is in use and some plain field is not the AVG or RATE of a number
      (another function, or an address), or an average meets a record counter that has wrapped to zero. */
  lemma EmitFaultsIff(cfg: Config, g: seq<Record>)
    requires g != []
    ensures Emit(cfg, Fold(cfg, g)).None? <==>
              || (NeedsPost(cfg) && exists f :: f in cfg.fields && !HasPost(f))
              || ((exists f :: f in cfg.fields && f.func == Avg) && |g| % COUNT_LIMIT == 0)
  {
    EmitFaults(cfg, Fold(cfg, g));
    FoldCount(cfg, g);
  }

  lemma ValOrder(cfg: Config, g: seq<Record>, h: seq<Record>, i: nat)
    requires g != [] && h != [] && multiset(g) == multiset(h) && GroupFits(cfg, g)
    requires i < |cfg.fields| && OrderFree(Processing(cfg.fields[i]))
    ensures Fold(cfg, g).vals[i] == Fold(cfg, h).vals[i]
  {
    FoldValAt(cfg, g, i);
    FoldValAt(cfg, h, i);
    var f := cfg.fields[i];
    assert f in cfg.fields;
    ColumnOrder(Processing(f), Width(f.typ), g, h, Named(f.name));
  }

  lemma SetOrder(cfg: Config, g: seq<Record>, h: seq<Record>, i: nat)
    requires g != [] && h != [] && multiset(g) == multiset(h) && i < |cfg.distinct|
    ensures |Fold(cfg, g).sets[i]| == |Fold(cfg, h).sets[i]|
  {
    CountDistinctIsSetSize(cfg, g, i);
    CountDistinctIsSetSize(cfg, h, i);
    var name := Named(cfg.distinct[i]);
    ColumnPermuted(g, h, name);
    SameElements(Column(g, name), Column(h, name));
    assert Elements(Column(g, name)) == Elements(Column(h, name));
  }

  lemma HeaderOrder(cfg: Config, g: seq<Record>, h: seq<Record>)
    requires g != [] && h != [] && multiset(g) == multiset(h) && GroupFits(cfg, g)
    requires forall r :: r in g ==> Reads(KeyNames(cfg.keys), r) == Reads(KeyNames(cfg.keys), g[0])
    ensures var s, t := Fold(cfg, g), Fold(cfg, h);
            s.count == t.count && s.first == t.first && s.last == t.last && s.keyVals == t.keyVals
  {
    SameElements(g, h);
    assert h[0] in g;
    assert |g| == |multiset(g)| == |multiset(h)| == |h|;
    FoldCount(cfg, g);
    FoldCount(cfg, h);
    FoldTimes(cfg, g);
    FoldTimes(cfg, h);
    FoldKeyVals(cfg, g);
    FoldKeyVals(cfg, h);
    ColumnOrder(Min, 64, g, h, Start);
    ColumnOrder(Max, 64, g, h, End);
  }

  /** What a group emits depends only on the multiset of its records, whatever order they arrived in,
      as long as no field is processed as FIRST or LAST, which also excludes SUM, AVG, OR, AND and RATE of an address, and
      the records share their key fields. */
  lemma EmitOrderIndependent(cfg: Config, g: seq<Record>, h: seq<Record>)
    requires g != [] && h != [] && multiset(g) == multiset(h) && GroupFits(cfg, g)
    requires forall f :: f in cfg.fields ==> OrderFree(Processing(f))
    requires forall r :: r in g ==> Reads(KeyNames(cfg.keys), r) == Reads(KeyNames(cfg.keys), g[0])
    ensures Emit(cfg, Fold(cfg, g)) == Emit(cfg, Fold(cfg, h))
  {
    HeaderOrder(cfg, g, h);
    forall i | 0 <= i < |cfg.fields| ensures Fold(cfg, g).vals[i] == Fold(cfg, h).vals[i] {
      assert cfg.fields[i] in cfg.fields;
      ValOrder(cfg, g, h, i);
    }
    forall i | 0 <= i < |cfg.distinct| ensures |Fold(cfg, g).sets[i]| == |Fold(cfg, h).sets[i]| {
      SetOrder(cfg, g, h, i);
    }
    EmitDepends(cfg, Fold(cfg, g), Fold(cfg, h));
  }

  lemma EmitDepends(cfg: Config, s: Stored, t: Stored)
    requires Shaped(cfg, s) && Shaped(cfg, t)
    requires s.count == t.count && s.first == t.first && s.last == t.last && s.keyVals == t.keyVals
    requires forall i :: 0 <= i < |cfg.fields| ==> s.vals[i] == t.vals[i]
    requires forall i :: 0 <= i < |cfg.distinct| ==> |s.sets[i]| == |t.sets[i]|
    ensures Emit(cfg, s) == Emit(cfg, t)
  {
    assert s.vals == t.vals;
    SizesDepend(s.sets, t.sets);
  }

  lemma SizesDepend(a: seq<seq<nat>>, b: seq<seq<nat>>)
    requires |a| == |b| && forall i :: 0 <= i < |a| ==> |a[i]| == |b[i]|
    ensures Sizes(a) == Sizes(b)
  {
    assert forall i :: 0 <= i < |a| ==> Sizes(a)[i] == Sizes(b)[i];
  }

  /** COUNT_DISTINCT reports the number of different values in the group. */
  lemma CountDistinctIsSetSize(cfg: Config, g: seq<Record>, i: nat)
    requires g != [] && i < |cfg.distinct|
    ensures |Fold(cfg, g).sets[i]| == |Elements(Column(g, Named(cfg.distinct[i])))|
  {
    FoldSetAt(cfg, g, i);
    var c := Column(g, Named(cfg.distinct[i]));
    var v := FoldSet(c);
    DistinctIsSetSize(v);
    assert Elements(v) == Elements(c);
  }

  // ---- Averages ----

  lemma {:induction false} TotalBounds(xs: seq<nat>, lo: nat, hi: nat)
    requires forall i :: 0 <= i < |xs| ==> lo <= xs[i] <= hi
    ensures |xs| * lo <= Total(xs) <= |xs| * hi
  {
    if xs != [] {
      TotalBounds(xs[..|xs| - 1], lo, hi);
      assert |xs| * lo == (|xs| - 1) * lo + lo;
      assert |xs| * hi == (|xs| - 1) * hi + hi;
    }
  }

  lemma MeanBounds(bits: nat, xs: seq<nat>)
    requires xs != [] && forall i :: 0 <= i < |xs| ==> xs[i] < Pow2(bits)
    ensures FoldVals(Min, bits, xs) <= Total(xs) / |xs| <= FoldVals(Max, bits, xs)
  {
    FoldMeans(Min, bits, xs);
    FoldMeans(Max, bits, xs);
    var lo, hi := FoldVals(Min, bits, xs), FoldVals(Max, bits, xs);
    forall i | 0 <= i < |xs| ensures lo <= xs[i] <= hi {
      assert xs[i] in xs;
    }
    TotalBounds(xs, lo, hi);
    DivBounds(Total(xs), |xs|, lo, hi);
  }

  /** When neither the sum nor the counter wraps, the emitted average is the floor of the true mean and
      lies between the smallest and the largest value of the group. */
  lemma AverageIsMean(cfg: Config, g: seq<Record>, i: nat)
    requires g != [] && i < |cfg.fields| && cfg.fields[i].func == Avg && cfg.fields[i].typ.Unsigned?
    requires |g| < COUNT_LIMIT
    requires GroupFits(cfg, g)
    requires Total(Column(g, Named(cfg.fields[i].name))) < Pow2(cfg.fields[i].typ.bits)
    ensures var f, s, xs := cfg.fields[i], Fold(cfg, g), Column(g, Named(cfg.fields[i].name));
            && PostVal(f, s.vals[i], s.count, Elapsed(s.first, s.last)) == Some(Total(xs) / |g|)
            && FoldVals(Min, f.typ.bits, xs) <= Total(xs) / |g| <= FoldVals(Max, f.typ.bits, xs)
  {
    hide Fold, FoldVals, Column, Pow2, Means;
    AverageVal(cfg, g, i);
    ColumnMembers(g, Named(cfg.fields[i].name), Pow2(cfg.fields[i].typ.bits));
    MeanBounds(cfg.fields[i].typ.bits, Column(g, Named(cfg.fields[i].name)));
  }

  lemma AverageVal(cfg: Config, g: seq<Record>, i: nat)
    requires g != [] && i < |cfg.fields| && cfg.fields[i].func == Avg && cfg.fields[i].typ.Unsigned?
    requires |g| < COUNT_LIMIT
    requires GroupFits(cfg, g)
    requires Total(Column(g, Named(cfg.fields[i].name))) < Pow2(cfg.fields[i].typ.bits)
    ensures cfg.fields[i] in cfg.fields
    ensures Fold(cfg, g).vals[i] == Total(Column(g, Named(cfg.fields[i].name))) && Fold(cfg, g).count == |g|
  {
    assert cfg.fields[i] in cfg.fields;
    FoldCount(cfg, g);
    SmallCount(|g|);
    FoldValAt(cfg, g, i);
    ColumnMembers(g, Named(cfg.fields[i].name), Pow2(cfg.fields[i].typ.bits));
    SumUnwrapped(cfg.fields[i].typ.bits, Column(g, Named(cfg.fields[i].name)));
  }

  lemma SumUnwrapped(bits: nat, xs: seq<nat>)
    requires xs != [] && (forall i :: 0 <= i < |xs| ==> xs[i] < Pow2(bits)) && Total(xs) < Pow2(bits)
    ensures FoldVals(Avg, bits, xs) == Total(xs)
  {
    FoldMeans(Avg, bits, xs);
    ModUnique(Total(xs), Pow2(bits), 0, Total(xs));
  }

  lemma MulCancel(n: int, a: int, b: int)
    requires n >= 1 && n * a < n * b
    ensures a < b
  {
    assert a >= b ==> n * (a - b) >= 0;
    assert n * (a - b) == n * a - n * b;
  }

  lemma DivBounds(t: nat, n: nat, lo: nat, hi: nat)
    requires n >= 1 && n * lo <= t <= n * hi
    ensures lo <= t / n <= hi
  {
    var q := t / n;
    assert t == n * q + t % n;
    assert n * (q + 1) == n * q + n;
    MulCancel(n, lo, q + 1);
    assert n * (hi + 1) == n * hi + n;
    MulCancel(n, q, hi + 1);
  }
}
