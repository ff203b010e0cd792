/** Sequences without duplicates, and sequences of sequences. */
module Sequences {

  predicate NoDuplicates<T(==)>(xs: seq<T>) {
    forall i, j :: 0 <= i < j < |xs| ==> xs[i] != xs[j]
  }

  lemma NoDuplicatesSnoc<T>(xs: seq<T>, x: T)
    requires NoDuplicates(xs) && x !in xs
    ensures NoDuplicates(xs + [x])
  {
  }

  function Elements<T>(xs: seq<T>): set<T> { set x | x in xs }

  /** The length of a duplicate-free vector is the size of the set of its elements. */
  lemma {:induction false} DistinctIsSetSize<T>(xs: seq<T>)
    requires NoDuplicates(xs)
    ensures |xs| == |Elements(xs)|
  {
    if xs == [] {
      assert Elements(xs) == {};
    } else {
      var init, y := xs[..|xs| - 1], xs[|xs| - 1];
      DistinctIsSetSize(init);
      assert Elements(xs) == Elements(init) + {y};
      assert y !in init;
    }
  }

  /** A concatenation is duplicate-free exactly when both parts are and they share no element. */
  lemma NoDuplicatesAppend<T>(xs: seq<T>, ys: seq<T>)
    ensures NoDuplicates(xs + ys)
      <==> NoDuplicates(xs) && NoDuplicates(ys) && forall i :: 0 <= i < |xs| ==> xs[i] !in ys
  {
    var zs := xs + ys;
    if NoDuplicates(zs) {
      forall i, j | 0 <= i < j < |xs| ensures xs[i] != xs[j] {
        assert zs[i] == xs[i] && zs[j] == xs[j];
      }
      forall i, j | 0 <= i < j < |ys| ensures ys[i] != ys[j] {
        assert zs[|xs| + i] == ys[i] && zs[|xs| + j] == ys[j];
      }
      forall i, j | 0 <= i < |xs| && 0 <= j < |ys| ensures xs[i] != ys[j] {
        assert zs[i] == xs[i] && zs[|xs| + j] == ys[j];
      }
    }
  }

  /** Every sequence with x in front. */
  function Prepend<T>(x: T, ps: seq<seq<T>>): (r: seq<seq<T>>)
    ensures |r| == |ps| && forall i :: 0 <= i < |ps| ==> r[i] == [x] + ps[i]
  {
    if ps == [] then [] else [[x] + ps[0]] + Prepend(x, ps[1..])
  }
}
