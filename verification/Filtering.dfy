/** Filtering a sequence, and what the filtered sequence says about the positions that pass. */
module Filtering {

  function Filter<T>(keep: T -> bool, xs: seq<T>): seq<T> {
    if xs == [] then []
    else
      var last := xs[|xs| - 1];
      Filter(keep, xs[..|xs| - 1]) + (if keep(last) then [last] else [])
  }

  ghost predicate NonePass<T>(keep: T -> bool, xs: seq<T>) {
    forall i :: 0 <= i < |xs| ==> !keep(xs[i])
  }

  ghost predicate SolePass<T>(keep: T -> bool, xs: seq<T>, i: nat) {
    && i < |xs| && keep(xs[i])
    && forall j :: 0 <= j < |xs| && j != i ==> !keep(xs[j])
  }

  ghost predicate TwoPass<T>(keep: T -> bool, xs: seq<T>, i: nat, j: nat) {
    i < j < |xs| && keep(xs[i]) && keep(xs[j])
  }

  /** No position passes, exactly one does, or two different ones do. */
  lemma NoneSoleOrTwo<T>(keep: T -> bool, xs: seq<T>)
    ensures NonePass(keep, xs)
         || (exists i: nat :: SolePass(keep, xs, i))
         || (exists i: nat, j: nat :: TwoPass(keep, xs, i, j))
  {
    if i: nat :| i < |xs| && keep(xs[i]) {
      if j: nat :| j < |xs| && j != i && keep(xs[j]) {
        assert TwoPass(keep, xs, if i < j then i else j, if i < j then j else i);
      } else {
        assert SolePass(keep, xs, i);
      }
    }
  }

  lemma {:induction false} NoneIsEmpty<T>(keep: T -> bool, xs: seq<T>)
    ensures NonePass(keep, xs) <==> Filter(keep, xs) == []
  {
    if xs != [] {
      var front := xs[..|xs| - 1];
      NoneIsEmpty(keep, front);
      assert forall i :: 0 <= i < |front| ==> xs[i] == front[i];
      assert NonePass(keep, xs) <==> NonePass(keep, front) && !keep(xs[|xs| - 1]);
    }
  }

  lemma {:induction false} SoleIsSingleton<T>(keep: T -> bool, xs: seq<T>, i: nat)
    requires SolePass(keep, xs, i)
    ensures Filter(keep, xs) == [xs[i]]
  {
    var front := xs[..|xs| - 1];
    assert forall j :: 0 <= j < |front| ==> xs[j] == front[j];
    if i == |xs| - 1 {
      NoneIsEmpty(keep, front);
    } else {
      SoleIsSingleton(keep, front, i);
    }
  }

  lemma {:induction false} TwoIsMany<T>(keep: T -> bool, xs: seq<T>, i: nat, j: nat)
    requires TwoPass(keep, xs, i, j)
    ensures |Filter(keep, xs)| > 1
  {
    var front := xs[..|xs| - 1];
    assert forall k :: 0 <= k < |front| ==> xs[k] == front[k];
    if j == |xs| - 1 {
      NoneIsEmpty(keep, front);
      assert !NonePass(keep, front) by {
        assert keep(front[i]);
      }
    } else {
      TwoIsMany(keep, front, i, j);
    }
  }

  /** The length of the filtered sequence tells the three cases apart. */
  lemma FilterCounts<T>(keep: T -> bool, xs: seq<T>)
    ensures Filter(keep, xs) == [] <==> NonePass(keep, xs)
    ensures |Filter(keep, xs)| > 1 <==> exists i: nat, j: nat :: TwoPass(keep, xs, i, j)
    ensures forall i: nat :: SolePass(keep, xs, i) ==> Filter(keep, xs) == [xs[i]]
  {
    NoneIsEmpty(keep, xs);
    NoneSoleOrTwo(keep, xs);
    forall i: nat | SolePass(keep, xs, i)
      ensures Filter(keep, xs) == [xs[i]]
    {
      SoleIsSingleton(keep, xs, i);
    }
    forall i: nat, j: nat | TwoPass(keep, xs, i, j)
      ensures |Filter(keep, xs)| > 1
    {
      TwoIsMany(keep, xs, i, j);
    }
  }

  /** Filtering keeps how often a passing element occurs. */
  lemma {:induction false} FilterMultiplicity<T>(keep: T -> bool, xs: seq<T>, x: T)
    ensures multiset(Filter(keep, xs))[x] == if keep(x) then multiset(xs)[x] else 0
  {
    if xs != [] {
      var front, last := xs[..|xs| - 1], xs[|xs| - 1];
      FilterMultiplicity(keep, front, x);
      assert xs == front + [last];
    }
  }

  /** Passing elements occur equally often in both. */
  ghost predicate SamePassing<T(!new)>(keep: T -> bool, xs: seq<T>, ys: seq<T>) {
    forall x :: keep(x) ==> multiset(xs)[x] == multiset(ys)[x]
  }

  lemma SamePassingSameFilter<T(!new)>(keep: T -> bool, xs: seq<T>, ys: seq<T>)
    requires SamePassing(keep, xs, ys)
    ensures multiset(Filter(keep, xs)) == multiset(Filter(keep, ys))
  {
    forall x
      ensures multiset(Filter(keep, xs))[x] == multiset(Filter(keep, ys))[x]
    {
      FilterMultiplicity(keep, xs, x);
      FilterMultiplicity(keep, ys, x);
    }
  }

  /** Sequences with the same elements have the same length, and a lone element is the same one. */
  lemma SameElements<T>(xs: seq<T>, ys: seq<T>)
    requires multiset(xs) == multiset(ys)
    ensures |xs| == |ys|
    ensures |xs| == 1 ==> xs == ys
  {
    assert |multiset(xs)| == |xs| && |multiset(ys)| == |ys|;
    if |xs| == 1 {
      assert xs[0] in multiset(ys);
      assert ys == [ys[0]];
    }
  }
}
