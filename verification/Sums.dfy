/** Weighted counting over sequences: the arithmetic behind every conservation law of the project. */
module Sums {

  function Sum<T>(xs: seq<T>, w: T -> nat): nat {
    if xs == [] then 0 else w(xs[0]) + Sum(xs[1..], w)
  }

  lemma SumHead<T>(xs: seq<T>, w: T -> nat)
    requires xs != []
    ensures Sum(xs, w) == w(xs[0]) + Sum(xs[1..], w)
  {
  }

  lemma {:induction false} SumConcat<T>(xs: seq<T>, ys: seq<T>, w: T -> nat)
    ensures Sum(xs + ys, w) == Sum(xs, w) + Sum(ys, w)
  {
    if xs == [] {
      assert xs + ys == ys;
    } else {
      SumConcat(xs[1..], ys, w);
      assert (xs + ys)[1..] == xs[1..] + ys;
    }
  }

  lemma SumAppend<T>(xs: seq<T>, x: T, w: T -> nat)
    ensures Sum(xs + [x], w) == Sum(xs, w) + w(x)
  {
    SumConcat(xs, [x], w);
    assert [x][1..] == [];
  }

  lemma SumSplit<T>(xs: seq<T>, i: nat, w: T -> nat)
    requires i < |xs|
    ensures Sum(xs, w) == Sum(xs[..i], w) + w(xs[i]) + Sum(xs[i + 1..], w)
  {
    assert xs == xs[..i] + xs[i..];
    SumConcat(xs[..i], xs[i..], w);
    assert xs[i..][1..] == xs[i + 1..];
  }

  lemma SumUpdate<T>(xs: seq<T>, i: nat, x: T, w: T -> nat)
    requires i < |xs|
    ensures Sum(xs[i := x], w) + w(xs[i]) == Sum(xs, w) + w(x)
  {
    var ys := xs[i := x];
    SumSplit(xs, i, w);
    SumSplit(ys, i, w);
    assert ys[..i] == xs[..i] && ys[i + 1..] == xs[i + 1..];
  }

  lemma SumRemove<T>(xs: seq<T>, i: nat, w: T -> nat)
    requires i < |xs|
    ensures Sum(xs[..i] + xs[i + 1..], w) + w(xs[i]) == Sum(xs, w)
  {
    SumSplit(xs, i, w);
    SumConcat(xs[..i], xs[i + 1..], w);
  }

  lemma SumAtLeast<T>(xs: seq<T>, i: nat, w: T -> nat)
    requires i < |xs|
    ensures w(xs[i]) <= Sum(xs, w)
  {
    SumSplit(xs, i, w);
  }

  lemma SumAtLeastTwo<T>(xs: seq<T>, i: nat, j: nat, w: T -> nat)
    requires i < j < |xs|
    ensures w(xs[i]) + w(xs[j]) <= Sum(xs, w)
  {
    SumSplit(xs, j, w);
    SumAtLeast(xs[..j], i, w);
  }

  lemma {:induction false} SumPositive<T>(xs: seq<T>, w: T -> nat) returns (i: nat)
    requires Sum(xs, w) > 0
    ensures i < |xs| && w(xs[i]) > 0
  {
    if w(xs[0]) > 0 {
      i := 0;
    } else {
      var k := SumPositive(xs[1..], w);
      i := k + 1;
    }
  }

  lemma {:induction false} SumZero<T>(xs: seq<T>, w: T -> nat)
    requires forall i :: 0 <= i < |xs| ==> w(xs[i]) == 0
    ensures Sum(xs, w) == 0
  {
    if xs != [] {
      SumZero(xs[1..], w);
    }
  }

  lemma SumOne<T>(xs: seq<T>, i: nat, w: T -> nat)
    requires i < |xs| && w(xs[i]) == 1
    requires forall k :: 0 <= k < |xs| && k != i ==> w(xs[k]) == 0
    ensures Sum(xs, w) == 1
  {
    SumSplit(xs, i, w);
    SumZero(xs[..i], w);
    SumZero(xs[i + 1..], w);
  }
}
