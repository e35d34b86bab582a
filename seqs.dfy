/**
 * `Array.prototype.filter` on a sequence, and the facts about it that the
 * deal-link filter relies on: membership, order, multiplicity and the
 * positions of the kept elements.
 */
module Seqs {

  /** `xs.filter(p)`: the elements satisfying `p`, in their original order. */
  function Filter<T(!new)>(xs: seq<T>, p: T -> bool): (r: seq<T>)
    ensures |r| <= |xs|
    ensures forall x :: x in r <==> x in xs && p(x)
  {
    if xs == [] then []
    else (if p(xs[0]) then [xs[0]] else []) + Filter(xs[1..], p)
  }

  /** Filtering distributes over concatenation. */
  lemma {:induction false} FilterAppend<T(!new)>(xs: seq<T>, ys: seq<T>, p: T -> bool)
    ensures Filter(xs + ys, p) == Filter(xs, p) + Filter(ys, p)
    decreases |xs|
  {
    if xs == [] {
      assert xs + ys == ys;
    } else {
      assert (xs + ys)[1..] == xs[1..] + ys;
      FilterAppend(xs[1..], ys, p);
    }
  }

  /** Filtering keeps every occurrence of a passing element and none of a
      failing one. */
  lemma {:induction false} FilterMultiplicity<T(!new)>(xs: seq<T>, p: T -> bool, x: T)
    ensures multiset(Filter(xs, p))[x] == if p(x) then multiset(xs)[x] else 0
    decreases |xs|
  {
    if xs != [] {
      FilterMultiplicity(xs[1..], p, x);
      assert xs == [xs[0]] + xs[1..];
    }
  }

  /** The positions, counted from `offset`, of the elements satisfying `p`. */
  function PositionsFrom<T>(xs: seq<T>, p: T -> bool, offset: nat): seq<nat>
    decreases |xs|
  {
    if xs == [] then []
    else (if p(xs[0]) then [offset] else []) + PositionsFrom(xs[1..], p, offset + 1)
  }

  /** The positions of the elements satisfying `p`. */
  function Positions<T>(xs: seq<T>, p: T -> bool): seq<nat> {
    PositionsFrom(xs, p, 0)
  }

  /** Strictly increasing positions. */
  predicate Increasing(ix: seq<nat>) {
    forall k, l :: 0 <= k < l < |ix| ==> ix[k] < ix[l]
  }

  /** One position per kept element. */
  lemma {:induction false} PositionsFromLength<T(!new)>(xs: seq<T>, p: T -> bool, offset: nat)
    ensures |PositionsFrom(xs, p, offset)| == |Filter(xs, p)|
    decreases |xs|
  {
    if xs != [] {
      PositionsFromLength(xs[1..], p, offset + 1);
    }
  }

  /** The k-th position, counted from `offset`, holds the k-th kept
      element. */
  lemma {:induction false} PositionsFromPick<T(!new)>(xs: seq<T>, p: T -> bool, offset: nat)
    ensures |PositionsFrom(xs, p, offset)| == |Filter(xs, p)|
    ensures forall k :: 0 <= k < |PositionsFrom(xs, p, offset)| ==>
              offset <= PositionsFrom(xs, p, offset)[k] < offset + |xs|
              && Filter(xs, p)[k] == xs[PositionsFrom(xs, p, offset)[k] - offset]
    decreases |xs|
  {
    PositionsFromLength(xs, p, offset);
    if xs != [] {
      var tail := xs[1..];
      PositionsFromPick(tail, p, offset + 1);
      var ix := PositionsFrom(xs, p, offset);
      var tix := PositionsFrom(tail, p, offset + 1);
      var head := if p(xs[0]) then [offset] else [];
      var f := Filter(xs, p);
      var tf := Filter(tail, p);
      assert ix == head + tix;
      assert f == (if p(xs[0]) then [xs[0]] else []) + tf;
      forall k | 0 <= k < |ix|
        ensures offset <= ix[k] < offset + |xs| && f[k] == xs[ix[k] - offset]
      {
        if k >= |head| {
          assert ix[k] == tix[k - |head|] && f[k] == tf[k - |head|];
          assert xs[ix[k] - offset] == tail[ix[k] - (offset + 1)];
        }
      }
    }
  }

  /** Positions lie in `[offset, offset + |xs|)` and strictly increase. */
  lemma {:induction false} PositionsFromIncreasing<T>(xs: seq<T>, p: T -> bool, offset: nat)
    ensures forall k :: 0 <= k < |PositionsFrom(xs, p, offset)| ==>
              offset <= PositionsFrom(xs, p, offset)[k] < offset + |xs|
    ensures Increasing(PositionsFrom(xs, p, offset))
    decreases |xs|
  {
    if xs != [] {
      var tail := xs[1..];
      PositionsFromIncreasing(tail, p, offset + 1);
      var ix := PositionsFrom(xs, p, offset);
      var tix := PositionsFrom(tail, p, offset + 1);
      var head := if p(xs[0]) then [offset] else [];
      assert ix == head + tix;
      forall k | 0 <= k < |ix| ensures offset <= ix[k] < offset + |xs| {
        if k >= |head| {
          assert ix[k] == tix[k - |head|];
        }
      }
      forall k, l | 0 <= k < l < |ix| ensures ix[k] < ix[l] {
        if k >= |head| {
          assert ix[k] == tix[k - |head|] && ix[l] == tix[l - |head|];
        } else {
          assert ix[l] == tix[l - 1];
        }
      }
    }
  }

  /** A position is listed exactly when its element passes. */
  lemma {:induction false} PositionsFromMember<T>(xs: seq<T>, p: T -> bool, offset: nat)
    ensures forall i :: offset <= i < offset + |xs| ==>
              (i in PositionsFrom(xs, p, offset) <==> p(xs[i - offset]))
    decreases |xs|
  {
    if xs != [] {
      var tail := xs[1..];
      PositionsFromMember(tail, p, offset + 1);
      PositionsFromIncreasing(tail, p, offset + 1);
      var ix := PositionsFrom(xs, p, offset);
      var tix := PositionsFrom(tail, p, offset + 1);
      var head := if p(xs[0]) then [offset] else [];
      assert ix == head + tix;
      forall i | offset <= i < offset + |xs|
        ensures i in ix <==> p(xs[i - offset])
      {
        if i > offset {
          assert xs[i - offset] == tail[i - (offset + 1)];
          assert i in ix <==> i in tix;
        } else {
          assert offset !in tix;
        }
      }
    }
  }

  /** The filtered sequence is an order-preserving subsequence: its k-th
      element is the one at the k-th passing position, positions strictly
      increase, and a position is listed exactly when its element passes. */
  lemma FilterSubsequence<T(!new)>(xs: seq<T>, p: T -> bool)
    ensures |Positions(xs, p)| == |Filter(xs, p)|
    ensures forall k :: 0 <= k < |Positions(xs, p)| ==>
              Positions(xs, p)[k] < |xs| && Filter(xs, p)[k] == xs[Positions(xs, p)[k]]
    ensures Increasing(Positions(xs, p))
    ensures forall i :: 0 <= i < |xs| ==> (i in Positions(xs, p) <==> p(xs[i]))
  {
    var ix := Positions(xs, p);
    assert ix == PositionsFrom(xs, p, 0);
    PositionsFromPick(xs, p, 0);
    PositionsFromIncreasing(xs, p, 0);
    PositionsFromMember(xs, p, 0);
    assert forall i :: 0 <= i < |xs| ==> xs[i - 0] == xs[i];
  }

  /** When every element passes, filtering changes nothing. */
  lemma {:induction false} FilterAllPass<T(!new)>(xs: seq<T>, p: T -> bool)
    requires forall k :: 0 <= k < |xs| ==> p(xs[k])
    ensures Filter(xs, p) == xs
    decreases |xs|
  {
    if xs != [] {
      FilterAllPass(xs[1..], p);
      assert xs == [xs[0]] + xs[1..];
    }
  }

  /** `xs.map((x, index) => f(x, index))`. */
  function MapIndexed<T, U>(xs: seq<T>, f: (T, nat) -> U): (r: seq<U>)
    ensures |r| == |xs|
    ensures forall i :: 0 <= i < |xs| ==> r[i] == f(xs[i], i)
  {
    seq(|xs|, i requires 0 <= i < |xs| => f(xs[i], i))
  }

  lemma MapIndexedSingle<T, U>(x: T, f: (T, nat) -> U)
    ensures MapIndexed([x], f) == [f(x, 0)]
  {
  }

  lemma MapIndexedPair<T, U>(x: T, y: T, f: (T, nat) -> U)
    ensures MapIndexed([x, y], f) == [f(x, 0), f(y, 1)]
  {
  }
}
