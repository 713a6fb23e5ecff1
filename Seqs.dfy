/**
 * The "filter, then project" pattern that the collector uses twice: once to
 * turn a page's table rows into records (only the data rows are read), and
 * once to pick the records that are kept.
 */
module Seqs {

  /** `[read(x) for x in xs if keep(x)]`. */
  function KeepMap<T, U>(xs: seq<T>, keep: T -> bool, read: T -> U): (ys: seq<U>)
    ensures |ys| <= |xs|
  {
    if xs == [] then []
    else
      var last := xs[|xs| - 1];
      KeepMap(xs[..|xs| - 1], keep, read) + (if keep(last) then [read(last)] else [])
  }

  /** The positions of the elements of `xs` that satisfy `keep`, in increasing order. */
  function KeptIndices<T>(xs: seq<T>, keep: T -> bool): (ix: seq<nat>)
    ensures forall k :: 0 <= k < |ix| ==> ix[k] < |xs| && keep(xs[ix[k]])
    ensures forall k, l :: 0 <= k < l < |ix| ==> ix[k] < ix[l]
    ensures forall i :: 0 <= i < |xs| && keep(xs[i]) ==> i in ix
  {
    if xs == [] then []
    else
      var n := |xs| - 1;
      var front := KeptIndices(xs[..n], keep);
      assert forall k :: 0 <= k < |front| ==> xs[front[k]] == xs[..n][front[k]];
      assert forall i :: 0 <= i < n ==> xs[i] == xs[..n][i];
      front + (if keep(xs[n]) then [n] else [])
  }

  /**
   * `KeepMap` reads exactly the elements that satisfy `keep`, in their order:
   * its `k`-th result comes from the `k`-th such element.
   */
  lemma {:induction false} KeepMapInOrder<T, U>(xs: seq<T>, keep: T -> bool, read: T -> U)
    ensures |KeepMap(xs, keep, read)| == |KeptIndices(xs, keep)|
    ensures forall k :: 0 <= k < |KeptIndices(xs, keep)| ==>
      KeepMap(xs, keep, read)[k] == read(xs[KeptIndices(xs, keep)[k]])
  {
    if xs != [] {
      var n := |xs| - 1;
      KeepMapInOrder(xs[..n], keep, read);
      var front, ix := KeepMap(xs[..n], keep, read), KeptIndices(xs[..n], keep);
      var tail := if keep(xs[n]) then [read(xs[n])] else [];
      assert KeepMap(xs, keep, read) == front + tail;
      assert KeptIndices(xs, keep) == ix + (if keep(xs[n]) then [n] else []);
      forall k | 0 <= k < |ix|
        ensures KeepMap(xs, keep, read)[k] == read(xs[KeptIndices(xs, keep)[k]])
      {
        assert xs[ix[k]] == xs[..n][ix[k]];
      }
    }
  }

  /** A value is in the result exactly when it is read from some element that satisfies `keep`. */
  lemma {:induction false} KeepMapMembers<T, U>(xs: seq<T>, keep: T -> bool, read: T -> U, y: U)
    ensures y in KeepMap(xs, keep, read) <==> exists i :: 0 <= i < |xs| && keep(xs[i]) && y == read(xs[i])
  {
    if xs != [] {
      var n := |xs| - 1;
      KeepMapMembers(xs[..n], keep, read, y);
      var tail := if keep(xs[n]) then [read(xs[n])] else [];
      assert KeepMap(xs, keep, read) == KeepMap(xs[..n], keep, read) + tail;
      assert y in KeepMap(xs, keep, read) <==> y in KeepMap(xs[..n], keep, read) || y in tail;
      if exists i :: 0 <= i < |xs| && keep(xs[i]) && y == read(xs[i]) {
        var i :| 0 <= i < |xs| && keep(xs[i]) && y == read(xs[i]);
        if i < n {
          assert xs[..n][i] == xs[i];
        }
      } else {
        forall i | 0 <= i < n
          ensures !(keep(xs[..n][i]) && y == read(xs[..n][i]))
        {
          assert xs[..n][i] == xs[i];
        }
      }
    }
  }

  /** When no element satisfies `keep`, nothing is read. */
  lemma {:induction false} KeepMapNone<T, U>(xs: seq<T>, keep: T -> bool, read: T -> U)
    requires forall i :: 0 <= i < |xs| ==> !keep(xs[i])
    ensures KeepMap(xs, keep, read) == []
  {
    if xs != [] {
      var n := |xs| - 1;
      assert forall i :: 0 <= i < n ==> xs[..n][i] == xs[i];
      KeepMapNone(xs[..n], keep, read);
    }
  }

  /** Filtering and projecting a concatenation is concatenating the two results. */
  lemma {:induction false} KeepMapAppend<T, U>(xs: seq<T>, ys: seq<T>, keep: T -> bool, read: T -> U)
    ensures KeepMap(xs + ys, keep, read) == KeepMap(xs, keep, read) + KeepMap(ys, keep, read)
    decreases |ys|
  {
    if ys != [] {
      var n := |ys| - 1;
      assert (xs + ys)[..|xs + ys| - 1] == xs + ys[..n];
      KeepMapAppend(xs, ys[..n], keep, read);
    } else {
      assert xs + ys == xs;
    }
  }

}
