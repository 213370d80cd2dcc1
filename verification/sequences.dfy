/**
 Order-preserving selection over sequences: which positions a filter keeps,
 in the order a left-to-right loop meets them. Both extraction passes and the
 narration's text filter are instances of this one concept.
 */
module Sequences {

  /** `idx` lists, in strictly increasing order, exactly the positions of `xs`
      whose element satisfies `keep`. */
  ghost predicate IsPositionsOf<T>(xs: seq<T>, keep: T -> bool, idx: seq<nat>) {
    && (forall a, b :: 0 <= a < b < |idx| ==> idx[a] < idx[b])
    && (forall k :: 0 <= k < |idx| ==> idx[k] < |xs| && keep(xs[idx[k]]))
    && (forall j :: 0 <= j < |xs| && keep(xs[j]) ==> j in idx)
  }

  /** The set of positions of `xs` whose element satisfies `keep`. */
  function Selected<T>(xs: seq<T>, keep: T -> bool): set<nat> {
    set j: nat | j < |xs| && keep(xs[j])
  }

  /** The positions kept by a left-to-right filtering loop over `xs`. */
  function Positions<T>(xs: seq<T>, keep: T -> bool): (idx: seq<nat>)
    ensures IsPositionsOf(xs, keep, idx)
  {
    if xs == [] then []
    else
      var n := |xs| - 1;
      var before := Positions(xs[..n], keep);
      assert forall j :: 0 <= j < n ==> xs[..n][j] == xs[j];
      before + (if keep(xs[n]) then [n] else [])
  }

  /** Dropping the last element of `xs` drops at most the last kept position. */
  lemma PositionsOfPrefix<T>(xs: seq<T>, keep: T -> bool, idx: seq<nat>)
    requires xs != []
    requires IsPositionsOf(xs, keep, idx)
    ensures keep(xs[|xs| - 1]) ==>
              && idx != [] && idx[|idx| - 1] == |xs| - 1
              && IsPositionsOf(xs[..|xs| - 1], keep, idx[..|idx| - 1])
    ensures !keep(xs[|xs| - 1]) ==> IsPositionsOf(xs[..|xs| - 1], keep, idx)
  {
    var n := |xs| - 1;
    var ys := xs[..n];
    if keep(xs[n]) {
      assert n in idx;
      var a :| 0 <= a < |idx| && idx[a] == n;
      // the last kept position is in range, so no later one can follow `n`
      assert forall k :: 0 <= k < |idx| - 1 ==> idx[k] < idx[|idx| - 1];
      assert idx[|idx| - 1] <= n;
      assert a == |idx| - 1;
      var p := idx[..|idx| - 1];
      forall k | 0 <= k < |p|
        ensures p[k] < |ys| && keep(ys[p[k]])
      {
        assert idx[k] < idx[|idx| - 1];
      }
      forall j | 0 <= j < |ys| && keep(ys[j])
        ensures j in p
      {
        assert xs[j] == ys[j];
        var b :| 0 <= b < |idx| && idx[b] == j;
        assert b < |idx| - 1;
        assert p[b] == j;
      }
    } else {
      forall k | 0 <= k < |idx|
        ensures idx[k] < |ys| && keep(ys[idx[k]])
      {
        assert idx[k] != n;
      }
      forall j | 0 <= j < |ys| && keep(ys[j])
        ensures j in idx
      {
        assert xs[j] == ys[j];
      }
    }
  }

  /** A filter's positions are determined by the filter: there is only one
      increasing list of the kept positions. */
  lemma {:induction false} PositionsUnique<T>(xs: seq<T>, keep: T -> bool, idx1: seq<nat>, idx2: seq<nat>)
    requires IsPositionsOf(xs, keep, idx1)
    requires IsPositionsOf(xs, keep, idx2)
    ensures idx1 == idx2
  {
    if xs != [] {
      var n := |xs| - 1;
      PositionsOfPrefix(xs, keep, idx1);
      PositionsOfPrefix(xs, keep, idx2);
      if keep(xs[n]) {
        PositionsUnique(xs[..n], keep, idx1[..|idx1| - 1], idx2[..|idx2| - 1]);
        assert idx1 == idx1[..|idx1| - 1] + [n];
        assert idx2 == idx2[..|idx2| - 1] + [n];
      } else {
        PositionsUnique(xs[..n], keep, idx1, idx2);
      }
    }
  }

  /** A sequence is characterised by its filter positions: `Positions` returns
      `idx` exactly when `idx` lists the kept positions in order. */
  lemma PositionsCharacterized<T>(xs: seq<T>, keep: T -> bool, idx: seq<nat>)
    ensures Positions(xs, keep) == idx <==> IsPositionsOf(xs, keep, idx)
  {
    if IsPositionsOf(xs, keep, idx) {
      PositionsUnique(xs, keep, Positions(xs, keep), idx);
    }
  }

  /** The number of kept positions equals the number of elements the filter accepts. */
  lemma {:induction false} PositionsCount<T>(xs: seq<T>, keep: T -> bool)
    ensures |Positions(xs, keep)| == |Selected(xs, keep)|
  {
    if xs != [] {
      var n := |xs| - 1;
      PositionsCount(xs[..n], keep);
      var before := Selected(xs[..n], keep);
      var after := Selected(xs, keep);
      assert forall j :: j in before ==> j < n;
      if keep(xs[n]) {
        SelectedExtend(xs, keep);
        assert after == before + {n};
        assert |after| == |before| + 1;
      } else {
        SelectedExtend(xs, keep);
      }
    }
  }

  /** Extending `xs` by one element adds that element's position exactly when it is kept. */
  lemma SelectedExtend<T>(xs: seq<T>, keep: T -> bool)
    requires xs != []
    ensures keep(xs[|xs| - 1]) ==> Selected(xs, keep) == Selected(xs[..|xs| - 1], keep) + {|xs| - 1}
    ensures !keep(xs[|xs| - 1]) ==> Selected(xs, keep) == Selected(xs[..|xs| - 1], keep)
  {
    var n := |xs| - 1;
    var before := Selected(xs[..n], keep);
    var extra: set<nat> := if keep(xs[n]) then {n} else {};
    forall j: nat
      ensures j in Selected(xs, keep) <==> j in before + extra
    {
      if j < n {
        assert xs[..n][j] == xs[j];
      }
    }
    assert Selected(xs, keep) == before + extra;
  }
}
