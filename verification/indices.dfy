/** Increasing index sequences: which elements of a sequence an operation picks, in order. */
module Indices {

  /** The indices are strictly increasing, so they are distinct and in order. */
  predicate Increasing(xs: seq<nat>) {
    forall j, k :: 0 <= j < k < |xs| ==> xs[j] < xs[k]
  }

  /** Every index moved up by `d`. */
  function Shift(xs: seq<nat>, d: nat): (r: seq<nat>)
    ensures |r| == |xs| && forall k :: 0 <= k < |xs| ==> r[k] == xs[k] + d
  {
    seq(|xs|, k requires 0 <= k < |xs| => xs[k] + d)
  }

  /** An index is in the shifted sequence exactly when it is `d` or more and moved up from `xs`. */
  lemma ShiftMembers(xs: seq<nat>, d: nat)
    ensures forall y :: y in Shift(xs, d) <==> y >= d && y - d in xs
  {
    forall y | y >= d && y - d in xs
      ensures y in Shift(xs, d)
    {
      var k :| 0 <= k < |xs| && xs[k] == y - d;
      assert Shift(xs, d)[k] == y;
    }
  }
}
