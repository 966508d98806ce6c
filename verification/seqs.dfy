/** Keeping the results of a partial function over a sequence, in order: the
    shape of a Python generator that yields at most once per input item. */
module Seqs {
  import opened Wrappers

  /** The `Some` results of `f` over `xs`, in the order of `xs`. */
  function FilterMap<A, B>(xs: seq<A>, f: A -> Option<B>): (ys: seq<B>)
    ensures |ys| <= |xs|
  {
    if |xs| == 0 then []
    else
      FilterMap(xs[..|xs| - 1], f)
      + match f(xs[|xs| - 1]) case Some(y) => [y] case None => []
  }

  /** The positions of the items of `xs` on which `f` succeeds, in increasing order. */
  function Hits<A, B>(xs: seq<A>, f: A -> Option<B>): (idx: seq<nat>)
    ensures forall k :: 0 <= k < |idx| ==> idx[k] < |xs| && f(xs[idx[k]]).Some?
    ensures forall k, l :: 0 <= k < l < |idx| ==> idx[k] < idx[l]
    ensures forall i :: 0 <= i < |xs| && f(xs[i]).Some? ==> i in idx
  {
    if |xs| == 0 then []
    else
      var n := |xs| - 1;
      var init := xs[..n];
      var prev := Hits(init, f);
      assert forall i :: 0 <= i < n ==> init[i] == xs[i];
      prev + if f(xs[n]).Some? then [n] else []
  }

  /** The k-th kept result is the result on the k-th position where `f`
      succeeds: one result per success, none for any failure, in order. */
  lemma {:induction false} FilterMapFollowsHits<A, B>(xs: seq<A>, f: A -> Option<B>)
    ensures |FilterMap(xs, f)| == |Hits(xs, f)|
    ensures forall k :: 0 <= k < |Hits(xs, f)| ==> f(xs[Hits(xs, f)[k]]) == Some(FilterMap(xs, f)[k])
  {
    if |xs| > 0 {
      var n := |xs| - 1;
      var init := xs[..n];
      FilterMapFollowsHits(init, f);
      var ys := FilterMap(init, f);
      var hs := Hits(init, f);
      forall k | 0 <= k < |hs|
        ensures f(xs[hs[k]]) == Some(ys[k])
      {
        assert init[hs[k]] == xs[hs[k]];
      }
      match f(xs[n])
      case Some(y) =>
        assert FilterMap(xs, f) == ys + [y];
        assert Hits(xs, f) == hs + [n];
      case None =>
        assert FilterMap(xs, f) == ys;
        assert Hits(xs, f) == hs;
    }
  }

  /** Appending one item adds its position to the hits exactly when `f` succeeds on it. */
  lemma HitsSnoc<A, B>(xs: seq<A>, x: A, f: A -> Option<B>)
    ensures Hits(xs + [x], f) == Hits(xs, f) + if f(x).Some? then [|xs|] else []
  {
    assert (xs + [x])[..|xs|] == xs;
  }
}
