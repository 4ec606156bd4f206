/** Applying a function to every element of a sequence, the shape of the
    loops that collect one result per input point (kNearest.py:29-36 and
    kNearest.py:134-139). */
module Mapping {

  /** `f` applied to each element of `xs`, in order. */
  function Map<A, B>(f: A --> B, xs: seq<A>): (r: seq<B>)
    requires forall i :: 0 <= i < |xs| ==> f.requires(xs[i])
    ensures |r| == |xs|
    ensures forall i :: 0 <= i < |xs| ==> r[i] == f(xs[i])
  {
    if xs == [] then []
    else
      var n := |xs| - 1;
      assert forall i :: 0 <= i < n ==> xs[..n][i] == xs[i];
      Map(f, xs[..n]) + [f(xs[n])]
  }

  /** One more element of `xs` adds one more result at the end. */
  lemma MapSnoc<A, B>(f: A --> B, xs: seq<A>, i: int)
    requires 0 <= i < |xs|
    requires forall j :: 0 <= j < |xs| ==> f.requires(xs[j])
    ensures Map(f, xs[..i + 1]) == Map(f, xs[..i]) + [f(xs[i])]
  {
    assert xs[..i + 1][..i] == xs[..i];
  }
}
