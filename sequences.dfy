/** The values present in a sequence of optional values, in order: the
    events a loop over records leaves in the queue are those of the records
    that parse. */
module Sequences {
  import opened Wrappers

  /** The value of `o`, if it has one, as a sequence. */
  function Present<T>(o: Option<T>): (r: seq<T>)
    ensures |r| <= 1
    ensures r == [] <==> o.None?
  {
    match o
    case None => []
    case Some(x) => [x]
  }

  /** The present values, in order. */
  function Somes<T>(xs: seq<Option<T>>): (r: seq<T>)
    ensures |r| <= |xs|
    decreases |xs|
  {
    if |xs| == 0 then []
    else
      var n := |xs| - 1;
      Somes(xs[..n]) + Present(xs[n])
  }

  lemma SomesSnoc<T>(xs: seq<Option<T>>, x: Option<T>)
    ensures Somes(xs + [x]) == Somes(xs) + Present(x)
  {
    assert (xs + [x])[..|xs|] == xs;
  }

  /** Every entry is None. */
  predicate AllNone<T>(xs: seq<Option<T>>) {
    forall k :: 0 <= k < |xs| ==> xs[k].None?
  }

  lemma AllNoneInit<T>(xs: seq<Option<T>>)
    requires 0 < |xs|
    ensures AllNone(xs) <==> AllNone(xs[..|xs| - 1]) && xs[|xs| - 1].None?
  {
    assert forall k :: 0 <= k < |xs| - 1 ==> xs[..|xs| - 1][k] == xs[k];
  }

  /** Nothing is present exactly when every entry is None. */
  lemma {:induction false} SomesEmpty<T>(xs: seq<Option<T>>)
    ensures Somes(xs) == [] <==> AllNone(xs)
    decreases |xs|
  {
    if |xs| > 0 {
      SomesEmpty(xs[..|xs| - 1]);
      AllNoneInit(xs);
    }
  }

  /** `outcomes` hold `f` of the first |outcomes| entries of `xs`. Stated
      over a function value, so that extending the agreement by one entry
      is proved once for every `f`. */
  ghost predicate Follows<A, B>(f: A -> B, xs: seq<A>, outcomes: seq<B>) {
    |outcomes| <= |xs| &&
    forall k {:trigger f(xs[k])} :: 0 <= k < |outcomes| ==> outcomes[k] == f(xs[k])
  }

  lemma FollowsSnoc<A, B>(f: A -> B, xs: seq<A>, outcomes: seq<B>, outcome: B)
    requires Follows(f, xs, outcomes) && |outcomes| < |xs|
    requires outcome == f(xs[|outcomes|])
    ensures Follows(f, xs, outcomes + [outcome])
  {
  }

  /** The same over pairs `(xs[k], ys[k])`. */
  ghost predicate FollowsPairs<A, B, C>(f: (A, B) -> C, xs: seq<A>, ys: seq<B>, outcomes: seq<C>)
    requires |ys| == |xs|
  {
    |outcomes| <= |xs| &&
    forall k {:trigger f(xs[k], ys[k])} :: 0 <= k < |outcomes| ==> outcomes[k] == f(xs[k], ys[k])
  }

  lemma FollowsPairsSnoc<A, B, C>(f: (A, B) -> C, xs: seq<A>, ys: seq<B>, outcomes: seq<C>, outcome: C)
    requires |ys| == |xs| && FollowsPairs(f, xs, ys, outcomes) && |outcomes| < |xs|
    requires outcome == f(xs[|outcomes|], ys[|outcomes|])
    ensures FollowsPairs(f, xs, ys, outcomes + [outcome])
  {
  }
}
