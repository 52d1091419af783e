/** Option and Result values, and the first-failure traversal that Python's
    exception propagation gives to a lazily consumed `map`. */
module Wrappers {

  datatype Option<+T> = None | Some(value: T)

  datatype Result<+T, +E> = Ok(value: T) | Err(error: E)

  /** Applies `f` to the elements of `xs` from left to right and stops at the
      first failure, as `list(map(f, xs))` does when `f` raises: either every
      element succeeds and all results are kept in order, or the error of the
      first failing element is returned and nothing else. */
  function TryMap<A, B, E>(f: A -> Result<B, E>, xs: seq<A>): (r: Result<seq<B>, E>)
    ensures r.Ok? <==> forall k :: 0 <= k < |xs| ==> f(xs[k]).Ok?
    ensures r.Ok? ==> |r.value| == |xs| && forall k :: 0 <= k < |xs| ==> f(xs[k]) == Ok(r.value[k])
    ensures r.Err? ==>
      exists k :: 0 <= k < |xs| && f(xs[k]) == Err(r.error) && forall j :: 0 <= j < k ==> f(xs[j]).Ok?
  {
    if |xs| == 0 then Ok([])
    else
      match f(xs[0])
      case Err(e) => Err(e)
      case Ok(y) =>
        match TryMap(f, xs[1..])
        case Err(e) =>
          assert forall k :: 1 <= k < |xs| ==> xs[1..][k - 1] == xs[k];
          Err(e)
        case Ok(ys) =>
          assert forall k :: 1 <= k < |xs| ==> xs[1..][k - 1] == xs[k];
          Ok([y] + ys)
  }

  /** When every element succeeds, the traversal returns exactly the results. */
  lemma TryMapAllOk<A, B, E>(f: A -> Result<B, E>, xs: seq<A>, ys: seq<B>)
    requires |xs| == |ys|
    requires forall k :: 0 <= k < |xs| ==> f(xs[k]) == Ok(ys[k])
    ensures TryMap(f, xs) == Ok(ys)
  {
    var r := TryMap(f, xs);
    assert r.Ok?;
    forall k | 0 <= k < |xs| ensures r.value[k] == ys[k] {
      assert f(xs[k]) == Ok(r.value[k]);
    }
    assert |r.value| == |ys|;
    assert r.value == ys;
  }
}
