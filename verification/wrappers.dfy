/** Optional values: stands in for TypeScript's `T | undefined`, `T | null`
    and the optional `?:` fields of the record types. */
module Wrappers {

  datatype Option<+T> = None | Some(value: T) {

    /** The value, or `default` when absent (TypeScript's `x || default`
        for values that are never falsy). */
    function GetOr(default: T): T {
      match this
      case Some(v) => v
      case None => default
    }
  }

  /** Applies `f` to every element, failing as soon as one element fails. */
  function MapAll<A, B>(f: A -> Option<B>, xs: seq<A>): Option<seq<B>>
    decreases |xs|
  {
    if |xs| == 0 then Some([])
    else
      match (f(xs[0]), MapAll(f, xs[1..]))
      case (Some(y), Some(ys)) => Some([y] + ys)
      case _ => None
  }

  /** When every element maps to the matching element of `ys`, the whole
      sequence maps to `ys`. */
  lemma {:induction false} MapAllSucceeds<A, B>(f: A -> Option<B>, xs: seq<A>, ys: seq<B>)
    requires |xs| == |ys|
    requires forall i :: 0 <= i < |xs| ==> f(xs[i]) == Some(ys[i])
    ensures MapAll(f, xs) == Some(ys)
    decreases |xs|
  {
    if |xs| > 0 {
      MapAllSucceeds(f, xs[1..], ys[1..]);
      assert ys == [ys[0]] + ys[1..];
    }
  }
}
