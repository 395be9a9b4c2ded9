/** Optional values: a DOM lookup that may find nothing, a storage key that may be unset. */
module Wrappers {

  datatype Option<+T> = None | Some(value: T)

  /** The position of the last element of `xs` satisfying `p`: what a `forEach` that
      keeps overwriting a variable on every match leaves behind. */
  function LastWhere<T>(xs: seq<T>, p: T -> bool): (r: Option<nat>)
    ensures r.Some? ==> r.value < |xs| && p(xs[r.value])
    ensures r.Some? ==> forall j :: r.value < j < |xs| ==> !p(xs[j])
    ensures r.None? ==> forall j :: 0 <= j < |xs| ==> !p(xs[j])
  {
    if xs == [] then None
    else if p(xs[|xs| - 1]) then Some(|xs| - 1)
    else LastWhere(xs[..|xs| - 1], p)
  }
}
