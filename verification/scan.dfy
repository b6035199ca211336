/**
  The `foreach (...) { if (...) { ...; break; } }` idiom of the rule classes:
  the first element of a sequence that satisfies a test.
*/
module Scan {
  import opened Optional

  /** The index of the first element of `xs` satisfying `p`, or None when there is none. */
  function FindFirst<T>(xs: seq<T>, p: T -> bool): (r: Option<nat>)
    ensures r.Some? ==> r.value < |xs| && p(xs[r.value])
    ensures r.Some? ==> forall j :: 0 <= j < r.value ==> !p(xs[j])
    ensures r.None? <==> forall j :: 0 <= j < |xs| ==> !p(xs[j])
    decreases |xs|
  {
    if |xs| == 0 then None
    else if p(xs[0]) then Some(0)
    else
      match FindFirst(xs[1..], p)
      case None => None
      case Some(i) => Some(i + 1)
  }
}
