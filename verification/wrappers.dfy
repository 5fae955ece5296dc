/** The optional value used for Python's None. */
module Wrappers {

  datatype Option<+T> = None | Some(value: T)

  function Max(a: int, b: int): int {
    if a >= b then a else b
  }

  function Min(a: int, b: int): int {
    if a < b then a else b
  }

  /** The positions of the elements with a property, in order. */
  function Positions<T>(xs: seq<T>, p: T -> bool): (ps: seq<nat>)
    ensures forall k :: 0 <= k < |ps| ==> ps[k] < |xs| && p(xs[ps[k]])
    ensures forall k, l :: 0 <= k < l < |ps| ==> ps[k] < ps[l]
    ensures forall i :: 0 <= i < |xs| && p(xs[i]) ==> i in ps
  {
    if xs == [] then []
    else
      var n := |xs| - 1;
      assert forall i :: 0 <= i < n ==> xs[..n][i] == xs[i];
      Positions(xs[..n], p) + if p(xs[n]) then [n] else []
  }
}
