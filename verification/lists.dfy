/** Positions in a sequence, shared by the rule lists. */
module Lists {

  /** The positions of the elements `keep` accepts, in ascending order:
      the reference for which elements a filter keeps and in what order. */
  function Positions<T>(xs: seq<T>, keep: T -> bool): (idx: seq<nat>)
    ensures forall k :: 0 <= k < |idx| ==> idx[k] < |xs| && keep(xs[idx[k]])
    ensures forall k, l :: 0 <= k < l < |idx| ==> idx[k] < idx[l]
    ensures forall i :: 0 <= i < |xs| && keep(xs[i]) ==> i in idx
  {
    if xs == [] then []
    else
      var n := |xs| - 1;
      var init := Positions(xs[..n], keep);
      if keep(xs[n]) then init + [n] else init
  }
}
