/**
 * `Array.prototype.filter`, shared by the components that keep some entries
 * of a list: the organizations allowing a type, the sharees of a new
 * collection and the collections an item row weighs.
 */
module Seqs {

  /** `xs.filter(keep)`: the elements of `xs` that satisfy `keep`, in their
      order in `xs`. */
  function Filtered<T(!new)>(xs: seq<T>, keep: T -> bool): (r: seq<T>)
    ensures |r| <= |xs|
    ensures forall x :: x in r <==> x in xs && keep(x)
  {
    if |xs| == 0 then []
    else
      var rest := Filtered(xs[1..], keep);
      assert forall x :: x in xs <==> x == xs[0] || x in xs[1..];
      if keep(xs[0]) then [xs[0]] + rest else rest
  }

  /** Each element that passes is kept as often as it occurs, and the
      others not at all. */
  lemma {:induction false} FilteredMultiplicity<T(!new)>(xs: seq<T>, keep: T -> bool)
    ensures forall x :: multiset(Filtered(xs, keep))[x] == if keep(x) then multiset(xs)[x] else 0
  {
    if |xs| > 0 {
      FilteredMultiplicity(xs[1..], keep);
      assert xs == [xs[0]] + xs[1..];
      assert multiset(xs) == multiset{xs[0]} + multiset(xs[1..]);
    }
  }

  /** Filtering works piece by piece: a list cut anywhere filters to the
      filtered pieces in the same order, and a single element is kept
      exactly when it passes. */
  lemma {:induction false} FilteredAppend<T(!new)>(xs: seq<T>, ys: seq<T>, keep: T -> bool)
    ensures Filtered(xs + ys, keep) == Filtered(xs, keep) + Filtered(ys, keep)
    ensures |xs| == 1 ==> Filtered(xs, keep) == if keep(xs[0]) then xs else []
  {
    var zs := xs + ys;
    if |xs| == 0 {
      assert zs == ys;
    } else {
      assert zs[0] == xs[0];
      assert zs[1..] == xs[1..] + ys;
      FilteredAppend(xs[1..], ys, keep);
      if |xs| == 1 {
        assert xs[1..] == [];
      }
    }
  }
}
