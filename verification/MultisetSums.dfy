/** Sums of multisets over sequences. */
module MultisetSums {
  function Sum<X>(xs: seq<X>, f: X -> multiset<nat>): multiset<nat> {
    if xs == [] then multiset{} else f(xs[0]) + Sum(xs[1..], f)
  }

  lemma {:induction false} SumConcat<X>(a: seq<X>, b: seq<X>, f: X -> multiset<nat>)
    ensures Sum(a + b, f) == Sum(a, f) + Sum(b, f)
  {
    if a == [] {
      assert a + b == b;
    } else {
      SumConcat(a[1..], b, f);
      assert (a + b)[1..] == a[1..] + b;
    }
  }

  lemma SumPrepend<X>(x: X, xs: seq<X>, f: X -> multiset<nat>)
    ensures Sum([x] + xs, f) == f(x) + Sum(xs, f)
  {
    assert ([x] + xs)[1..] == xs;
  }

  lemma SumAppend<X>(xs: seq<X>, x: X, f: X -> multiset<nat>)
    ensures Sum(xs + [x], f) == Sum(xs, f) + f(x)
  {
    SumConcat(xs, [x], f);
    assert [x][1..] == [];
  }

  /** Replacing one element exchanges its part of the sum. */
  lemma SumUpdate<X>(xs: seq<X>, i: nat, x: X, f: X -> multiset<nat>)
    requires i < |xs|
    ensures forall id :: Sum(xs[i := x], f)[id] + f(xs[i])[id] == Sum(xs, f)[id] + f(x)[id]
  {
    assert xs == xs[..i] + ([xs[i]] + xs[i + 1..]);
    assert xs[i := x] == xs[..i] + ([x] + xs[i + 1..]);
    SumConcat(xs[..i], [xs[i]] + xs[i + 1..], f);
    SumConcat(xs[..i], [x] + xs[i + 1..], f);
    SumPrepend(xs[i], xs[i + 1..], f);
    SumPrepend(x, xs[i + 1..], f);
  }
}
