// Sums of reals.
module RealSums {

  function SumR(xs: seq<real>): real {
    if xs == [] then 0.0 else SumR(xs[..|xs| - 1]) + xs[|xs| - 1]
  }

  lemma {:induction false} SumAppendR(xs: seq<real>, ys: seq<real>)
    ensures SumR(xs + ys) == SumR(xs) + SumR(ys)
  {
    if ys == [] {
      assert xs + ys == xs;
    } else {
      var init := ys[..|ys| - 1];
      SumAppendR(xs, init);
      assert (xs + ys)[..|xs + ys| - 1] == xs + init;
    }
  }

  lemma SumNextR(xs: seq<real>, k: nat)
    requires k < |xs|
    ensures xs[..k + 1] == xs[..k] + [xs[k]] && SumR(xs[..k + 1]) == SumR(xs[..k]) + xs[k]
  {
    assert xs[..k + 1][..k] == xs[..k];
  }

  lemma {:induction false} SumPositive(xs: seq<real>)
    requires forall i :: 0 <= i < |xs| ==> xs[i] > 0.0
    ensures SumR(xs) >= 0.0 && (xs != [] ==> SumR(xs) > 0.0)
  {
    if xs != [] { SumPositive(xs[..|xs| - 1]); }
  }

  lemma {:induction false} SumOfEqual(xs: seq<real>, x: real)
    requires forall i :: 0 <= i < |xs| ==> xs[i] == x
    ensures SumR(xs) == |xs| as real * x
  {
    if xs != [] { SumOfEqual(xs[..|xs| - 1], x); }
  }
}
