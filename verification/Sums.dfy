/** Sums of real numbers. */
module Sums {
  function Sum(xs: seq<real>): real {
    if xs == [] then 0.0 else Sum(xs[..|xs| - 1]) + xs[|xs| - 1]
  }

  lemma SumMore(xs: seq<real>, x: real)
    ensures Sum(xs + [x]) == Sum(xs) + x
  {
    assert (xs + [x])[..|xs|] == xs;
  }

  /** The sum lies between the smallest and the largest number, times how many there are. */
  lemma {:induction false} SumIsBounded(xs: seq<real>, low: real, high: real)
    requires forall i :: 0 <= i < |xs| ==> low <= xs[i] <= high
    ensures low * |xs| as real <= Sum(xs) <= high * |xs| as real
  {
    if xs != [] {
      SumIsBounded(xs[..|xs| - 1], low, high);
      var n := (|xs| - 1) as real;
      assert low * |xs| as real == low * n + low && high * |xs| as real == high * n + high;
    }
  }
}
