/**
  The per-frame distance of the distance engine (`mahalanobis`): a squared
  Euclidean distance in which every coordinate is weighted by the inverse of
  its variance (a diagonal Mahalanobis distance).
*/
module LocalDistance {

  /** `v2` and `sigma2` cover every coordinate of `v1`, and no variance that is used is zero. */
  predicate Comparable(v1: seq<real>, v2: seq<real>, sigma2: seq<real>) {
    |v1| <= |v2| && |v1| <= |sigma2| && forall i :: 0 <= i < |v1| ==> sigma2[i] != 0.0
  }

  /** The sum over the first `n` coordinates of (v1[i] - v2[i])^2 / sigma2[i]. */
  function WeightedSqDist(v1: seq<real>, v2: seq<real>, sigma2: seq<real>, n: nat): real
    requires n <= |v1| && Comparable(v1, v2, sigma2)
  {
    if n == 0 then 0.0
    else WeightedSqDist(v1, v2, sigma2, n - 1) + Term(v1[n - 1], v2[n - 1], sigma2[n - 1])
  }

  function Term(x: real, y: real, s: real): real
    requires s != 0.0
  {
    (x - y) * (x - y) / s
  }

  /** The distance over all coordinates of `v1` (the loop runs to `v1.length`). */
  function Distance(v1: seq<real>, v2: seq<real>, sigma2: seq<real>): real
    requires Comparable(v1, v2, sigma2)
  {
    WeightedSqDist(v1, v2, sigma2, |v1|)
  }

  /** The accumulation loop of `mahalanobis`. */
  method Mahalanobis(v1: seq<real>, v2: seq<real>, sigma2: seq<real>) returns (sum: real)
    requires Comparable(v1, v2, sigma2)
    ensures sum == Distance(v1, v2, sigma2)
  {
    sum := 0.0;
    var diff := 0.0;
    for i := 0 to |v1|
      invariant sum == WeightedSqDist(v1, v2, sigma2, i)
    {
      diff := v1[i] - v2[i];
      sum := sum + (diff * diff) / sigma2[i];
    }
  }

  lemma TermNonNegative(x: real, y: real, s: real)
    requires s > 0.0
    ensures Term(x, y, s) >= 0.0
  {
    var dd := (x - y) * (x - y);
    assert dd >= 0.0 by {
      if x - y < 0.0 { assert dd == (y - x) * (y - x); }
    }
  }

  /** With every used variance positive, the distance is never negative. */
  lemma {:induction false} NonNegative(v1: seq<real>, v2: seq<real>, sigma2: seq<real>, n: nat)
    requires n <= |v1| && Comparable(v1, v2, sigma2)
    requires forall i :: 0 <= i < |v1| ==> sigma2[i] > 0.0
    ensures WeightedSqDist(v1, v2, sigma2, n) >= 0.0
  {
    if n > 0 {
      NonNegative(v1, v2, sigma2, n - 1);
      TermNonNegative(v1[n - 1], v2[n - 1], sigma2[n - 1]);
    }
  }

  /** Swapping the two vectors does not change the distance. */
  lemma {:induction false} Symmetric(v1: seq<real>, v2: seq<real>, sigma2: seq<real>, n: nat)
    requires n <= |v1| && Comparable(v1, v2, sigma2) && Comparable(v2, v1, sigma2)
    ensures WeightedSqDist(v1, v2, sigma2, n) == WeightedSqDist(v2, v1, sigma2, n)
  {
    if n > 0 {
      Symmetric(v1, v2, sigma2, n - 1);
      var x, y := v1[n - 1], v2[n - 1];
      assert (x - y) * (x - y) == (y - x) * (y - x);
    }
  }

  /** A vector is at distance zero from itself. */
  lemma {:induction false} ZeroOnEqual(v: seq<real>, sigma2: seq<real>, n: nat)
    requires n <= |v| && Comparable(v, v, sigma2)
    ensures WeightedSqDist(v, v, sigma2, n) == 0.0
  {
    if n > 0 {
      ZeroOnEqual(v, sigma2, n - 1);
    }
  }
}
