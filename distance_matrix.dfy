/**
  The unit distance matrix of one leaf (second half of `buildAndDumpDistanceTables`).
  For every unit i the diagonal cell is first set to 0. Then, for j = 1 .. numUnits-1, one double
  assignment writes the same value into dist[i][j] and dist[j][i]:
  - 0 when both units have no frames;
  - the large sentinel 100000 when exactly one unit has no frames;
  - dtwDist(melCep[i], melCep[j], sigma2) otherwise.

  Because j starts at 1 and not at i + 1, most cells are written twice, and the writes at the diagonal
  for i >= 1 replace its 0. `After` states the content of the matrix after each outer iteration, as
  the loops produce it. `MatrixEntry` states the closed form of the final matrix, and `LastWriteWins`
  proves that the loops end there.

  Where the source divides by zero, the model has an explicit `Undefined` entry:
  - `SingleFrames(cost)`: two units of one frame each, whose DTW count is 0. The cost D[0][0] divided
    by that 0 is kept, since it decides what the file shows: Infinity when it is positive, NaN when it is 0;
  - `ZeroVariance`: some coefficient has variance 0, so the local distances are 0/0 (NaN);
  - `NoVariance`: no variance at all (the leaf has no frames; `NoVarianceUnused` shows that the matrix
    then never needs one).
*/
module DistanceMatrix {
  import opened Wrappers
  import Dtw
  import DtwProperties
  import LocalDistance
  import PooledVariance

  /** The sentinel distance between an empty and a non-empty unit. */
  const LargeDistance: real := 100000.0

  datatype Cause = SingleFrames(cost: real) | ZeroVariance | NoVariance

  /** One cell of the matrix: a distance, or the reason the source computes none. */
  datatype Entry = Value(v: real) | Undefined(cause: Cause)

  /** Every frame of every unit has one coefficient per variance, when there are variances. */
  predicate Units(melCep: seq<seq<seq<real>>>, sigma2: Option<seq<real>>) {
    sigma2.Some? ==> forall i :: 0 <= i < |melCep| ==> Dtw.Frames(melCep[i], sigma2.value)
  }

  /** The value of one double assignment for units `u1` (the row unit i) and `u2` (the column unit j). */
  function PairEntry(u1: seq<seq<real>>, u2: seq<seq<real>>, sigma2: Option<seq<real>>): Entry
    requires sigma2.Some? ==> Dtw.Frames(u1, sigma2.value) && Dtw.Frames(u2, sigma2.value)
  {
    if |u1| == 0 || |u2| == 0 then
      if |u1| == |u2| then Value(0.0) else Value(LargeDistance)
    else if sigma2.None? then Undefined(NoVariance)
    else if !Dtw.NonZero(sigma2.value) then Undefined(ZeroVariance)
    else
      var r := Dtw.DtwDistance(u1, u2, sigma2.value);
      if r.Ok? then Value(r.value) else Undefined(SingleFrames(r.error.cost))
  }

  /** The body of the inner loop: the special cases for empty units, then `dtwDist`. */
  method UnitDistance(u1: seq<seq<real>>, u2: seq<seq<real>>, sigma2: Option<seq<real>>) returns (e: Entry)
    requires sigma2.Some? ==> Dtw.Frames(u1, sigma2.value) && Dtw.Frames(u2, sigma2.value)
    ensures e == PairEntry(u1, u2, sigma2)
  {
    if |u1| == 0 || |u2| == 0 {
      if |u1| == |u2| {
        e := Value(0.0);
      } else {
        e := Value(LargeDistance);
      }
    } else if sigma2.None? {
      e := Undefined(NoVariance);
    } else if exists k :: 0 <= k < |sigma2.value| && sigma2.value[k] == 0.0 {
      e := Undefined(ZeroVariance);
    } else {
      var r := Dtw.DtwDist(u1, u2, sigma2.value);
      if r.Ok? {
        e := Value(r.value);
      } else {
        e := Undefined(SingleFrames(r.error.cost));
      }
    }
  }

  /**
    Iteration r of the outer loop, once its inner loop has run for j = 1 .. cols-1, applied to a cell that
    held `before`: the double assignment at j = b writes (r, b), the one at j = a writes (a, r), and the
    diagonal cell (r, r) is set to 0 first.
  */
  function Written(melCep: seq<seq<seq<real>>>, sigma2: Option<seq<real>>, r: nat, cols: nat, a: nat, b: nat, before: Entry): Entry
    requires r < |melCep| && a < |melCep| && b < |melCep| && Units(melCep, sigma2)
  {
    if a == r && 1 <= b < cols then PairEntry(melCep[r], melCep[b], sigma2)
    else if b == r && 1 <= a < cols then PairEntry(melCep[r], melCep[a], sigma2)
    else if a == r && b == r then Value(0.0)
    else before
  }

  /** Cell (a, b) after the first i iterations of the outer loop; the array starts out all zero. */
  function After(melCep: seq<seq<seq<real>>>, sigma2: Option<seq<real>>, i: nat, a: nat, b: nat): Entry
    requires i <= |melCep| && a < |melCep| && b < |melCep| && Units(melCep, sigma2)
  {
    if i == 0 then Value(0.0)
    else Written(melCep, sigma2, i - 1, |melCep|, a, b, After(melCep, sigma2, i - 1, a, b))
  }

  /**
    The final matrix in closed form: dist[0][0] is 0. A cell in row or column 0 holds the value computed
    with unit 0 as the row unit. Every other cell, the diagonal included, holds the last of its two
    writes, the one with the larger index as the row unit: dtwDist(seq_max, seq_min).
  */
  function MatrixEntry(melCep: seq<seq<seq<real>>>, sigma2: Option<seq<real>>, a: nat, b: nat): Entry
    requires a < |melCep| && b < |melCep| && Units(melCep, sigma2)
  {
    if a == 0 && b == 0 then Value(0.0)
    else if a == 0 || b == 0 then PairEntry(melCep[0], melCep[a + b], sigma2)
    else if a >= b then PairEntry(melCep[a], melCep[b], sigma2)
    else PairEntry(melCep[b], melCep[a], sigma2)
  }

  /** Cell (a, b) after i outer iterations, in closed form. */
  ghost function Partial(melCep: seq<seq<seq<real>>>, sigma2: Option<seq<real>>, i: nat, a: nat, b: nat): Entry
    requires a < |melCep| && b < |melCep| && Units(melCep, sigma2)
  {
    if a == 0 && b == 0 then Value(0.0)
    else if a == 0 || b == 0 then (if i >= 1 then PairEntry(melCep[0], melCep[a + b], sigma2) else Value(0.0))
    else
      var lo, hi := if a <= b then a else b, if a <= b then b else a;
      if hi < i then PairEntry(melCep[hi], melCep[lo], sigma2)
      else if lo < i then PairEntry(melCep[lo], melCep[hi], sigma2)
      else Value(0.0)
  }

  /** The outer iterations so far leave every cell as `Partial` says. */
  lemma {:induction false} AfterIsPartial(melCep: seq<seq<seq<real>>>, sigma2: Option<seq<real>>, i: nat, a: nat, b: nat)
    requires i <= |melCep| && a < |melCep| && b < |melCep| && Units(melCep, sigma2)
    ensures After(melCep, sigma2, i, a, b) == Partial(melCep, sigma2, i, a, b)
  {
    if i > 0 {
      AfterIsPartial(melCep, sigma2, i - 1, a, b);
    }
  }

  /** Once every outer iteration has run, each cell holds its last write, as `MatrixEntry` states. */
  lemma LastWriteWins(melCep: seq<seq<seq<real>>>, sigma2: Option<seq<real>>, a: nat, b: nat)
    requires a < |melCep| && b < |melCep| && Units(melCep, sigma2)
    ensures After(melCep, sigma2, |melCep|, a, b) == MatrixEntry(melCep, sigma2, a, b)
  {
    AfterIsPartial(melCep, sigma2, |melCep|, a, b);
  }

  /** The inner loop of outer iteration i: the double assignments for j = 1 .. numUnits-1. */
  method FillRow(dist: array2<Entry>, melCep: seq<seq<seq<real>>>, sigma2: Option<seq<real>>, i: nat)
    requires dist.Length0 == dist.Length1 == |melCep| && i < |melCep| && Units(melCep, sigma2)
    requires forall a, b :: 0 <= a < |melCep| && 0 <= b < |melCep| ==>
               dist[a, b] == Written(melCep, sigma2, i, 1, a, b, After(melCep, sigma2, i, a, b))
    modifies dist
    ensures forall a, b :: 0 <= a < |melCep| && 0 <= b < |melCep| ==> dist[a, b] == After(melCep, sigma2, i + 1, a, b)
  {
    var n := |melCep|;
    for j := 1 to n
      invariant forall a, b :: 0 <= a < n && 0 <= b < n ==>
                  dist[a, b] == Written(melCep, sigma2, i, j, a, b, After(melCep, sigma2, i, a, b))
    {
      var e := UnitDistance(melCep[i], melCep[j], sigma2);
      dist[j, i] := e;
      dist[i, j] := e;
    }
  }

  /** The distance-matrix loops: the diagonal cell, then the double assignments, for every unit. */
  method ComputeMatrix(melCep: seq<seq<seq<real>>>, sigma2: Option<seq<real>>) returns (dist: array2<Entry>)
    requires Units(melCep, sigma2)
    ensures fresh(dist) && dist.Length0 == dist.Length1 == |melCep|
    ensures forall a, b :: 0 <= a < |melCep| && 0 <= b < |melCep| ==> dist[a, b] == MatrixEntry(melCep, sigma2, a, b)
  {
    var n := |melCep|;
    dist := new Entry[n, n]((_, _) => Value(0.0));
    for i := 0 to n
      invariant forall a, b :: 0 <= a < n && 0 <= b < n ==> dist[a, b] == After(melCep, sigma2, i, a, b)
    {
      dist[i, i] := Value(0.0);
      FillRow(dist, melCep, sigma2, i);
    }
    forall a, b | 0 <= a < n && 0 <= b < n
      ensures After(melCep, sigma2, n, a, b) == MatrixEntry(melCep, sigma2, a, b)
    {
      LastWriteWins(melCep, sigma2, a, b);
    }
  }

  /** The matrix is symmetric: both cells of a pair receive every write together. */
  lemma Symmetric(melCep: seq<seq<seq<real>>>, sigma2: Option<seq<real>>, a: nat, b: nat)
    requires a < |melCep| && b < |melCep| && Units(melCep, sigma2)
    ensures MatrixEntry(melCep, sigma2, a, b) == MatrixEntry(melCep, sigma2, b, a)
  {
  }

  /** A cell with an empty unit holds 0 when both units are empty and the sentinel when only one is. */
  lemma EmptyUnitEntries(melCep: seq<seq<seq<real>>>, sigma2: Option<seq<real>>, a: nat, b: nat)
    requires a < |melCep| && b < |melCep| && Units(melCep, sigma2)
    requires |melCep[a]| == 0 || |melCep[b]| == 0
    ensures |melCep[a]| == |melCep[b]| ==> MatrixEntry(melCep, sigma2, a, b) == Value(0.0)
    ensures |melCep[a]| != |melCep[b]| ==> MatrixEntry(melCep, sigma2, a, b) == Value(LargeDistance)
  {
  }

  /**
    The diagonal. dist[0][0] stays 0. For i >= 1 the write at j = i replaces the 0 with
    dtwDist(seq_i, seq_i): 0 for a unit of two frames or more, but no value for a unit of one frame.
  */
  lemma Diagonal(melCep: seq<seq<seq<real>>>, sigma2: seq<real>, a: nat)
    requires a < |melCep| && Units(melCep, Some(sigma2)) && Dtw.Positive(sigma2)
    ensures a == 0 ==> MatrixEntry(melCep, Some(sigma2), a, a) == Value(0.0)
    ensures a >= 1 && |melCep[a]| != 1 ==> MatrixEntry(melCep, Some(sigma2), a, a) == Value(0.0)
    ensures a >= 1 && |melCep[a]| == 1 ==> MatrixEntry(melCep, Some(sigma2), a, a) == Undefined(SingleFrames(0.0))
  {
    if |melCep[a]| >= 2 {
      DtwProperties.SelfDistanceZero(melCep[a], sigma2);
    } else if |melCep[a]| == 1 {
      DtwProperties.Outcomes(melCep[a], melCep[a], sigma2);
      LocalDistance.ZeroOnEqual(melCep[a][0], sigma2, |sigma2|);
    }
  }

  /**
    With non-zero variances, a cell has no value exactly when it is not dist[0][0] and both of its units
    have a single frame, and then it keeps the cost 2 * mahalanobis of the two frames. Every other cell
    holds an empty-unit value or the DTW distance of its last write.
  */
  lemma Defined(melCep: seq<seq<seq<real>>>, sigma2: seq<real>, a: nat, b: nat)
    requires a < |melCep| && b < |melCep| && Units(melCep, Some(sigma2)) && Dtw.NonZero(sigma2)
    ensures MatrixEntry(melCep, Some(sigma2), a, b).Undefined? <==> (a != 0 || b != 0) && |melCep[a]| == 1 && |melCep[b]| == 1
    ensures MatrixEntry(melCep, Some(sigma2), a, b).Undefined? ==> MatrixEntry(melCep, Some(sigma2), a, b).cause.SingleFrames?
    ensures (a != 0 || b != 0) && |melCep[a]| == 1 && |melCep[b]| == 1 ==>
              MatrixEntry(melCep, Some(sigma2), a, b) == Undefined(SingleFrames(2.0 * LocalDistance.Distance(melCep[a][0], melCep[b][0], sigma2)))
    ensures (a != 0 || b != 0) && |melCep[a]| > 0 && |melCep[b]| > 0 && !(|melCep[a]| == 1 && |melCep[b]| == 1) ==>
              var hi, lo := if a >= b then a else b, if a >= b then b else a;
              var r := if lo == 0 then Dtw.DtwDistance(melCep[lo], melCep[hi], sigma2) else Dtw.DtwDistance(melCep[hi], melCep[lo], sigma2);
              MatrixEntry(melCep, Some(sigma2), a, b) == Value(r.value)
  {
    DtwProperties.Outcomes(melCep[a], melCep[b], sigma2);
    DtwProperties.Outcomes(melCep[b], melCep[a], sigma2);
    if |melCep[a]| == 1 && |melCep[b]| == 1 {
      LocalDistance.Symmetric(melCep[a][0], melCep[b][0], sigma2, |sigma2|);
    }
  }

  /** Under positive variances every value in the matrix is non-negative. */
  lemma NonNegative(melCep: seq<seq<seq<real>>>, sigma2: seq<real>, a: nat, b: nat)
    requires a < |melCep| && b < |melCep| && Units(melCep, Some(sigma2)) && Dtw.Positive(sigma2)
    ensures MatrixEntry(melCep, Some(sigma2), a, b).Value? ==> MatrixEntry(melCep, Some(sigma2), a, b).v >= 0.0
  {
    DtwProperties.DistanceNonNegative(melCep[a], melCep[b], sigma2);
    DtwProperties.DistanceNonNegative(melCep[b], melCep[a], sigma2);
  }

  /** The pooled variance of a leaf fits its units. */
  lemma VarianceFitsUnits(melCep: seq<seq<seq<real>>>, order: nat)
    requires PooledVariance.Coefficients(melCep, order)
    ensures PooledVariance.Width(PooledVariance.AllFrames(melCep), order)
    ensures Units(melCep, PooledVariance.Variance(PooledVariance.AllFrames(melCep), order))
  {
    PooledVariance.AllFramesShape(melCep, order);
  }

  /**
    The division by N = 0 is harmless for the matrix: there is no variance only when every unit is empty,
    and then every cell is 0.
  */
  lemma NoVarianceUnused(melCep: seq<seq<seq<real>>>, order: nat, sigma2: Option<seq<real>>, a: nat, b: nat)
    requires PooledVariance.Coefficients(melCep, order) && a < |melCep| && b < |melCep|
    requires PooledVariance.Width(PooledVariance.AllFrames(melCep), order)
    requires sigma2 == PooledVariance.Variance(PooledVariance.AllFrames(melCep), order)
    ensures Units(melCep, sigma2) && (sigma2.None? ==> MatrixEntry(melCep, sigma2, a, b) == Value(0.0))
  {
    VarianceFitsUnits(melCep, order);
    PooledVariance.AllFramesShape(melCep, order);
  }

  /**
    A coefficient that takes one value c in every frame of the leaf has variance 0, so no pair of
    non-empty units gets a distance.
  */
  lemma ConstantCoefficientUndefined(melCep: seq<seq<seq<real>>>, order: nat, k: nat, c: real, a: nat, b: nat)
    requires PooledVariance.Coefficients(melCep, order) && k < order && a < |melCep| && b < |melCep|
    requires (a != 0 || b != 0) && |melCep[a]| > 0 && |melCep[b]| > 0
    requires var frames := PooledVariance.AllFrames(melCep);
             forall t :: 0 <= t < |frames| ==> k < |frames[t]| && frames[t][k] == c
    ensures PooledVariance.Width(PooledVariance.AllFrames(melCep), order)
    ensures var sigma2 := PooledVariance.Variance(PooledVariance.AllFrames(melCep), order);
            Units(melCep, sigma2) && MatrixEntry(melCep, sigma2, a, b) == Undefined(ZeroVariance)
  {
    VarianceFitsUnits(melCep, order);
    PooledVariance.AllFramesShape(melCep, order);
    var frames := PooledVariance.AllFrames(melCep);
    PooledVariance.ConstantHasZeroVariance(frames, order, k);
  }

  /** A leaf of two units, the first without frames and the second with two different frames, gives
      the matrix [[0, 100000], [100000, 0]]; the pooled variance there is 1. */
  lemma TwoUnitLeaf()
    ensures var melCep := [[], [[0.0], [2.0]]];
            var sigma2 := PooledVariance.Variance(PooledVariance.AllFrames(melCep), 1);
            sigma2 == Some([1.0]) && Units(melCep, sigma2) &&
            MatrixEntry(melCep, sigma2, 0, 0) == Value(0.0) && MatrixEntry(melCep, sigma2, 0, 1) == Value(LargeDistance) &&
            MatrixEntry(melCep, sigma2, 1, 0) == Value(LargeDistance) && MatrixEntry(melCep, sigma2, 1, 1) == Value(0.0)
  {
    var melCep: seq<seq<seq<real>>> := [[], [[0.0], [2.0]]];
    var frames: seq<seq<real>> := [[0.0], [2.0]];
    assert melCep[..1][..0] == [];
    assert PooledVariance.AllFrames(melCep) == frames;
    assert frames[..1] == [[0.0]] && |frames[..1][..0]| == 0;
    assert PooledVariance.Sum(frames, 0) == 2.0;
    assert PooledVariance.Mean(frames, 0) == 1.0;
    assert PooledVariance.SqDev(frames, 0, 1.0) == 2.0;
    var sigma2 := PooledVariance.Variance(frames, 1);
    assert sigma2.value == [1.0];
    VarianceFitsUnits(melCep, 1);
    Diagonal(melCep, [1.0], 1);
  }

  /** The whole of the distance computation for a leaf: pooled variance, then the matrix loops. */
  method DistanceTable(melCep: seq<seq<seq<real>>>, order: nat) returns (dist: array2<Entry>)
    requires PooledVariance.Coefficients(melCep, order)
    ensures PooledVariance.Width(PooledVariance.AllFrames(melCep), order)
    ensures Units(melCep, PooledVariance.Variance(PooledVariance.AllFrames(melCep), order))
    ensures fresh(dist) && dist.Length0 == dist.Length1 == |melCep|
    ensures forall a, b :: 0 <= a < |melCep| && 0 <= b < |melCep| ==>
              dist[a, b] == MatrixEntry(melCep, PooledVariance.Variance(PooledVariance.AllFrames(melCep), order), a, b)
  {
    var sigma2 := PooledVariance.ComputeVariance(melCep, order);
    VarianceFitsUnits(melCep, order);
    dist := ComputeMatrix(melCep, sigma2);
  }
}
