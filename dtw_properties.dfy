/**
  Properties of the DTW tables and of the normalised DTW distance:
  - which inputs give a value and which give an error;
  - counts and costs are never negative;
  - a sequence is at distance zero from itself;
  - the cumulated cost is symmetric, but the normalised distance is not;
  - the count the interior loop stores after line 545.
*/
module DtwProperties {
  import opened Wrappers
  import LocalDistance
  import opened Dtw

  /** One step of `Counts`: non-negative counts at the predecessors give a count of at least 2. */
  lemma StepCount(d: seq<seq<real>>, l2: nat, i: nat, j: nat)
    requires 1 <= i < |d| && 1 <= j < l2 && Rect(d, l2)
    requires i >= 2 ==> Table(d, l2, i - 2, j - 1).count >= 0
    requires Table(d, l2, i - 1, j - 1).count >= 0
    requires j >= 2 ==> Table(d, l2, i - 1, j - 2).count >= 0
    ensures Step(d, l2, i, j).count >= 2
  {
  }

  /** Nd is 0 at the origin, where it is never set, 1 on the rest of the first row and column, and at least 2 elsewhere. */
  lemma {:induction false} Counts(d: seq<seq<real>>, l2: nat, i: nat, j: nat)
    requires i < |d| && j < l2 && Rect(d, l2)
    ensures i == 0 && j == 0 ==> Table(d, l2, i, j).count == 0
    ensures (i == 0) != (j == 0) ==> Table(d, l2, i, j).count == 1
    ensures i > 0 && j > 0 ==> Table(d, l2, i, j).count >= 2
    decreases i + j
  {
    if i > 0 && j > 0 {
      if i >= 2 { Counts(d, l2, i - 2, j - 1); }
      Counts(d, l2, i - 1, j - 1);
      if j >= 2 { Counts(d, l2, i - 1, j - 2); }
      StepCount(d, l2, i, j);
    }
  }

  /**
    The step takes the cheapest of the three moves into (i, j): its cost is no larger than any move's cost
    and equal to one of them.
  */
  lemma StepIsCheapestMove(d: seq<seq<real>>, l2: nat, i: nat, j: nat)
    requires 1 <= i < |d| && 1 <= j < l2 && Rect(d, l2)
    ensures var a := if i >= 2 then Table(d, l2, i - 2, j - 1) else Padding;
            var b := Table(d, l2, i - 1, j - 1);
            var c := if j >= 2 then Table(d, l2, i - 1, j - 2) else Padding;
            var m0, m1, m2 := a.cost + 2.0 * d[i - 1][j] + d[i][j], b.cost + 2.0 * d[i][j], c.cost + 2.0 * d[i][j - 1] + d[i][j];
            var r := Step(d, l2, i, j).cost;
            r <= m0 && r <= m1 && r <= m2 && (r == m0 || r == m1 || r == m2)
  {
  }

  predicate NonNegativeTable(d: seq<seq<real>>) {
    forall i, j :: 0 <= i < |d| && 0 <= j < |d[i]| ==> d[i][j] >= 0.0
  }

  /** One step of `CostNonNegative`. */
  lemma StepCostNonNegative(d: seq<seq<real>>, l2: nat, i: nat, j: nat)
    requires 1 <= i < |d| && 1 <= j < l2 && Rect(d, l2) && NonNegativeTable(d)
    requires i >= 2 ==> Table(d, l2, i - 2, j - 1).cost >= 0.0
    requires Table(d, l2, i - 1, j - 1).cost >= 0.0
    requires j >= 2 ==> Table(d, l2, i - 1, j - 2).cost >= 0.0
    ensures Step(d, l2, i, j).cost >= 0.0
  {
    StepIsCheapestMove(d, l2, i, j);
  }

  /** With non-negative local distances, every cumulated cost is non-negative. */
  lemma {:induction false} CostNonNegative(d: seq<seq<real>>, l2: nat, i: nat, j: nat)
    requires i < |d| && j < l2 && Rect(d, l2) && NonNegativeTable(d)
    ensures Table(d, l2, i, j).cost >= 0.0
    decreases i + j
  {
    if i > 0 && j > 0 {
      if i >= 2 { CostNonNegative(d, l2, i - 2, j - 1); }
      CostNonNegative(d, l2, i - 1, j - 1);
      if j >= 2 { CostNonNegative(d, l2, i - 1, j - 2); }
      StepCostNonNegative(d, l2, i, j);
    }
  }

  /** With non-negative local distances and zeros on the diagonal, the diagonal of the cost table is zero. */
  lemma {:induction false} DiagonalCostZero(d: seq<seq<real>>, l2: nat, i: nat)
    requires i < |d| && i < l2 && Rect(d, l2) && NonNegativeTable(d)
    requires forall k :: 0 <= k <= i ==> d[k][k] == 0.0
    ensures Table(d, l2, i, i).cost == 0.0
  {
    CostNonNegative(d, l2, i, i);
    if i > 0 {
      DiagonalCostZero(d, l2, i - 1);
      StepIsCheapestMove(d, l2, i, i);
    }
  }

  /** The local-distance table of a sequence with itself under positive variances. */
  lemma SelfLocalTable(s: seq<seq<real>>, sigma2: seq<real>)
    requires Frames(s, sigma2) && Positive(sigma2)
    ensures NonNegativeTable(LocalTable(s, s, sigma2))
    ensures forall k :: 0 <= k < |s| ==> LocalTable(s, s, sigma2)[k][k] == 0.0
  {
    var d := LocalTable(s, s, sigma2);
    LocalTableEntries(s, s, sigma2);
    forall i, j | 0 <= i < |d| && 0 <= j < |d[i]|
      ensures d[i][j] >= 0.0
    {
      LocalDistance.NonNegative(s[i], s[j], sigma2, |s[i]|);
    }
    forall k | 0 <= k < |s|
      ensures d[k][k] == 0.0
    {
      LocalDistance.ZeroOnEqual(s[k], sigma2, |s[k]|);
    }
  }

  /** The three outcomes of `dtwDist` on sequences of any length, each in both directions. */
  lemma Outcomes(s1: seq<seq<real>>, s2: seq<seq<real>>, sigma2: seq<real>)
    requires Frames(s1, sigma2) && Frames(s2, sigma2) && NonZero(sigma2)
    ensures DtwDistance(s1, s2, sigma2) == Err(EmptySequence) <==> |s1| == 0 || |s2| == 0
    ensures DtwDistance(s1, s2, sigma2).Err? && DtwDistance(s1, s2, sigma2).error.ZeroCount? <==> |s1| == 1 && |s2| == 1
    ensures |s1| == 1 && |s2| == 1 ==>
              DtwDistance(s1, s2, sigma2) == Err(ZeroCount(2.0 * LocalDistance.Distance(s1[0], s2[0], sigma2)))
    ensures DtwDistance(s1, s2, sigma2).Ok? <==> |s1| >= 1 && |s2| >= 1 && (|s1| > 1 || |s2| > 1)
  {
    if |s1| > 0 && |s2| > 0 {
      Counts(LocalTable(s1, s2, sigma2), |s2|, |s1| - 1, |s2| - 1);
    }
  }

  /** The final cell of a sequence compared with itself: cost 0 and a positive count. */
  lemma SelfFinalCell(s: seq<seq<real>>, sigma2: seq<real>)
    requires Frames(s, sigma2) && Positive(sigma2) && |s| >= 2
    ensures var c := Table(LocalTable(s, s, sigma2), |s|, |s| - 1, |s| - 1);
            c.cost == 0.0 && c.count >= 1
  {
    var d := LocalTable(s, s, sigma2);
    SelfLocalTable(s, sigma2);
    DiagonalCostZero(d, |s|, |s| - 1);
    Counts(d, |s|, |s| - 1, |s| - 1);
  }

  /** A sequence of two frames or more is at DTW distance zero from itself (positive variances). */
  lemma SelfDistanceZero(s: seq<seq<real>>, sigma2: seq<real>)
    requires Frames(s, sigma2) && Positive(sigma2) && |s| >= 2
    ensures DtwDistance(s, s, sigma2) == Ok(0.0)
  {
    SelfFinalCell(s, sigma2);
  }

  /** A positive share of a non-negative cost is non-negative. */
  lemma ShareNonNegative(cost: real, count: int)
    requires cost >= 0.0 && count > 0
    ensures cost / (count as real) >= 0.0
  {
  }

  /** Under positive variances the DTW distance, when it is defined, is non-negative. */
  lemma DistanceNonNegative(s1: seq<seq<real>>, s2: seq<seq<real>>, sigma2: seq<real>)
    requires Frames(s1, sigma2) && Frames(s2, sigma2) && Positive(sigma2)
    ensures DtwDistance(s1, s2, sigma2).Ok? ==> DtwDistance(s1, s2, sigma2).value >= 0.0
  {
    if |s1| > 0 && |s2| > 0 {
      var d := LocalTable(s1, s2, sigma2);
      LocalTableEntries(s1, s2, sigma2);
      forall i, j | 0 <= i < |d| && 0 <= j < |d[i]|
        ensures d[i][j] >= 0.0
      {
        LocalDistance.NonNegative(s1[i], s2[j], sigma2, |s1[i]|);
      }
      var c := Table(d, |s2|, |s1| - 1, |s2| - 1);
      CostNonNegative(d, |s2|, |s1| - 1, |s2| - 1);
      if c.count != 0 {
        Counts(d, |s2|, |s1| - 1, |s2| - 1);
        ShareNonNegative(c.cost, c.count);
      }
    }
  }

  /** The table `d` with rows and columns swapped. */
  function Transpose(d: seq<seq<real>>, l2: nat): (t: seq<seq<real>>)
    requires Rect(d, l2)
    ensures |t| == l2 && Rect(t, |d|)
    ensures forall i, j :: 0 <= i < |d| && 0 <= j < l2 ==> t[j][i] == d[i][j]
  {
    seq(l2, j requires 0 <= j < l2 => seq(|d|, i requires 0 <= i < |d| => d[i][j]))
  }

  /**
    The cost recurrence of the `dtwDist` documentation, on its own: the minimum of the three moves, with
    the first row and column and the origin as the code fills them. It leaves out counts and tie-breaks.
  */
  function MinCost(d: seq<seq<real>>, l2: nat, i: nat, j: nat): real
    requires i < |d| && j < l2 && Rect(d, l2)
    decreases i + j, 1
  {
    if i == 0 && j == 0 then 2.0 * d[0][0]
    else if i == 0 || j == 0 then d[i][j]
    else MinStep(d, l2, i, j)
  }

  /** The least of the three moves into (i, j), i, j >= 1; a move from outside the table starts at 0. */
  function MinStep(d: seq<seq<real>>, l2: nat, i: nat, j: nat): real
    requires 1 <= i < |d| && 1 <= j < l2 && Rect(d, l2)
    decreases i + j, 0
  {
    var a := if i >= 2 then MinCost(d, l2, i - 2, j - 1) else 0.0;
    var c := if j >= 2 then MinCost(d, l2, i - 1, j - 2) else 0.0;
    Min3(a + 2.0 * d[i - 1][j] + d[i][j], MinCost(d, l2, i - 1, j - 1) + 2.0 * d[i][j], c + 2.0 * d[i][j - 1] + d[i][j])
  }

  /** One step of `CostIsMinCost`: equal costs at the predecessors give equal costs at (i, j). */
  lemma StepCostIsMinStep(d: seq<seq<real>>, l2: nat, i: nat, j: nat)
    requires 1 <= i < |d| && 1 <= j < l2 && Rect(d, l2)
    requires i >= 2 ==> Table(d, l2, i - 2, j - 1).cost == MinCost(d, l2, i - 2, j - 1)
    requires Table(d, l2, i - 1, j - 1).cost == MinCost(d, l2, i - 1, j - 1)
    requires j >= 2 ==> Table(d, l2, i - 1, j - 2).cost == MinCost(d, l2, i - 1, j - 2)
    ensures Step(d, l2, i, j).cost == MinStep(d, l2, i, j)
  {
  }

  /** The cost table of `dtwDist` is the minimum recurrence. The tie-breaks and the count quirk change only Nd. */
  lemma {:induction false} CostIsMinCost(d: seq<seq<real>>, l2: nat, i: nat, j: nat)
    requires i < |d| && j < l2 && Rect(d, l2)
    ensures Table(d, l2, i, j).cost == MinCost(d, l2, i, j)
    decreases i + j
  {
    if i > 0 && j > 0 {
      if i >= 2 { CostIsMinCost(d, l2, i - 2, j - 1); }
      CostIsMinCost(d, l2, i - 1, j - 1);
      if j >= 2 { CostIsMinCost(d, l2, i - 1, j - 2); }
      StepCostIsMinStep(d, l2, i, j);
    }
  }

  lemma Min3Swap(a: real, b: real, c: real)
    ensures Min3(a, b, c) == Min3(c, b, a)
  {
  }

  /** One step of `MinCostTranspose`. */
  lemma MinStepTranspose(d: seq<seq<real>>, l2: nat, t: seq<seq<real>>, i: nat, j: nat)
    requires 1 <= i < |d| && 1 <= j < l2 && Rect(d, l2) && t == Transpose(d, l2)
    requires i >= 2 ==> MinCost(d, l2, i - 2, j - 1) == MinCost(t, |d|, j - 1, i - 2)
    requires MinCost(d, l2, i - 1, j - 1) == MinCost(t, |d|, j - 1, i - 1)
    requires j >= 2 ==> MinCost(d, l2, i - 1, j - 2) == MinCost(t, |d|, j - 2, i - 1)
    ensures MinStep(d, l2, i, j) == MinStep(t, |d|, j, i)
  {
    var a := if i >= 2 then MinCost(d, l2, i - 2, j - 1) else 0.0;
    var c := if j >= 2 then MinCost(d, l2, i - 1, j - 2) else 0.0;
    Min3Swap(a + 2.0 * d[i - 1][j] + d[i][j], MinCost(d, l2, i - 1, j - 1) + 2.0 * d[i][j], c + 2.0 * d[i][j - 1] + d[i][j]);
  }

  /** The minimum recurrence is symmetric: transposing d swaps the double-row and double-column moves. */
  lemma {:induction false} MinCostTranspose(d: seq<seq<real>>, l2: nat, i: nat, j: nat)
    requires i < |d| && j < l2 && Rect(d, l2)
    ensures MinCost(d, l2, i, j) == MinCost(Transpose(d, l2), |d|, j, i)
    decreases i + j
  {
    if i > 0 && j > 0 {
      if i >= 2 { MinCostTranspose(d, l2, i - 2, j - 1); }
      MinCostTranspose(d, l2, i - 1, j - 1);
      if j >= 2 { MinCostTranspose(d, l2, i - 1, j - 2); }
      MinStepTranspose(d, l2, Transpose(d, l2), i, j);
    }
  }

  /** The cumulated cost does not depend on the order of the two sequences. */
  lemma CostTranspose(d: seq<seq<real>>, l2: nat, i: nat, j: nat)
    requires i < |d| && j < l2 && Rect(d, l2)
    ensures Table(d, l2, i, j).cost == Table(Transpose(d, l2), |d|, j, i).cost
  {
    CostIsMinCost(d, l2, i, j);
    CostIsMinCost(Transpose(d, l2), |d|, j, i);
    MinCostTranspose(d, l2, i, j);
  }

  /** Comparing `s2` with `s1` gives the transposed local-distance table. */
  lemma LocalTableTranspose(s1: seq<seq<real>>, s2: seq<seq<real>>, sigma2: seq<real>)
    requires Frames(s1, sigma2) && Frames(s2, sigma2) && NonZero(sigma2)
    ensures LocalTable(s2, s1, sigma2) == Transpose(LocalTable(s1, s2, sigma2), |s2|)
  {
    var d, t := LocalTable(s1, s2, sigma2), LocalTable(s2, s1, sigma2);
    var t' := Transpose(d, |s2|);
    LocalTableEntries(s1, s2, sigma2);
    LocalTableEntries(s2, s1, sigma2);
    forall j | 0 <= j < |s2|
      ensures t[j] == t'[j]
    {
      forall i | 0 <= i < |s1|
        ensures t[j][i] == t'[j][i]
      {
        LocalDistance.Symmetric(s2[j], s1[i], sigma2, |s2[j]|);
      }
    }
  }

  /** The cumulated cost D[l1-1][l2-1] is the same for (s1, s2) and for (s2, s1). */
  lemma CumulatedCostSymmetric(s1: seq<seq<real>>, s2: seq<seq<real>>, sigma2: seq<real>)
    requires Frames(s1, sigma2) && Frames(s2, sigma2) && NonZero(sigma2) && |s1| > 0 && |s2| > 0
    ensures Table(LocalTable(s1, s2, sigma2), |s2|, |s1| - 1, |s2| - 1).cost
         == Table(LocalTable(s2, s1, sigma2), |s1|, |s2| - 1, |s1| - 1).cost
  {
    LocalTableTranspose(s1, s2, sigma2);
    CostTranspose(LocalTable(s1, s2, sigma2), |s2|, |s1| - 1, |s2| - 1);
  }

  /** The normalised distance is not symmetric. Here the double-row and double-column moves tie at
      cell (3, 1). The tie goes to slot 0, and the count that comes with it differs between the two orders. */
  lemma NormalisedNotSymmetric()
    ensures var s1, s2, sigma2 := [[0.0], [0.0], [1.0], [0.0]], [[0.0], [1.0]], [1.0];
            DtwDistance(s1, s2, sigma2) == Ok(0.25) && DtwDistance(s2, s1, sigma2) == Ok(1.0 / 3.0)
  {
    var s1, s2, sigma2 := [[0.0], [0.0], [1.0], [0.0]], [[0.0], [1.0]], [1.0];
    LocalTableEntries(s1, s2, sigma2);
    LocalTableEntries(s2, s1, sigma2);
    forall i, j | 0 <= i < |s1| && 0 <= j < |s2|
      ensures LocalDistance.Distance(s1[i], s2[j], sigma2) == (s1[i][0] - s2[j][0]) * (s1[i][0] - s2[j][0])
      ensures LocalDistance.Distance(s2[j], s1[i], sigma2) == (s1[i][0] - s2[j][0]) * (s1[i][0] - s2[j][0])
    {
      assert LocalDistance.WeightedSqDist(s2[j], s1[i], sigma2, 0) == 0.0;
      assert LocalDistance.WeightedSqDist(s1[i], s2[j], sigma2, 0) == 0.0;
    }
    var d := LocalTable(s1, s2, sigma2);
    assert d[0][0] == 0.0 && d[0][1] == 1.0 && d[1][0] == 0.0 && d[1][1] == 1.0;
    assert d[2][0] == 1.0 && d[2][1] == 0.0 && d[3][0] == 0.0 && d[3][1] == 1.0;
    assert Table(d, 2, 1, 0) == Cell(0.0, 1) && Table(d, 2, 2, 0) == Cell(1.0, 1);
    assert Table(d, 2, 3, 1) == Cell(1.0, 4);
    var t := LocalTable(s2, s1, sigma2);
    assert t[0][0] == 0.0 && t[0][1] == 0.0 && t[0][2] == 1.0 && t[0][3] == 0.0;
    assert t[1][0] == 1.0 && t[1][1] == 1.0 && t[1][2] == 0.0 && t[1][3] == 1.0;
    assert Table(t, 4, 0, 1) == Cell(0.0, 1) && Table(t, 4, 0, 2) == Cell(1.0, 1);
    assert Table(t, 4, 1, 3) == Cell(1.0, 3);
  }

  /** After line 545, a winning double-column move in the interior carries `minNd[2]` as the
      second-column loop left it, not Nd[i-1][j-2] + 3. In this 3x3 table it wins at (2, 2) with count 3, while
      its predecessor (1, 0) has count 1. */
  lemma StaleDoubleColumnCount()
    ensures var d := [[1.0, 1.0, 1.0], [0.0, 1.0, 1.0], [1.0, 0.0, 1.0]];
            Table(d, 3, 2, 2) == Cell(1.0, 3) && Table(d, 3, 1, 0).count + 3 == 4
  {
    var d := [[1.0, 1.0, 1.0], [0.0, 1.0, 1.0], [1.0, 0.0, 1.0]];
    assert Table(d, 3, 1, 1) == Cell(1.0, 3);
  }
}
