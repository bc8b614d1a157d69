/**
  The pooled variance of the Mel-cepstrum frames of one leaf (first half of `buildAndDumpDistanceTables`).
  A single pass over every frame of every unit accumulates, per coefficient k, the frame count N,
  sum[k] and sumSq[k]. The variance is then finalised with the textbook shortcut
  sigma2[k] = (sumSq[k] - sum[k]^2 / N) / N.

  The reference definition `Variance` is the mean squared deviation from the mean. `Shortcut` proves
  that the source's formula computes it. Frames are `seq<real>`, one coefficient per entry. A unit is
  the sequence of its frames, and `melCep` is the sequence of units.
*/
module PooledVariance {
  import opened Wrappers

  /** Every frame of every unit has exactly `order` coefficients, as the timeline's frames do. */
  predicate Coefficients(melCep: seq<seq<seq<real>>>, order: nat) {
    forall i, j :: 0 <= i < |melCep| && 0 <= j < |melCep[i]| ==> |melCep[i][j]| == order
  }

  /** Every frame in the flat list has exactly `order` coefficients. */
  predicate Width(frames: seq<seq<real>>, order: nat) {
    forall t :: 0 <= t < |frames| ==> |frames[t]| == order
  }

  /** The frames of all units, unit after unit, in the order the accumulation loop visits them. */
  function AllFrames(melCep: seq<seq<seq<real>>>): (frames: seq<seq<real>>)
    ensures |melCep| == 0 ==> frames == []
  {
    if |melCep| == 0 then [] else AllFrames(melCep[..|melCep| - 1]) + melCep[|melCep| - 1]
  }

  /** The flat list holds every frame of every unit, and nothing else: it is empty iff every unit is. */
  lemma {:induction false} AllFramesShape(melCep: seq<seq<seq<real>>>, order: nat)
    requires Coefficients(melCep, order)
    ensures Width(AllFrames(melCep), order)
    ensures |AllFrames(melCep)| == 0 <==> forall i :: 0 <= i < |melCep| ==> |melCep[i]| == 0
  {
    if |melCep| > 0 {
      var p := melCep[..|melCep| - 1];
      assert forall i :: 0 <= i < |p| ==> p[i] == melCep[i];
      AllFramesShape(p, order);
    }
  }

  /** The sum of coefficient k over the frames. */
  function Sum(frames: seq<seq<real>>, k: nat): real
    requires forall t :: 0 <= t < |frames| ==> k < |frames[t]|
  {
    if |frames| == 0 then 0.0 else Sum(frames[..|frames| - 1], k) + frames[|frames| - 1][k]
  }

  /** The sum of the squares of coefficient k over the frames. */
  function SumSq(frames: seq<seq<real>>, k: nat): real
    requires forall t :: 0 <= t < |frames| ==> k < |frames[t]|
  {
    if |frames| == 0 then 0.0
    else SumSq(frames[..|frames| - 1], k) + frames[|frames| - 1][k] * frames[|frames| - 1][k]
  }

  /** The squared deviation of x from m. */
  function Dev(x: real, m: real): real {
    (x - m) * (x - m)
  }

  /** The sum of the squared deviations of coefficient k from `m`. */
  function SqDev(frames: seq<seq<real>>, k: nat, m: real): real
    requires forall t :: 0 <= t < |frames| ==> k < |frames[t]|
  {
    if |frames| == 0 then 0.0
    else
      var x := frames[|frames| - 1][k];
      SqDev(frames[..|frames| - 1], k, m) + Dev(x, m)
  }

  /** A total shared out over n > 0 items. */
  function Average(total: real, n: nat): real
    requires n > 0
  {
    total / (n as real)
  }

  /** The mean of coefficient k over a non-empty list of frames. */
  function Mean(frames: seq<seq<real>>, k: nat): real
    requires |frames| > 0 && forall t :: 0 <= t < |frames| ==> k < |frames[t]|
  {
    Average(Sum(frames, k), |frames|)
  }

  /**
    The population variance of each coefficient: the mean squared deviation from the mean. There is
    none for an empty list of frames, where the source divides 0 by N = 0.
  */
  function Variance(frames: seq<seq<real>>, order: nat): Option<seq<real>>
    requires Width(frames, order)
  {
    if |frames| == 0 then None
    else Some(seq(order, k requires 0 <= k < order => Average(SqDev(frames, k, Mean(frames, k)), |frames|)))
  }

  /** The expansion of n squared deviations from m in terms of the sum s and the sum of squares q. */
  function Expanded(q: real, s: real, n: nat, m: real): real {
    q - 2.0 * m * s + (n as real) * m * m
  }

  /** One more value x extends the expansion: its squared deviation joins both sums and the count. */
  lemma ExpandStep(q: real, s: real, n: nat, m: real, x: real, dev: real)
    requires dev == Expanded(q, s, n, m)
    ensures dev + Dev(x, m) == Expanded(q + x * x, s + x, n + 1, m)
  {
    assert (x - m) * (x - m) == x * x - 2.0 * m * x + m * m;
  }

  /** The squared deviations expand into the two accumulated sums. */
  lemma {:induction false} SqDevExpand(frames: seq<seq<real>>, k: nat, m: real)
    requires forall t :: 0 <= t < |frames| ==> k < |frames[t]|
    ensures SqDev(frames, k, m) == Expanded(SumSq(frames, k), Sum(frames, k), |frames|, m)
  {
    if |frames| > 0 {
      var p := frames[..|frames| - 1];
      var x := frames[|frames| - 1][k];
      assert SumSq(frames, k) == SumSq(p, k) + x * x;
      assert Sum(frames, k) == Sum(p, k) + x;
      assert SqDev(frames, k, m) == SqDev(p, k, m) + Dev(x, m);
      SqDevExpand(p, k, m);
      ExpandStep(SumSq(p, k), Sum(p, k), |p|, m, x, SqDev(p, k, m));
    }
  }

  /** The finalisation formula of the source: (sumSq - sum^2 / n) / n. */
  function Finalised(sum: real, sumSq: real, n: nat): real
    requires n > 0
  {
    (sumSq - (sum * sum) / (n as real)) / (n as real)
  }

  /**
    The algebra behind the shortcut: with m = s / n and dev = q - 2ms + nm^2, the shortcut formula is
    dev / n. The variables stand for the accumulated sums, so the solver meets no compound products.
  */
  lemma ShortcutAlgebra(q: real, s: real, n: nat, m: real, dev: real)
    requires n > 0 && m == Average(s, n)
    requires dev == Expanded(q, s, n, m)
    ensures Finalised(s, q, n) == Average(dev, n)
  {
    var r := n as real;
    assert m * r == s;
    assert r * m * m == s * m;
    assert (s * s) / r == s * m;
  }

  /** The source's finalisation formula computes the variance. */
  lemma Shortcut(frames: seq<seq<real>>, k: nat)
    requires |frames| > 0 && forall t :: 0 <= t < |frames| ==> k < |frames[t]|
    ensures Finalised(Sum(frames, k), SumSq(frames, k), |frames|) == Average(SqDev(frames, k, Mean(frames, k)), |frames|)
  {
    var m := Mean(frames, k);
    SqDevExpand(frames, k, m);
    ShortcutAlgebra(SumSq(frames, k), Sum(frames, k), |frames|, m, SqDev(frames, k, m));
  }

  /** A squared deviation is non-negative. */
  lemma DevNonNegative(x: real, m: real)
    ensures Dev(x, m) >= 0.0
  {
  }

  /** Every squared deviation is non-negative. */
  lemma {:induction false} SqDevNonNegative(frames: seq<seq<real>>, k: nat, m: real)
    requires forall t :: 0 <= t < |frames| ==> k < |frames[t]|
    ensures SqDev(frames, k, m) >= 0.0
  {
    if |frames| > 0 {
      var x := frames[|frames| - 1][k];
      SqDevNonNegative(frames[..|frames| - 1], k, m);
      DevNonNegative(x, m);
    }
  }

  /** Every variance is non-negative, so the finalised `sigma2` never holds a negative entry. */
  lemma VarianceNonNegative(frames: seq<seq<real>>, order: nat, k: nat)
    requires Width(frames, order) && |frames| > 0 && k < order
    ensures Variance(frames, order).value[k] >= 0.0
  {
    SqDevNonNegative(frames, k, Mean(frames, k));
  }

  /** When every value is `c`, the sum is N * c and there is no deviation from `c`. */
  lemma {:induction false} ConstantSums(frames: seq<seq<real>>, k: nat, c: real)
    requires forall t :: 0 <= t < |frames| ==> k < |frames[t]| && frames[t][k] == c
    ensures Sum(frames, k) == (|frames| as real) * c
    ensures SqDev(frames, k, c) == 0.0
  {
    if |frames| > 0 {
      ConstantSums(frames[..|frames| - 1], k, c);
    }
  }

  /** A coefficient that takes the same value in every frame has variance 0. */
  lemma ConstantHasZeroVariance(frames: seq<seq<real>>, order: nat, k: nat)
    requires Width(frames, order) && |frames| > 0 && k < order
    requires forall t :: 0 <= t < |frames| ==> frames[t][k] == frames[0][k]
    ensures Variance(frames, order).value[k] == 0.0
  {
    var c := frames[0][k];
    ConstantSums(frames, k, c);
    assert Mean(frames, k) == c;
  }

  /** The innermost loop: adds one frame's first `order` coefficients and their squares to the sums. */
  method AddFrame(sum: array<real>, sumSq: array<real>, frame: seq<real>)
    requires sum.Length == sumSq.Length == |frame| && sum != sumSq
    modifies sum, sumSq
    ensures forall k :: 0 <= k < |frame| ==> sum[k] == old(sum[k]) + frame[k]
    ensures forall k :: 0 <= k < |frame| ==> sumSq[k] == old(sumSq[k]) + frame[k] * frame[k]
  {
    for k := 0 to sum.Length
      invariant forall q :: 0 <= q < k ==> sum[q] == old(sum[q]) + frame[q]
      invariant forall q :: 0 <= q < k ==> sumSq[q] == old(sumSq[q]) + frame[q] * frame[q]
      invariant forall q :: k <= q < sum.Length ==> sum[q] == old(sum[q]) && sumSq[q] == old(sumSq[q])
    {
      var val := frame[k];
      sum[k] := sum[k] + val;
      sumSq[k] := sumSq[k] + val * val;
    }
  }

  /** Appending one frame adds its coefficient to both sums. */
  lemma AppendFrame(frames: seq<seq<real>>, x: seq<real>, order: nat)
    requires Width(frames, order) && |x| == order
    ensures Width(frames + [x], order)
    ensures forall k :: 0 <= k < order ==> Sum(frames + [x], k) == Sum(frames, k) + x[k]
    ensures forall k :: 0 <= k < order ==> SumSq(frames + [x], k) == SumSq(frames, k) + x[k] * x[k]
  {
    assert (frames + [x])[..|frames|] == frames;
  }

  /** The loop over the frames of one unit: adds every frame of `unit` to the running sums. */
  method AddUnit(sum: array<real>, sumSq: array<real>, ghost before: seq<seq<real>>, unit: seq<seq<real>>, order: nat)
    requires sum.Length == sumSq.Length == order && sum != sumSq
    requires Width(before, order) && Width(unit, order)
    requires forall k :: 0 <= k < order ==> sum[k] == Sum(before, k) && sumSq[k] == SumSq(before, k)
    modifies sum, sumSq
    ensures Width(before + unit, order)
    ensures forall k :: 0 <= k < order ==> sum[k] == Sum(before + unit, k) && sumSq[k] == SumSq(before + unit, k)
  {
    assert before + unit[..0] == before;
    for j := 0 to |unit|
      invariant Width(before + unit[..j], order)
      invariant forall k :: 0 <= k < order ==> sum[k] == Sum(before + unit[..j], k) && sumSq[k] == SumSq(before + unit[..j], k)
    {
      AppendFrame(before + unit[..j], unit[j], order);
      assert before + unit[..j + 1] == before + unit[..j] + [unit[j]];
      AddFrame(sum, sumSq, unit[j]);
    }
    assert unit[..|unit|] == unit;
  }

  /**
    The statistics loop: N, sum and sumSq over every frame of every unit. It returns the sums'
    contents.
  */
  method Statistics(melCep: seq<seq<seq<real>>>, order: nat) returns (n: nat, sums: seq<real>, sumSqs: seq<real>)
    requires Coefficients(melCep, order)
    ensures Width(AllFrames(melCep), order)
    ensures n == |AllFrames(melCep)|
    ensures |sums| == |sumSqs| == order
    ensures forall k :: 0 <= k < order ==> sums[k] == Sum(AllFrames(melCep), k) && sumSqs[k] == SumSq(AllFrames(melCep), k)
  {
    var sum := new real[order](_ => 0.0);
    var sumSq := new real[order](_ => 0.0);
    n := 0;
    for i := 0 to |melCep|
      invariant Width(AllFrames(melCep[..i]), order)
      invariant n == |AllFrames(melCep[..i])|
      invariant forall k :: 0 <= k < order ==> sum[k] == Sum(AllFrames(melCep[..i]), k) && sumSq[k] == SumSq(AllFrames(melCep[..i]), k)
    {
      ghost var before := AllFrames(melCep[..i]);
      var unit := melCep[i];
      n := n + |unit|;
      AddUnit(sum, sumSq, before, unit, order);
      assert melCep[..i + 1][..i] == melCep[..i];
      assert AllFrames(melCep[..i + 1]) == before + unit;
    }
    assert melCep[..|melCep|] == melCep;
    sums, sumSqs := sum[..], sumSq[..];
  }

  /**
    The finalisation loop: sigma2[k] = (sumSq[k] - sum[k]^2 / N) / N. With N = 0 the source divides by
    zero; the model reports that as `None`.
  */
  method Finalize(n: nat, sums: seq<real>, sumSqs: seq<real>) returns (sigma2: Option<seq<real>>)
    requires |sums| == |sumSqs|
    ensures n == 0 <==> sigma2.None?
    ensures sigma2.Some? ==> |sigma2.value| == |sums|
    ensures sigma2.Some? ==> forall k :: 0 <= k < |sums| ==> sigma2.value[k] == Finalised(sums[k], sumSqs[k], n)
  {
    if n == 0 {
      return None;
    }
    var s := new real[|sums|](_ => 0.0);
    for k := 0 to |sums|
      invariant forall q :: 0 <= q < k ==> s[q] == Finalised(sums[q], sumSqs[q], n)
    {
      var v := (sumSqs[k] - (sums[k] * sums[k]) / (n as real)) / (n as real);
      assert v == Finalised(sums[k], sumSqs[k], n);
      s[k] := v;
    }
    return Some(s[..]);
  }

  /** The pooled variance of a leaf: statistics, then finalisation. */
  method ComputeVariance(melCep: seq<seq<seq<real>>>, order: nat) returns (sigma2: Option<seq<real>>)
    requires Coefficients(melCep, order)
    ensures Width(AllFrames(melCep), order)
    ensures sigma2 == Variance(AllFrames(melCep), order)
  {
    var n, sums, sumSqs := Statistics(melCep, order);
    sigma2 := Finalize(n, sums, sumSqs);
    ghost var frames := AllFrames(melCep);
    if n > 0 {
      forall k | 0 <= k < order
        ensures sigma2.value[k] == Variance(frames, order).value[k]
      {
        Shortcut(frames, k);
      }
      assert sigma2.value == Variance(frames, order).value;
    }
  }
}
