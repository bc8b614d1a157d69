/**
  The DTW unit distance of the distance engine (`dtwDist`). A cost table `D` and a count table `Nd` are
  filled by dynamic programming. The recurrence allows three moves into cell (i, j):
    double-row     D(i-2, j-1) + 2*d(i-1, j) + d(i, j)
    diagonal       D(i-1, j-1) + 2*d(i, j)
    double-column  D(i-1, j-2) + 2*d(i, j-1) + d(i, j).
  The result is D[l1-1][l2-1] / Nd[l1-1][l2-1].

  `Table` is the reference definition of both tables, cell by cell, as the source fills them. This
  includes its quirks:
  - `Nd[0][0]` is never set, so it stays 0.
  - In interior cells, line 545 stores the double-column count into the double-row slot. A double-row
    winner therefore carries Nd[i-1][j-2] + 3, and a double-column winner carries `minNd[2]` as the
    loop over the second-column cells (1, j) last left it.
*/
module Dtw {
  import opened Wrappers
  import LocalDistance

  /** The (cost, count) pair of one DP cell: D[i][j] and Nd[i][j]. */
  datatype Cell = Cell(cost: real, count: int)

  datatype DtwError =
    | EmptySequence   // the RuntimeException for a sequence of length 0
    | ZeroCount(cost: real)  // the final division of D[l1-1][l2-1] = cost by Nd[l1-1][l2-1] == 0 (a 1x1 comparison)

  /** Every row of the local-distance table `d` has `l2` entries. */
  predicate Rect(d: seq<seq<real>>, l2: nat) {
    forall i :: 0 <= i < |d| ==> |d[i]| == l2
  }

  /** The index that the two comparisons `minIdx = v0 < v1 ? 0 : 1; minIdx = v2 < v[minIdx] ? 2 : minIdx` choose. */
  function Winner(c0: real, c1: real, c2: real): nat {
    var m := if c0 < c1 then 0 else 1;
    if c2 < (if m == 0 then c0 else c1) then 2 else m
  }

  /** The least of three costs. */
  function Min3(a: real, b: real, c: real): real {
    if a <= b && a <= c then a else if b <= c then b else c
  }

  /**
    The winning candidate of one DP step. Its cost is the least candidate cost: `WinnerIsMinimum` shows the
    comparisons pick a least one. Its count is the one in the winner's slot.
  */
  function Choose(c0: real, c1: real, c2: real, n0: int, n1: int, n2: int): Cell {
    var k := Winner(c0, c1, c2);
    Cell(Min3(c0, c1, c2), if k == 0 then n0 else if k == 1 then n1 else n2)
  }

  /**
    The comparisons pick a least candidate. Ties go to the diagonal (slot 1) over both other moves, and
    to the double-row move (slot 0) over the double-column move (slot 2).
  */
  lemma WinnerIsMinimum(c0: real, c1: real, c2: real)
    ensures var k := Winner(c0, c1, c2);
            && (k == 0 <==> c0 < c1 && c0 <= c2)
            && (k == 1 <==> c1 <= c0 && c1 <= c2)
            && (k == 2 <==> c2 < c0 && c2 < c1)
            && (if k == 0 then c0 else if k == 1 then c1 else c2) == Min3(c0, c1, c2)
  {
  }

  /** Nd on the first row and column: 1, except at the origin, which is never set. */
  function EdgeCount(i: nat, j: nat): int {
    if i == 0 && j == 0 then 0 else 1
  }

  /**
    The value of `minNd[2]` when the interior loop starts. The second-column loop last ran with index
    l2-1 and stored Nd[0][l2-3] + 3 there. The interior loop never writes `minNd[2]`.
  */
  function StaleCount(l2: nat): (n: int)
    requires l2 >= 3
    ensures n == if l2 == 3 then 3 else 4
  {
    EdgeCount(0, l2 - 3) + 3
  }

  /** The predecessor (cost 0, count 0) that stands for a move starting outside the table. */
  const Padding := Cell(0.0, 0)

  /**
    Cell (i, j) of the cost and count tables, for the local-distance table `d` of width `l2`: the origin
    and the first row and column as lines 493-502 set them, and `Step` everywhere else.
  */
  function Table(d: seq<seq<real>>, l2: nat, i: nat, j: nat): Cell
    requires i < |d| && j < l2 && Rect(d, l2)
    decreases i + j, 1
  {
    if i == 0 && j == 0 then Cell(2.0 * d[0][0], 0)
    else if i == 0 || j == 0 then Cell(d[i][j], EdgeCount(i, j))
    else Step(d, l2, i, j)
  }

  /**
    One DP step into cell (i, j), i, j >= 1. The corner (1, 1) and the second row and column
    (lines 506-534) are this step too. There, a move that would start outside the table starts from
    `Padding`; this gives the constant 3 counts and the `2*d + d` candidates of those lines. In interior
    cells (i, j >= 2) the counts follow line 545: slot 0 carries the double-column count, and slot 2
    holds `StaleCount(l2)`.
  */
  function Step(d: seq<seq<real>>, l2: nat, i: nat, j: nat): Cell
    requires 1 <= i < |d| && 1 <= j < l2 && Rect(d, l2)
    decreases i + j, 0
  {
    var a := if i >= 2 then Table(d, l2, i - 2, j - 1) else Padding;
    var b := Table(d, l2, i - 1, j - 1);
    var c := if j >= 2 then Table(d, l2, i - 1, j - 2) else Padding;
    var interior := i >= 2 && j >= 2;
    Choose(a.cost + 2.0 * d[i - 1][j] + d[i][j], b.cost + 2.0 * d[i][j], c.cost + 2.0 * d[i][j - 1] + d[i][j],
           if interior then c.count + 3 else a.count + 3, b.count + 2, if interior then StaleCount(l2) else c.count + 3)
  }

  /** Every frame of `s` has one coefficient per variance. */
  predicate Frames(s: seq<seq<real>>, sigma2: seq<real>) {
    forall i :: 0 <= i < |s| ==> |s[i]| == |sigma2|
  }

  predicate NonZero(sigma2: seq<real>) {
    forall k :: 0 <= k < |sigma2| ==> sigma2[k] != 0.0
  }

  predicate Positive(sigma2: seq<real>) {
    forall k :: 0 <= k < |sigma2| ==> sigma2[k] > 0.0
  }

  /** One row of the local-distance table: the distances from the frame `v` to every frame of `s2`. */
  function LocalRow(v: seq<real>, s2: seq<seq<real>>, sigma2: seq<real>): (row: seq<real>)
    requires |v| == |sigma2| && Frames(s2, sigma2) && NonZero(sigma2)
    ensures |row| == |s2|
  {
    seq(|s2|, j requires 0 <= j < |s2| => LocalDistance.Distance(v, s2[j], sigma2))
  }

  /** The local-distance table d[i][j] = mahalanobis(seq1[i], seq2[j], sigma2), one row per frame of `s1`. */
  function LocalTable(s1: seq<seq<real>>, s2: seq<seq<real>>, sigma2: seq<real>): (d: seq<seq<real>>)
    requires Frames(s1, sigma2) && Frames(s2, sigma2) && NonZero(sigma2)
    ensures |d| == |s1| && Rect(d, |s2|)
  {
    if |s1| == 0 then []
    else LocalTable(s1[..|s1| - 1], s2, sigma2) + [LocalRow(s1[|s1| - 1], s2, sigma2)]
  }

  /** Every entry of the local-distance table is the distance between the two frames. */
  lemma {:induction false} LocalTableEntries(s1: seq<seq<real>>, s2: seq<seq<real>>, sigma2: seq<real>)
    requires Frames(s1, sigma2) && Frames(s2, sigma2) && NonZero(sigma2)
    ensures forall i, j :: 0 <= i < |s1| && 0 <= j < |s2| ==>
              LocalTable(s1, s2, sigma2)[i][j] == LocalDistance.Distance(s1[i], s2[j], sigma2)
  {
    if |s1| > 0 {
      var p := s1[..|s1| - 1];
      LocalTableEntries(p, s2, sigma2);
      assert forall i :: 0 <= i < |p| ==> p[i] == s1[i];
    }
  }

  /** What `dtwDist` returns: the exception, the division by a zero count, or the normalised cost. */
  function DtwDistance(s1: seq<seq<real>>, s2: seq<seq<real>>, sigma2: seq<real>): Result<real, DtwError>
    requires Frames(s1, sigma2) && Frames(s2, sigma2) && NonZero(sigma2)
  {
    if |s1| == 0 || |s2| == 0 then Err(EmptySequence)
    else
      var c := Table(LocalTable(s1, s2, sigma2), |s2|, |s1| - 1, |s2| - 1);
      if c.count == 0 then Err(ZeroCount(c.cost)) else Ok(c.cost / (c.count as real))
  }

  /** The local distances, filled in place as in the first double loop of `dtwDist`. */
  method FillLocal(seq1: seq<seq<real>>, seq2: seq<seq<real>>, sigma2: seq<real>) returns (d: array2<real>)
    requires Frames(seq1, sigma2) && Frames(seq2, sigma2) && NonZero(sigma2)
    ensures fresh(d) && d.Length0 == |seq1| && d.Length1 == |seq2|
    ensures forall a, b :: 0 <= a < |seq1| && 0 <= b < |seq2| ==> d[a, b] == LocalTable(seq1, seq2, sigma2)[a][b]
  {
    ghost var ld := LocalTable(seq1, seq2, sigma2);
    LocalTableEntries(seq1, seq2, sigma2);
    d := new real[|seq1|, |seq2|]((i, j) => 0.0);
    for i := 0 to |seq1|
      invariant forall a, b :: 0 <= a < i && 0 <= b < |seq2| ==> d[a, b] == ld[a][b]
    {
      for j := 0 to |seq2|
        invariant forall a, b :: 0 <= a < i && 0 <= b < |seq2| ==> d[a, b] == ld[a][b]
        invariant forall b :: 0 <= b < j ==> d[i, b] == ld[i][b]
      {
        d[i, j] := LocalDistance.Mahalanobis(seq1[i], seq2[j], sigma2);
      }
    }
  }

  /** The two comparisons `minIdx = minV[0] < minV[1] ? 0 : 1; minIdx = minV[2] < minV[minIdx] ? 2 : minIdx`
      and the winner's cost and count. */
  method SelectMin(minV: array<real>, minNd: array<int>) returns (cost: real, count: int)
    requires minV.Length == 3 && minNd.Length == 3
    ensures Cell(cost, count) == Choose(minV[0], minV[1], minV[2], minNd[0], minNd[1], minNd[2])
  {
    var minIdx := if minV[0] < minV[1] then 0 else 1;
    minIdx := if minV[2] < minV[minIdx] then 2 else minIdx;
    cost, count := minV[minIdx], minNd[minIdx];
  }

  /** The corner (1, 1) as lines 507-509 write it, from the origin cell `o`. */
  lemma CornerRecurrence(d: seq<seq<real>>, l2: nat, o: Cell)
    requires 2 <= |d| && 2 <= l2 && Rect(d, l2) && o == Table(d, l2, 0, 0)
    ensures Table(d, l2, 1, 1)
            == Choose(2.0 * d[0][1] + d[1][1], o.cost + 2.0 * d[1][1], 2.0 * d[1][0] + d[1][1], 3, o.count + 2, 3)
  {
  }

  /** A second-row cell (i, 1) as lines 518-520 write it, from the cells a = (i-2, 0) and b = (i-1, 0). */
  lemma SecondRowRecurrence(d: seq<seq<real>>, l2: nat, i: nat, a: Cell, b: Cell)
    requires 2 <= i < |d| && 2 <= l2 && Rect(d, l2)
    requires a == Table(d, l2, i - 2, 0) && b == Table(d, l2, i - 1, 0)
    ensures Table(d, l2, i, 1)
            == Choose(a.cost + 2.0 * d[i - 1][1] + d[i][1], b.cost + 2.0 * d[i][1], 2.0 * d[i][0] + d[i][1],
                      a.count + 3, b.count + 2, 3)
  {
  }

  /** A second-column cell (1, j) as lines 528-530 write it, from the cells b = (0, j-1) and c = (0, j-2). */
  lemma SecondColumnRecurrence(d: seq<seq<real>>, l2: nat, j: nat, b: Cell, c: Cell)
    requires 2 <= |d| && 2 <= j < l2 && Rect(d, l2)
    requires b == Table(d, l2, 0, j - 1) && c == Table(d, l2, 0, j - 2)
    ensures Table(d, l2, 1, j)
            == Choose(2.0 * d[0][j] + d[1][j], b.cost + 2.0 * d[1][j], c.cost + 2.0 * d[1][j - 1] + d[1][j],
                      3, b.count + 2, c.count + 3)
  {
  }

  /** An interior cell as lines 543-545 write it, from a = (i-2, j-1), b = (i-1, j-1) and c = (i-1, j-2). */
  lemma InteriorRecurrence(d: seq<seq<real>>, l2: nat, i: nat, j: nat, a: Cell, b: Cell, c: Cell)
    requires 2 <= i < |d| && 2 <= j < l2 && Rect(d, l2)
    requires a == Table(d, l2, i - 2, j - 1) && b == Table(d, l2, i - 1, j - 1) && c == Table(d, l2, i - 1, j - 2)
    ensures Table(d, l2, i, j)
            == Choose(a.cost + 2.0 * d[i - 1][j] + d[i][j], b.cost + 2.0 * d[i][j], c.cost + 2.0 * d[i][j - 1] + d[i][j],
                      c.count + 3, b.count + 2, StaleCount(l2))
  {
  }

  /** The arrays of one `dtwDist` call, of the shape the tables need. */
  ghost predicate Shaped(d: array2<real>, D: array2<real>, Nd: array2<int>, ld: seq<seq<real>>) reads d {
    |ld| == d.Length0 == D.Length0 == Nd.Length0 && d.Length1 == D.Length1 == Nd.Length1
    && |ld| > 0 && d.Length1 > 0 && Rect(ld, d.Length1)
    && forall a, b :: 0 <= a < |ld| && 0 <= b < d.Length1 ==> d[a, b] == ld[a][b]
  }

  /** The first row and column (lines 494-502); Nd[0][0] keeps its initial 0. */
  method FillFirstRowColumn(d: array2<real>, D: array2<real>, Nd: array2<int>, ghost ld: seq<seq<real>>)
    requires Shaped(d, D, Nd, ld) && d != D
    requires Nd[0, 0] == 0
    modifies D, Nd
    ensures forall a, b {:trigger D[a, b]} {:trigger Nd[a, b]} :: 0 <= a < |ld| && 0 <= b < d.Length1 && (a == 0 || b == 0) ==>
              D[a, b] == Table(ld, d.Length1, a, b).cost && Nd[a, b] == Table(ld, d.Length1, a, b).count
  {
    var l1, l2 := d.Length0, d.Length1;
    D[0, 0] := 2.0 * d[0, 0];
    for i := 1 to l1
      invariant forall a, b {:trigger D[a, b]} {:trigger Nd[a, b]} :: 0 <= a < i && b == 0 ==>
                  D[a, b] == Table(ld, l2, a, b).cost && Nd[a, b] == Table(ld, l2, a, b).count
    {
      D[i, 0] := d[i, 0];
      Nd[i, 0] := 1;
    }
    for i := 1 to l2
      invariant forall a, b {:trigger D[a, b]} {:trigger Nd[a, b]} :: 0 <= a < l1 && 0 <= b < l2 && (b == 0 || (a == 0 && b < i)) ==>
                  D[a, b] == Table(ld, l2, a, b).cost && Nd[a, b] == Table(ld, l2, a, b).count
    {
      D[0, i] := d[0, i];
      Nd[0, i] := 1;
    }
  }

  /** The corner cell (1, 1) (lines 506-513). */
  method FillCorner(d: array2<real>, D: array2<real>, Nd: array2<int>, minV: array<real>, minNd: array<int>,
                    ghost ld: seq<seq<real>>)
    requires Shaped(d, D, Nd, ld) && d != D && d.Length0 > 1 && d.Length1 > 1
    requires minV.Length == 3 && minNd.Length == 3
    requires forall a, b {:trigger D[a, b]} {:trigger Nd[a, b]} :: 0 <= a < |ld| && 0 <= b < d.Length1 && (a == 0 || b == 0) ==>
               D[a, b] == Table(ld, d.Length1, a, b).cost && Nd[a, b] == Table(ld, d.Length1, a, b).count
    modifies D, Nd, minV, minNd
    ensures forall a, b {:trigger D[a, b]} {:trigger Nd[a, b]} :: 0 <= a < |ld| && 0 <= b < d.Length1 && (a == 0 || b == 0 || (a == 1 && b == 1)) ==>
              D[a, b] == Table(ld, d.Length1, a, b).cost && Nd[a, b] == Table(ld, d.Length1, a, b).count
  {
    var l2 := d.Length1;
    assert D[0, 0] == Table(ld, l2, 0, 0).cost && Nd[0, 0] == Table(ld, l2, 0, 0).count;
    CornerRecurrence(ld, l2, Table(ld, l2, 0, 0));
    minV[0] := 2.0 * d[0, 1] + d[1, 1];  minNd[0] := 3;
    minV[1] := D[0, 0] + 2.0 * d[1, 1];  minNd[1] := Nd[0, 0] + 2;
    minV[2] := 2.0 * d[1, 0] + d[1, 1];  minNd[2] := 3;
    var cost, count := SelectMin(minV, minNd);
    D[1, 1], Nd[1, 1] := cost, count;
  }

  /** One cell (i, 1) of the second row (lines 518-524). */
  method SecondRowCell(d: array2<real>, D: array2<real>, Nd: array2<int>, minV: array<real>, minNd: array<int>,
                       ghost ld: seq<seq<real>>, i: nat, ghost j: nat)
    requires Shaped(d, D, Nd, ld) && d != D && 2 <= i < d.Length0 && j == 1 < d.Length1
    requires minV.Length == 3 && minNd.Length == 3
    requires D[i - 2, 0] == Table(ld, d.Length1, i - 2, 0).cost && Nd[i - 2, 0] == Table(ld, d.Length1, i - 2, 0).count
    requires D[i - 1, 0] == Table(ld, d.Length1, i - 1, 0).cost && Nd[i - 1, 0] == Table(ld, d.Length1, i - 1, 0).count
    modifies D, Nd, minV, minNd
    ensures D[i, 1] == Table(ld, d.Length1, i, 1).cost && Nd[i, 1] == Table(ld, d.Length1, i, 1).count
    ensures forall a, b {:trigger D[a, b]} {:trigger Nd[a, b]} :: 0 <= a < D.Length0 && 0 <= b < D.Length1 && (a != i || b != j) ==>
              D[a, b] == old(D[a, b]) && Nd[a, b] == old(Nd[a, b])
  {
    SecondRowRecurrence(ld, d.Length1, i, Table(ld, d.Length1, i - 2, 0), Table(ld, d.Length1, i - 1, 0));
    minV[0] := D[i - 2, 0] + 2.0 * d[i - 1, 1] + d[i, 1];  minNd[0] := Nd[i - 2, 0] + 3;
    minV[1] := D[i - 1, 0] + 2.0 * d[i, 1];                minNd[1] := Nd[i - 1, 0] + 2;
    minV[2] := 2.0 * d[i, 0] + d[i, 1];                    minNd[2] := 3;
    var cost, count := SelectMin(minV, minNd);
    D[i, 1], Nd[i, 1] := cost, count;
  }

  /** The second row: the cells (i, 1), i >= 2 (lines 516-524), with the scratch slots reused per cell. */
  method FillSecondRow(d: array2<real>, D: array2<real>, Nd: array2<int>, minV: array<real>, minNd: array<int>,
                       ghost ld: seq<seq<real>>)
    requires Shaped(d, D, Nd, ld) && d != D && d.Length0 > 1 && d.Length1 > 1
    requires minV.Length == 3 && minNd.Length == 3
    requires forall a, b {:trigger D[a, b]} {:trigger Nd[a, b]} :: 0 <= a < |ld| && 0 <= b < d.Length1 && (a == 0 || b == 0 || (a == 1 && b == 1)) ==>
                  D[a, b] == Table(ld, d.Length1, a, b).cost && Nd[a, b] == Table(ld, d.Length1, a, b).count
    modifies D, Nd, minV, minNd
    ensures forall a, b {:trigger D[a, b]} {:trigger Nd[a, b]} :: 0 <= a < |ld| && 0 <= b < d.Length1 && (a == 0 || b <= 1) ==>
                  D[a, b] == Table(ld, d.Length1, a, b).cost && Nd[a, b] == Table(ld, d.Length1, a, b).count
  {
    var l1, l2 := d.Length0, d.Length1;
    for i := 2 to l1
      invariant forall a, b {:trigger D[a, b]} {:trigger Nd[a, b]} :: 0 <= a < l1 && 0 <= b < l2 && (a == 0 || b == 0 || (b == 1 && a < i)) ==>
                  D[a, b] == Table(ld, l2, a, b).cost && Nd[a, b] == Table(ld, l2, a, b).count
    {
      SecondRowCell(d, D, Nd, minV, minNd, ld, i, 1);
    }
  }

  /** One cell (1, j) of the second column (lines 527-533); it leaves Nd[0][j-2] + 3 in `minNd[2]`. */
  method SecondColumnCell(d: array2<real>, D: array2<real>, Nd: array2<int>, minV: array<real>, minNd: array<int>,
                          ghost ld: seq<seq<real>>, ghost i: nat, j: nat)
    requires Shaped(d, D, Nd, ld) && d != D && i == 1 < d.Length0 && 2 <= j < d.Length1
    requires minV.Length == 3 && minNd.Length == 3
    requires D[0, j - 1] == Table(ld, d.Length1, 0, j - 1).cost && Nd[0, j - 1] == Table(ld, d.Length1, 0, j - 1).count
    requires D[0, j - 2] == Table(ld, d.Length1, 0, j - 2).cost && Nd[0, j - 2] == Table(ld, d.Length1, 0, j - 2).count
    modifies D, Nd, minV, minNd
    ensures D[1, j] == Table(ld, d.Length1, 1, j).cost && Nd[1, j] == Table(ld, d.Length1, 1, j).count
    ensures minNd[2] == EdgeCount(0, j - 2) + 3
    ensures forall a, b {:trigger D[a, b]} {:trigger Nd[a, b]} :: 0 <= a < D.Length0 && 0 <= b < D.Length1 && (a != i || b != j) ==>
              D[a, b] == old(D[a, b]) && Nd[a, b] == old(Nd[a, b])
  {
    SecondColumnRecurrence(ld, d.Length1, j, Table(ld, d.Length1, 0, j - 1), Table(ld, d.Length1, 0, j - 2));
    minV[0] := 2.0 * d[0, j] + d[1, j];                    minNd[0] := 3;
    minV[1] := D[0, j - 1] + 2.0 * d[1, j];                minNd[1] := Nd[0, j - 1] + 2;
    minV[2] := D[0, j - 2] + 2.0 * d[1, j - 1] + d[1, j];  minNd[2] := Nd[0, j - 2] + 3;
    var cost, count := SelectMin(minV, minNd);
    D[1, j], Nd[1, j] := cost, count;
  }

  /** The second column: the cells (1, j), j >= 2 (lines 525-534). The last iteration leaves Nd[0][l2-3] + 3 in `minNd[2]`. */
  method FillSecondColumn(d: array2<real>, D: array2<real>, Nd: array2<int>, minV: array<real>, minNd: array<int>,
                          ghost ld: seq<seq<real>>)
    requires Shaped(d, D, Nd, ld) && d != D && d.Length0 > 1 && d.Length1 > 1
    requires minV.Length == 3 && minNd.Length == 3
    requires forall a, b {:trigger D[a, b]} {:trigger Nd[a, b]} :: 0 <= a < |ld| && 0 <= b < d.Length1 && (a == 0 || b <= 1) ==>
                  D[a, b] == Table(ld, d.Length1, a, b).cost && Nd[a, b] == Table(ld, d.Length1, a, b).count
    modifies D, Nd, minV, minNd
    ensures forall a, b {:trigger D[a, b]} {:trigger Nd[a, b]} :: 0 <= a < |ld| && 0 <= b < d.Length1 && (a <= 1 || b <= 1) ==>
                  D[a, b] == Table(ld, d.Length1, a, b).cost && Nd[a, b] == Table(ld, d.Length1, a, b).count
    ensures d.Length1 > 2 ==> minNd[2] == StaleCount(d.Length1)
  {
    var l1, l2 := d.Length0, d.Length1;
    for j := 2 to l2
      invariant forall a, b {:trigger D[a, b]} {:trigger Nd[a, b]} :: 0 <= a < l1 && 0 <= b < l2 && (a == 0 || b <= 1 || (a == 1 && b < j)) ==>
                  D[a, b] == Table(ld, l2, a, b).cost && Nd[a, b] == Table(ld, l2, a, b).count
      invariant j > 2 ==> minNd[2] == EdgeCount(0, j - 3) + 3
    {
      SecondColumnCell(d, D, Nd, minV, minNd, ld, 1, j);
    }
  }

  /** One interior cell (lines 544-550). Line 545 writes the double-column count into slot 0. */
  method InteriorCell(d: array2<real>, D: array2<real>, Nd: array2<int>, minV: array<real>, minNd: array<int>,
                      ghost ld: seq<seq<real>>, i: nat, j: nat)
    requires Shaped(d, D, Nd, ld) && d != D && 2 <= i < d.Length0 && 2 <= j < d.Length1
    requires minV.Length == 3 && minNd.Length == 3
    requires D[i - 2, j - 1] == Table(ld, d.Length1, i - 2, j - 1).cost && Nd[i - 2, j - 1] == Table(ld, d.Length1, i - 2, j - 1).count
    requires D[i - 1, j - 1] == Table(ld, d.Length1, i - 1, j - 1).cost && Nd[i - 1, j - 1] == Table(ld, d.Length1, i - 1, j - 1).count
    requires D[i - 1, j - 2] == Table(ld, d.Length1, i - 1, j - 2).cost && Nd[i - 1, j - 2] == Table(ld, d.Length1, i - 1, j - 2).count
    requires minNd[2] == StaleCount(d.Length1)
    modifies D, Nd, minV, minNd
    ensures D[i, j] == Table(ld, d.Length1, i, j).cost && Nd[i, j] == Table(ld, d.Length1, i, j).count
    ensures minNd[2] == StaleCount(d.Length1)
    ensures forall a, b {:trigger D[a, b]} {:trigger Nd[a, b]} :: 0 <= a < D.Length0 && 0 <= b < D.Length1 && (a != i || b != j) ==>
              D[a, b] == old(D[a, b]) && Nd[a, b] == old(Nd[a, b])
  {
    InteriorRecurrence(ld, d.Length1, i, j, Table(ld, d.Length1, i - 2, j - 1), Table(ld, d.Length1, i - 1, j - 1),
                       Table(ld, d.Length1, i - 1, j - 2));
    minV[0] := D[i - 2, j - 1] + 2.0 * d[i - 1, j] + d[i, j];  minNd[0] := Nd[i - 2, j - 1] + 3;
    minV[1] := D[i - 1, j - 1] + 2.0 * d[i, j];                minNd[1] := Nd[i - 1, j - 1] + 2;
    minV[2] := D[i - 1, j - 2] + 2.0 * d[i, j - 1] + d[i, j];  minNd[0] := Nd[i - 1, j - 2] + 3;
    var cost, count := SelectMin(minV, minNd);
    D[i, j], Nd[i, j] := cost, count;
  }

  /** The rest of the tables (lines 540-552). */
  method FillInterior(d: array2<real>, D: array2<real>, Nd: array2<int>, minV: array<real>, minNd: array<int>,
                      ghost ld: seq<seq<real>>)
    requires Shaped(d, D, Nd, ld) && d != D && d.Length0 > 2 && d.Length1 > 2
    requires minV.Length == 3 && minNd.Length == 3
    requires forall a, b {:trigger D[a, b]} {:trigger Nd[a, b]} :: 0 <= a < |ld| && 0 <= b < d.Length1 && (a <= 1 || b <= 1) ==>
                  D[a, b] == Table(ld, d.Length1, a, b).cost && Nd[a, b] == Table(ld, d.Length1, a, b).count
    requires minNd[2] == StaleCount(d.Length1)
    modifies D, Nd, minV, minNd
    ensures forall a, b {:trigger D[a, b]} {:trigger Nd[a, b]} :: 0 <= a < |ld| && 0 <= b < d.Length1 ==>
                  D[a, b] == Table(ld, d.Length1, a, b).cost && Nd[a, b] == Table(ld, d.Length1, a, b).count
  {
    var l1, l2 := d.Length0, d.Length1;
    for i := 2 to l1
      invariant forall a, b {:trigger D[a, b]} {:trigger Nd[a, b]} :: 0 <= a < l1 && 0 <= b < l2 && (a < i || b <= 1) ==>
                  D[a, b] == Table(ld, l2, a, b).cost && Nd[a, b] == Table(ld, l2, a, b).count
      invariant minNd[2] == StaleCount(l2)
    {
      for j := 2 to l2
        invariant forall a, b {:trigger D[a, b]} {:trigger Nd[a, b]} :: 0 <= a < l1 && 0 <= b < l2 && (a < i || b <= 1 || (a == i && b < j)) ==>
                  D[a, b] == Table(ld, l2, a, b).cost && Nd[a, b] == Table(ld, l2, a, b).count
        invariant minNd[2] == StaleCount(l2)
      {
        InteriorCell(d, D, Nd, minV, minNd, ld, i, j);
      }
    }
  }

  method DtwDist(seq1: seq<seq<real>>, seq2: seq<seq<real>>, sigma2: seq<real>) returns (r: Result<real, DtwError>)
    requires Frames(seq1, sigma2) && Frames(seq2, sigma2) && NonZero(sigma2)
    ensures r == DtwDistance(seq1, seq2, sigma2)
  {
    if |seq1| <= 0 || |seq2| <= 0 {
      return Err(EmptySequence);
    }
    var l1, l2 := |seq1|, |seq2|;
    ghost var ld := LocalTable(seq1, seq2, sigma2);
    var d := FillLocal(seq1, seq2, sigma2);
    var D := new real[l1, l2]((i, j) => 0.0);
    var Nd := new int[l1, l2]((i, j) => 0);
    var minV := new real[3](_ => 0.0);
    var minNd := new int[3](_ => 0);

    FillFirstRowColumn(d, D, Nd, ld);
    if l1 > 1 && l2 > 1 {
      FillCorner(d, D, Nd, minV, minNd, ld);
      FillSecondRow(d, D, Nd, minV, minNd, ld);
      FillSecondColumn(d, D, Nd, minV, minNd, ld);
    }
    if l1 > 2 && l2 > 2 {
      FillInterior(d, D, Nd, minV, minNd, ld);
    }

    assert D[l1 - 1, l2 - 1] == Table(ld, l2, l1 - 1, l2 - 1).cost && Nd[l1 - 1, l2 - 1] == Table(ld, l2, l1 - 1, l2 - 1).count;
    if Nd[l1 - 1, l2 - 1] == 0 {
      return Err(ZeroCount(D[l1 - 1, l2 - 1]));
    }
    return Ok(D[l1 - 1, l2 - 1] / (Nd[l1 - 1, l2 - 1] as real));
  }
}
