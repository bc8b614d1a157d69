# CART leaf refinement of the MARY TTS voice import (`CARTBuilder`)

`CARTBuilder` builds the top-level tree for unit selection. It first filters the feature vectors and reads the
feature sequence. Then it refines each leaf of the tree with the external tree inducer `wagon`. For that, it
writes two files per leaf:

- the leaf's feature vectors;
- a unit distance matrix. This is built from the Mel-cepstrum frames of the leaf's units:
  - a pooled per-coefficient variance;
  - a diagonal Mahalanobis distance between frames;
  - a dynamic-time-warping (DTW) distance between units, normalised by the length of the optimal path.

This project models that core in Dafny. Each step is an imperative method, proved against a reference function:

| module | models |
|---|---|
| `LocalDistance` | `mahalanobis` |
| `Dtw` | `dtwDist`: the local-distance table, then the fill of the cost table `D` and the count table `Nd` with the scratch slots `minV`/`minNd`, then the final division |
| `DtwProperties` | what the source and its documentation promise about `dtwDist`, and where the code departs from it |
| `PooledVariance` | the accumulation of `sum`, `sumSq` and `N` over all frames of a leaf, and the finalisation of `sigma2` |
| `DistanceMatrix` | the matrix loops with their double writes, and the whole distance computation of one leaf |
| `MatrixText`, `FeatureTable`, `TextLayout` | the text layout of the distance file and of the feature-vector file, and proofs that both read back |
| `Features` | the edge-vector filter and the feature-sequence line filter of `compute`, with Java's `String.trim` |
| `Refinement` | the per-leaf loop of `replaceLeaves` and the control of `compute` around it |

Arithmetic is exact (`real`). Integers are unbounded. The source's divisions by zero are explicit outcomes,
not NaN or Infinity: `Err(EmptySequence)` and `Err(ZeroCount(cost))` from the DTW, `None` for a variance over no frames, and
`Undefined(cause)` entries in the matrix.

Where the code departs from what its own comments and documentation describe, the model follows the code:

- **Diagonal.** Line 411 sets the diagonal to 0 ("Set the diagonal to 0.0"). But the inner loop starts at
  `j = 1`, so for `i >= 1` that 0 is overwritten by `dtwDist(seq_i, seq_i)`. When no variance is 0, that is 0
  for a unit of two or more frames, 0 again for an empty unit, and undefined (0/0) for a unit of exactly one
  frame (`DistanceMatrix.Diagonal`).
- **Ties.** The comparisons `v0 < v1 ? 0 : 1` and `v2 < v[minIdx] ? 2 : minIdx` give a tie to the diagonal
  move over both others, and to slot 0 over slot 2 (`Dtw.WinnerIsMinimum`).
- **1×1 units.** The documentation of `dtwDist` (lines 449-468) normalises the cumulated cost by the number
  of local distances along the path. For two one-frame units that is D(0,0) = 2*d(0,0), so two. The code
  divides by `Nd[0][0]`, which is never set and so stays 0 (`DtwProperties.Outcomes`).
- **Zero variance.** A zero pooled variance is an explicit outcome here. A dimension whose pooled variance
  is 0 has the same value in every frame, so every local distance is 0/0. Every DTW entry of the matrix is
  then `Undefined(ZeroVariance)` (`DistanceMatrix.ConstantCoefficientUndefined`).
- **Count bookkeeping.** The interior count bookkeeping is modelled as written: line 545 stores into
  `minNd[0]`. So a double-row winner carries `Nd[i-1][j-2] + 3`, and a double-column winner carries the stale
  `minNd[2]` (`DtwProperties.StaleDoubleColumnCount`).
- **Asymmetry.** The normalised distance is not symmetric, even where line 545 never runs
  (`DtwProperties.NormalisedNotSymmetric`, a 4×2 against a 2×4 comparison). The second-row loop
  (lines 516-524) puts the real double-row move in slot 0 and the padded `2*d + d` move in slot 2. The
  second-column loop (lines 526-535) puts the padded move in slot 0 and the real double-column move in
  slot 2. The strict `<` gives a tie to slot 0 both times, so the two orders keep different counts. The
  cumulated cost itself is symmetric (`DtwProperties.CumulatedCostSymmetric`).

## Model

| member | source | states |
|---|---|---|
| LocalDistance.Distance | java/de/dfki/lt/mary/unitselection/voiceimport/CARTBuilder.java:565-573 | the reference local distance: the weighted squared distance over the coordinates of the first frame, which Mahalanobis computes and NonNegative, Symmetric, ZeroOnEqual characterise |
| LocalDistance.Mahalanobis | java/de/dfki/lt/mary/unitselection/voiceimport/CARTBuilder.java:565-573 | the loop returns the sum over the coordinates of v1 of (v1[i]-v2[i])^2/sigma2[i] |
| LocalDistance.NonNegative | java/de/dfki/lt/mary/unitselection/voiceimport/CARTBuilder.java:565-573 | with every variance positive the distance is >= 0 |
| LocalDistance.Symmetric | java/de/dfki/lt/mary/unitselection/voiceimport/CARTBuilder.java:565-573 | swapping the two frames leaves the distance unchanged |
| LocalDistance.ZeroOnEqual | java/de/dfki/lt/mary/unitselection/voiceimport/CARTBuilder.java:565-573 | a frame is at distance 0 from itself |
| Dtw.Table | java/de/dfki/lt/mary/unitselection/voiceimport/CARTBuilder.java:494-551 | the reference cost and count tables cell by cell, as the loops fill them: the origin, the first row and column, and Step elsewhere; the fill methods are proved equal to it and CostIsMinCost and Counts characterise it |
| Dtw.Step | java/de/dfki/lt/mary/unitselection/voiceimport/CARTBuilder.java:506-551 | the reference DP step: the three candidates of lines 507-509, 518-520, 528-530 and 543-545 with the counts of each loop, including the line-545 slot; CornerRecurrence to InteriorRecurrence and StepIsCheapestMove characterise it |
| Dtw.DtwDistance | java/de/dfki/lt/mary/unitselection/voiceimport/CARTBuilder.java:470-555 | the reference DTW result: EmptySequence for an empty input, ZeroCount(cost) for a zero final count, otherwise the final cost over the final count; DtwDist is proved equal to it and Outcomes characterises it |
| Dtw.LocalTable | java/de/dfki/lt/mary/unitselection/voiceimport/CARTBuilder.java:486-490 | the reference local-distance table: one row per frame of the first unit, one entry per frame of the second; FillLocal is proved to fill it and LocalTableEntries gives its entries |
| Dtw.Winner | java/de/dfki/lt/mary/unitselection/voiceimport/CARTBuilder.java:510-511 | the slot the two strict comparisons pick; WinnerIsMinimum states which slot wins for every order of the three costs |
| Dtw.Choose | java/de/dfki/lt/mary/unitselection/voiceimport/CARTBuilder.java:510-513 | the cell one selection stores: the least cost with the count of the winning slot; SelectMin is proved to store it |
| Dtw.WinnerIsMinimum | java/de/dfki/lt/mary/unitselection/voiceimport/CARTBuilder.java:510-513 | the two comparisons pick a least candidate; ties go to the diagonal over both others, and the double-column move wins only when strictly smaller than both |
| Dtw.StaleCount | java/de/dfki/lt/mary/unitselection/voiceimport/CARTBuilder.java:526-535 | the value the second-column loop leaves in minNd[2] is 3 when l2 = 3 and 4 otherwise |
| Dtw.LocalTableEntries | java/de/dfki/lt/mary/unitselection/voiceimport/CARTBuilder.java:486-490 | entry (i, j) of the local table is the Mahalanobis distance of frame i of the first unit and frame j of the second |
| Dtw.FillLocal | java/de/dfki/lt/mary/unitselection/voiceimport/CARTBuilder.java:486-490 | the nested loops fill d with the local table |
| Dtw.SelectMin | java/de/dfki/lt/mary/unitselection/voiceimport/CARTBuilder.java:510-513 | the cost and count stored are those in the slot the comparisons choose |
| Dtw.CornerRecurrence | java/de/dfki/lt/mary/unitselection/voiceimport/CARTBuilder.java:506-513 | cell (1,1) chooses among 2d(0,1)+d(1,1) with count 3, D(0,0)+2d(1,1) with count Nd(0,0)+2, and 2d(1,0)+d(1,1) with count 3 |
| Dtw.SecondRowRecurrence | java/de/dfki/lt/mary/unitselection/voiceimport/CARTBuilder.java:516-524 | cell (i,1) for i >= 2 chooses among the double-row move from (i-2,0), the diagonal from (i-1,0) and the fixed 2d(i,0)+d(i,1) with count 3 |
| Dtw.SecondColumnRecurrence | java/de/dfki/lt/mary/unitselection/voiceimport/CARTBuilder.java:526-535 | cell (1,j) for j >= 2 chooses among the fixed 2d(0,j)+d(1,j) with count 3, the diagonal from (0,j-1) and the double-column move from (0,j-2) |
| Dtw.InteriorRecurrence | java/de/dfki/lt/mary/unitselection/voiceimport/CARTBuilder.java:540-551 | an interior cell chooses among the three moves of the recurrence; the double-row slot carries the double-column count Nd(i-1,j-2)+3 and the double-column slot the stale count |
| Dtw.FillFirstRowColumn | java/de/dfki/lt/mary/unitselection/voiceimport/CARTBuilder.java:494-502 | D(0,0) = 2d(0,0) with count 0; every other cell of the first row and column holds d with count 1 |
| Dtw.FillCorner | java/de/dfki/lt/mary/unitselection/voiceimport/CARTBuilder.java:506-513 | the corner cell (1,1) agrees with the reference table, the first row and column are kept |
| Dtw.SecondRowCell | java/de/dfki/lt/mary/unitselection/voiceimport/CARTBuilder.java:516-524 | one step of the second-row loop writes cell (i,1) as the reference table has it and no other cell |
| Dtw.FillSecondRow | java/de/dfki/lt/mary/unitselection/voiceimport/CARTBuilder.java:516-524 | after the loop every cell (i,1) agrees with the reference table |
| Dtw.SecondColumnCell | java/de/dfki/lt/mary/unitselection/voiceimport/CARTBuilder.java:526-535 | one step of the second-column loop writes cell (1,j) as the reference table has it, leaves Nd(0,j-2)+3 in minNd[2] and changes no other cell |
| Dtw.FillSecondColumn | java/de/dfki/lt/mary/unitselection/voiceimport/CARTBuilder.java:526-535 | after the loop every cell (1,j) agrees with the reference table and minNd[2] holds the stale count |
| Dtw.InteriorCell | java/de/dfki/lt/mary/unitselection/voiceimport/CARTBuilder.java:540-551 | one interior step writes cell (i,j) as the reference table has it, keeps the stale minNd[2] and changes no other cell |
| Dtw.FillInterior | java/de/dfki/lt/mary/unitselection/voiceimport/CARTBuilder.java:540-551 | after the nested loops every cell of D and Nd agrees with the reference table |
| Dtw.DtwDist | java/de/dfki/lt/mary/unitselection/voiceimport/CARTBuilder.java:470-555 | the method returns the reference DTW result: an error for an empty sequence, a zero-count error carrying the final cost D(l1-1,l2-1) when Nd(l1-1,l2-1) = 0, otherwise D(l1-1,l2-1)/Nd(l1-1,l2-1) |
| DtwProperties.StepCount | java/de/dfki/lt/mary/unitselection/voiceimport/CARTBuilder.java:538-551 | a filled cell off the first row and column gets a count of at least 2 when its predecessors' counts are non-negative |
| DtwProperties.Counts | java/de/dfki/lt/mary/unitselection/voiceimport/CARTBuilder.java:494-551 | Nd(0,0) = 0, the other cells of the first row and column have count 1, all other cells count >= 2 |
| DtwProperties.StepIsCheapestMove | java/de/dfki/lt/mary/unitselection/voiceimport/CARTBuilder.java:454-458 | every filled cell off the first row and column costs the least of its available moves and equals one of them |
| DtwProperties.StepCostNonNegative | java/de/dfki/lt/mary/unitselection/voiceimport/CARTBuilder.java:454-458 | one step keeps the cost non-negative over a non-negative local table |
| DtwProperties.CostNonNegative | java/de/dfki/lt/mary/unitselection/voiceimport/CARTBuilder.java:454-458 | every cumulated cost is >= 0 over a non-negative local table |
| DtwProperties.DiagonalCostZero | java/de/dfki/lt/mary/unitselection/voiceimport/CARTBuilder.java:454-458 | with a zero local diagonal the cumulated cost along the diagonal is 0 |
| DtwProperties.SelfLocalTable | java/de/dfki/lt/mary/unitselection/voiceimport/CARTBuilder.java:486-490 | comparing a unit with itself gives a non-negative local table with a zero diagonal |
| DtwProperties.Outcomes | java/de/dfki/lt/mary/unitselection/voiceimport/CARTBuilder.java:470-555 | the result is Err(EmptySequence) exactly when a sequence is empty, a zero-count error exactly when both have one frame, then carrying the cost 2*mahalanobis(s1[0], s2[0]), and a value exactly otherwise |
| DtwProperties.SelfFinalCell | java/de/dfki/lt/mary/unitselection/voiceimport/CARTBuilder.java:494-554 | a unit of two or more frames compared with itself ends at cost 0 with a positive count |
| DtwProperties.SelfDistanceZero | java/de/dfki/lt/mary/unitselection/voiceimport/CARTBuilder.java:470-555 | the DTW distance of a unit of two or more frames to itself is 0 |
| DtwProperties.DistanceNonNegative | java/de/dfki/lt/mary/unitselection/voiceimport/CARTBuilder.java:470-555 | with positive variances every defined DTW distance is >= 0 |
| DtwProperties.Transpose | java/de/dfki/lt/mary/unitselection/voiceimport/CARTBuilder.java:486-490 | the transposed table swaps the roles of the two units |
| DtwProperties.StepCostIsMinStep | java/de/dfki/lt/mary/unitselection/voiceimport/CARTBuilder.java:454-458 | one step of the fill equals the plain minimum over the three moves |
| DtwProperties.CostIsMinCost | java/de/dfki/lt/mary/unitselection/voiceimport/CARTBuilder.java:454-458 | every cumulated cost equals the independent minimum-cost recurrence, which ignores the tie order |
| DtwProperties.Min3Swap | java/de/dfki/lt/mary/unitselection/voiceimport/CARTBuilder.java:454-458 | the least of three costs does not depend on their order |
| DtwProperties.MinStepTranspose | java/de/dfki/lt/mary/unitselection/voiceimport/CARTBuilder.java:454-458 | one step of the minimum recurrence commutes with transposition, the double-row and double-column moves trading places |
| DtwProperties.MinCostTranspose | java/de/dfki/lt/mary/unitselection/voiceimport/CARTBuilder.java:454-458 | the minimum cost of cell (i,j) equals that of cell (j,i) of the transposed table |
| DtwProperties.CostTranspose | java/de/dfki/lt/mary/unitselection/voiceimport/CARTBuilder.java:454-458 | the cumulated cost of cell (i,j) equals that of cell (j,i) of the transposed table |
| DtwProperties.LocalTableTranspose | java/de/dfki/lt/mary/unitselection/voiceimport/CARTBuilder.java:486-490 | swapping the units transposes the local table |
| DtwProperties.CumulatedCostSymmetric | java/de/dfki/lt/mary/unitselection/voiceimport/CARTBuilder.java:494-554 | the final cumulated cost is the same for both orders of the two units |
| DtwProperties.NormalisedNotSymmetric | java/de/dfki/lt/mary/unitselection/voiceimport/CARTBuilder.java:516-535 | units of 4 and 2 frames give 0.25 one way and 1/3 the other: a tie at (3,1) goes to slot 0, which holds a different move, with a different count, in the second-row and second-column loops |
| DtwProperties.StaleDoubleColumnCount | java/de/dfki/lt/mary/unitselection/voiceimport/CARTBuilder.java:543-548 | a concrete 3×3 table where the interior double-column winner takes the stale count 3, not its own Nd(1,0)+3 = 4 |
| PooledVariance.Variance | java/de/dfki/lt/mary/unitselection/voiceimport/CARTBuilder.java:366-406 | the reference pooled variance: none without frames, otherwise the formula of line 405 per coefficient; ComputeVariance is proved equal to it and Shortcut ties it to the mean squared deviation |
| PooledVariance.Sum | java/de/dfki/lt/mary/unitselection/voiceimport/CARTBuilder.java:395-397 | the running sum of coefficient k over the frames; AddFrame, AddUnit and Statistics are proved to accumulate it, AppendFrame and ConstantSums characterise it |
| PooledVariance.SumSq | java/de/dfki/lt/mary/unitselection/voiceimport/CARTBuilder.java:395-398 | the running sum of the squares of coefficient k; AddFrame, AddUnit and Statistics are proved to accumulate it, SqDevExpand ties it to the squared deviations |
| PooledVariance.Finalised | java/de/dfki/lt/mary/unitselection/voiceimport/CARTBuilder.java:403-405 | the finalisation formula (sumSq - sum^2/N)/N; Finalize is proved to apply it and Shortcut proves it is the mean squared deviation |
| PooledVariance.AllFramesShape | java/de/dfki/lt/mary/unitselection/voiceimport/CARTBuilder.java:372-400 | the frames of all units have order coefficients each, and there are none exactly when every unit is empty |
| PooledVariance.SqDevExpand | java/de/dfki/lt/mary/unitselection/voiceimport/CARTBuilder.java:394-405 | the sum of squared deviations from m equals sumSq - 2*m*sum + N*m^2 |
| PooledVariance.Shortcut | java/de/dfki/lt/mary/unitselection/voiceimport/CARTBuilder.java:403-406 | the formula (sumSq - sum^2/N)/N equals the mean squared deviation from the mean |
| PooledVariance.SqDevNonNegative | java/de/dfki/lt/mary/unitselection/voiceimport/CARTBuilder.java:403-406 | a sum of squared deviations is >= 0 |
| PooledVariance.VarianceNonNegative | java/de/dfki/lt/mary/unitselection/voiceimport/CARTBuilder.java:403-406 | with N > 0 every pooled variance is >= 0 |
| PooledVariance.ConstantSums | java/de/dfki/lt/mary/unitselection/voiceimport/CARTBuilder.java:394-399 | a coefficient constant at c sums to N*c and has no deviation from c |
| PooledVariance.ConstantHasZeroVariance | java/de/dfki/lt/mary/unitselection/voiceimport/CARTBuilder.java:403-406 | a coefficient with the same value in every frame has variance 0 |
| PooledVariance.AddFrame | java/de/dfki/lt/mary/unitselection/voiceimport/CARTBuilder.java:395-399 | each coefficient of one frame is added to sum and its square to sumSq, nothing else changes |
| PooledVariance.AppendFrame | java/de/dfki/lt/mary/unitselection/voiceimport/CARTBuilder.java:395-399 | one more frame adds its coefficient to Sum and its square to SumSq |
| PooledVariance.AddUnit | java/de/dfki/lt/mary/unitselection/voiceimport/CARTBuilder.java:391-400 | after the frames of one unit, sum and sumSq hold the sums over all frames so far |
| PooledVariance.Statistics | java/de/dfki/lt/mary/unitselection/voiceimport/CARTBuilder.java:366-401 | N is the total number of frames, and sum and sumSq are the sums of x and x*x over all frames of all units |
| PooledVariance.Finalize | java/de/dfki/lt/mary/unitselection/voiceimport/CARTBuilder.java:402-406 | no variance when N = 0, otherwise sigma2[k] = (sumSq[k] - sum[k]^2/N)/N for each k |
| PooledVariance.ComputeVariance | java/de/dfki/lt/mary/unitselection/voiceimport/CARTBuilder.java:366-406 | the result is the mean squared deviation from the mean per coefficient over all frames, or none when there are no frames |
| DistanceMatrix.PairEntry | java/de/dfki/lt/mary/unitselection/voiceimport/CARTBuilder.java:421-428 | the reference value of one double assignment: 0, 100000, or the DTW entry with its undefined causes; UnitDistance is proved equal to it |
| DistanceMatrix.MatrixEntry | java/de/dfki/lt/mary/unitselection/voiceimport/CARTBuilder.java:409-433 | the closed form of the final matrix; LastWriteWins proves the loops end there, and Symmetric, Diagonal, Defined and NonNegative characterise it |
| DistanceMatrix.UnitDistance | java/de/dfki/lt/mary/unitselection/voiceimport/CARTBuilder.java:421-428 | both units empty give 0, one empty gives 100000, otherwise the DTW value, undefined where its division is by zero |
| DistanceMatrix.AfterIsPartial | java/de/dfki/lt/mary/unitselection/voiceimport/CARTBuilder.java:410-433 | after i rows of the outer loop the matrix is the closed form of the writes of rows 0 .. i-1 |
| DistanceMatrix.LastWriteWins | java/de/dfki/lt/mary/unitselection/voiceimport/CARTBuilder.java:410-433 | after the loops cell (a,b) holds the last write: the pair (max, min) of its indices, except the row and column of unit 0 |
| DistanceMatrix.FillRow | java/de/dfki/lt/mary/unitselection/voiceimport/CARTBuilder.java:412-432 | the inner loop writes each value into dist[i][j] and dist[j][i] for j from 1 |
| DistanceMatrix.ComputeMatrix | java/de/dfki/lt/mary/unitselection/voiceimport/CARTBuilder.java:409-433 | every cell of the new matrix holds its closed-form entry |
| DistanceMatrix.Symmetric | java/de/dfki/lt/mary/unitselection/voiceimport/CARTBuilder.java:412-428 | the final matrix is symmetric |
| DistanceMatrix.EmptyUnitEntries | java/de/dfki/lt/mary/unitselection/voiceimport/CARTBuilder.java:421-426 | two empty units are at distance 0, an empty and a non-empty unit at 100000 |
| DistanceMatrix.Diagonal | java/de/dfki/lt/mary/unitselection/voiceimport/CARTBuilder.java:411-428 | dist[0][0] = 0; for i >= 1 the diagonal is 0 unless unit i has exactly one frame, where it is undefined with cost 0 (0/0) |
| DistanceMatrix.Defined | java/de/dfki/lt/mary/unitselection/voiceimport/CARTBuilder.java:421-428 | with non-zero variances an entry is undefined exactly when it is off (0,0) and both units have one frame, then keeping the cost 2*mahalanobis of the two frames, and is otherwise the DTW value of its last write |
| DistanceMatrix.NonNegative | java/de/dfki/lt/mary/unitselection/voiceimport/CARTBuilder.java:421-428 | with positive variances every defined entry is >= 0 |
| DistanceMatrix.VarianceFitsUnits | java/de/dfki/lt/mary/unitselection/voiceimport/CARTBuilder.java:366-406 | the pooled variance has one entry per coefficient of every frame |
| DistanceMatrix.NoVarianceUnused | java/de/dfki/lt/mary/unitselection/voiceimport/CARTBuilder.java:402-428 | when there are no frames, so no variance, every entry is 0 and the variance is never used |
| DistanceMatrix.ConstantCoefficientUndefined | java/de/dfki/lt/mary/unitselection/voiceimport/CARTBuilder.java:403-428 | a coefficient constant over all frames gives it variance 0, and every entry off (0,0) between two non-empty units is then undefined by a zero variance |
| DistanceMatrix.TwoUnitLeaf | java/de/dfki/lt/mary/unitselection/voiceimport/CARTBuilder.java:366-433 | an empty unit and a two-frame unit give the variance 1 and the matrix [[0, 100000], [100000, 0]] |
| DistanceMatrix.DistanceTable | java/de/dfki/lt/mary/unitselection/voiceimport/CARTBuilder.java:366-433 | the variance, then the matrix loops, give the closed-form matrix under the pooled variance of the leaf |
| MatrixText.MatrixText | java/de/dfki/lt/mary/unitselection/voiceimport/CARTBuilder.java:437-442 | the reference distance file; WriteMatrix is proved to write it and MatrixTextParses reads it back |
| MatrixText.WriteRow | java/de/dfki/lt/mary/unitselection/voiceimport/CARTBuilder.java:438-440 | one row is appended as each entry's text followed by a space |
| MatrixText.WriteMatrix | java/de/dfki/lt/mary/unitselection/voiceimport/CARTBuilder.java:437-442 | the file is every row's text followed by a newline |
| MatrixText.MatrixTextParses | java/de/dfki/lt/mary/unitselection/voiceimport/CARTBuilder.java:437-442 | the file splits into one line per row and one empty piece after the last newline, each line into the entry texts and one empty piece |
| MatrixText.BuildAndDumpDistanceTables | java/de/dfki/lt/mary/unitselection/voiceimport/CARTBuilder.java:340-446 | the text written for a leaf is the layout of its closed-form matrix |
| FeatureTable.TableText | java/de/dfki/lt/mary/unitselection/voiceimport/CARTBuilder.java:320-327 | the reference feature-vector file; DumpFeatureVectors is proved to write it and TableParses reads it back |
| FeatureTable.DumpFeatureVectors | java/de/dfki/lt/mary/unitselection/voiceimport/CARTBuilder.java:320-327 | the text is the lines "i feature-string" joined by newlines with none after the last |
| FeatureTable.LineParses | java/de/dfki/lt/mary/unitselection/voiceimport/CARTBuilder.java:322 | a line splits at its first space into the decimal index i and the feature string of vector i |
| FeatureTable.TableParses | java/de/dfki/lt/mary/unitselection/voiceimport/CARTBuilder.java:320-327 | with feature strings free of newlines the file splits into exactly one line per vector, line i starting with i |
| TextLayout.IndexOf | java/de/dfki/lt/mary/unitselection/voiceimport/CARTBuilder.java:437-442 | the separator search that `Split` uses to read the written layout back: the position is within the text, and at its end exactly when the separator does not occur |
| TextLayout.SplitTerminated | java/de/dfki/lt/mary/unitselection/voiceimport/CARTBuilder.java:437-442 | terminated items free of the terminator split back into the items and one empty piece |
| TextLayout.SplitJoined | java/de/dfki/lt/mary/unitselection/voiceimport/CARTBuilder.java:320-327 | at least one item, joined and free of the separator, splits back into the items |
| TextLayout.TerminatedAvoids | java/de/dfki/lt/mary/unitselection/voiceimport/CARTBuilder.java:437-442 | a character that no item contains and that is not the terminator does not occur in the text |
| TextLayout.Decimal | java/de/dfki/lt/mary/unitselection/voiceimport/CARTBuilder.java:322 | the decimal form of an index is non-empty and made of digits only |
| TextLayout.DecimalRoundTrip | java/de/dfki/lt/mary/unitselection/voiceimport/CARTBuilder.java:322 | the decimal form of an index reads back as that index |
| Features.NonEdge | java/de/dfki/lt/mary/unitselection/voiceimport/CARTBuilder.java:80-86 | the reference edge filter: the non-edge vectors in input order; RemoveEdges is proved equal to it and NonEdgeMembers, EdgesAccounted characterise it |
| Features.EdgeCount | java/de/dfki/lt/mary/unitselection/voiceimport/CARTBuilder.java:83-86 | the number of edge vectors, which line 86 reports as removed; RemoveEdges returns it and EdgesAccounted ties it to the kept list |
| Features.Trim | java/de/dfki/lt/mary/unitselection/voiceimport/CARTBuilder.java:110-111 | Java's `String.trim`: TrimStartSpec and TrimEndSpec state it removes exactly the blanks at both ends |
| Features.FeatureNames | java/de/dfki/lt/mary/unitselection/voiceimport/CARTBuilder.java:105-114 | the reference line filter: the trimmed lines that are neither blank nor start with #, in file order; ReadFeatureSequence is proved to compute it and NamesMembers, NamesAreTrimmed, NamesAppend characterise it |
| Features.RemoveEdges | java/de/dfki/lt/mary/unitselection/voiceimport/CARTBuilder.java:78-92 | the list holds the non-edge vectors in order, and the number removed is the number of edge vectors |
| Features.EdgesAccounted | java/de/dfki/lt/mary/unitselection/voiceimport/CARTBuilder.java:85-86 | kept plus removed is the number of vectors read |
| Features.NonEdgeMembers | java/de/dfki/lt/mary/unitselection/voiceimport/CARTBuilder.java:80-84 | a vector is kept exactly when it was read and is not an edge vector |
| Features.NonEdgeAppend | java/de/dfki/lt/mary/unitselection/voiceimport/CARTBuilder.java:80-84 | the filter keeps the input order |
| Features.TrimStartSpec | java/de/dfki/lt/mary/unitselection/voiceimport/CARTBuilder.java:110-111 | trimming the start removes exactly the longest prefix of characters up to U+0020 |
| Features.TrimEndSpec | java/de/dfki/lt/mary/unitselection/voiceimport/CARTBuilder.java:110-111 | trimming the end removes exactly the longest suffix of characters up to U+0020 |
| Features.TrimEmpty | java/de/dfki/lt/mary/unitselection/voiceimport/CARTBuilder.java:110 | a line trims to "" exactly when all its characters are blank |
| Features.TrimIdempotent | java/de/dfki/lt/mary/unitselection/voiceimport/CARTBuilder.java:110-111 | trimming a trimmed line changes nothing |
| Features.ReadFeatureSequence | java/de/dfki/lt/mary/unitselection/voiceimport/CARTBuilder.java:105-114 | the features are the trimmed lines that are neither blank nor start with '#', in file order |
| Features.NamesAreTrimmed | java/de/dfki/lt/mary/unitselection/voiceimport/CARTBuilder.java:110-111 | no feature read is empty or has blanks at its ends |
| Features.NamesMembers | java/de/dfki/lt/mary/unitselection/voiceimport/CARTBuilder.java:105-114 | a name is read exactly when some line names it after trimming |
| Features.NamesAppend | java/de/dfki/lt/mary/unitselection/voiceimport/CARTBuilder.java:105-114 | the lines are read in file order |
| Features.SingleLine | java/de/dfki/lt/mary/unitselection/voiceimport/CARTBuilder.java:110-111 | one line gives its trimmed form exactly when it names a feature |
| Features.IndentedCommentKept | java/de/dfki/lt/mary/unitselection/voiceimport/CARTBuilder.java:110-111 | the line "  #x" is kept as "#x", since only the untrimmed line is tested for '#' |
| Features.CommentSkipped | java/de/dfki/lt/mary/unitselection/voiceimport/CARTBuilder.java:110 | the line "#x" is skipped |
| Features.BlankLinesSkipped | java/de/dfki/lt/mary/unitselection/voiceimport/CARTBuilder.java:110-111 | empty and blank lines are skipped, and a name loses its trailing blanks |
| Refinement.Trace | java/de/dfki/lt/mary/unitselection/voiceimport/CARTBuilder.java:268-299 | the reference sequence of steps of the leaf loop, stopping after the first failed inducer call; ReplaceLeaves is proved to produce it and SuccessTrace, FailureEndsTrace, VisitsInOrder characterise it |
| Refinement.Refined | java/de/dfki/lt/mary/unitselection/voiceimport/CARTBuilder.java:289 | the tree after the loop: the leaves before the first failure are grown, the rest unchanged; ReplaceLeaves, ComputeAsWritten and Compute end there |
| Refinement.FirstFailure | java/de/dfki/lt/mary/unitselection/voiceimport/CARTBuilder.java:268-280 | the first leaf whose inducer call fails, where line 280 returns, or the number of leaves; FirstFailureSpec states both halves |
| Refinement.Cart.ReplaceLeaf | java/de/dfki/lt/mary/unitselection/voiceimport/CARTBuilder.java:289 | the replaced leaf is marked as grown, and the other leaves are unchanged |
| Refinement.ReplaceLeaves | java/de/dfki/lt/mary/unitselection/voiceimport/CARTBuilder.java:268-299 | the result is true exactly when no inducer call fails; the steps follow the five-step visit per leaf, stopping after the first failed call; exactly the leaves before it are replaced |
| Refinement.FirstFailureSpec | java/de/dfki/lt/mary/unitselection/voiceimport/CARTBuilder.java:279-280 | every leaf before the first failure succeeds, and the first failure fails |
| Refinement.SucceedsIffAll | java/de/dfki/lt/mary/unitselection/voiceimport/CARTBuilder.java:268-299 | the loop returns true exactly when every inducer call succeeds |
| Refinement.InducerCalls | java/de/dfki/lt/mary/unitselection/voiceimport/CARTBuilder.java:277-280 | the inducer is called k+1 times when leaf k is the first to fail, and once per leaf when none fails |
| Refinement.CallsAppend | java/de/dfki/lt/mary/unitselection/voiceimport/CARTBuilder.java:277-280 | inducer calls count additively over consecutive steps |
| Refinement.FailureEndsTrace | java/de/dfki/lt/mary/unitselection/voiceimport/CARTBuilder.java:279-280 | after a failed call nothing more happens: the trace ends with that call and touches no later leaf |
| Refinement.VisitsInRange | java/de/dfki/lt/mary/unitselection/voiceimport/CARTBuilder.java:268 | every step is about a leaf from the starting one to the last |
| Refinement.VisitsInOrder | java/de/dfki/lt/mary/unitselection/voiceimport/CARTBuilder.java:268 | the leaves are visited in order |
| Refinement.SuccessTrace | java/de/dfki/lt/mary/unitselection/voiceimport/CARTBuilder.java:268-295 | with no failure, leaf j takes the five steps dump features, dump distances, call inducer, read tree, replace, in positions 5j .. 5j+4 |
| Refinement.StraySemicolon | java/de/dfki/lt/mary/unitselection/voiceimport/CARTBuilder.java:139-143 | with the inducer called and every leaf replaced, compute as written reports failure, while the intended outcome is success |
| Refinement.ComputeOutcomeAsWritten | java/de/dfki/lt/mary/unitselection/voiceimport/CARTBuilder.java:137-159 | the outcome of compute as written: false whenever the inducer is used; StraySemicolon exhibits the case where it differs from the intended outcome |
| Refinement.ComputeOutcome | java/de/dfki/lt/mary/unitselection/voiceimport/CARTBuilder.java:137-159 | the intended outcome of compute: false only when the inducer is used and a leaf could not be replaced; Compute returns it and states it directly in terms of the inducer calls |
| Refinement.ComputeAsWritten | java/de/dfki/lt/mary/unitselection/voiceimport/CARTBuilder.java:137-159 | as written, compute returns false whenever the inducer is used, whatever replaceLeaves returns; with the inducer the tree has exactly the leaves before the first failed call replaced, without it the tree is unchanged |
| Refinement.Compute | java/de/dfki/lt/mary/unitselection/voiceimport/CARTBuilder.java:137-159 | corrected, compute returns true exactly when the inducer is not used or every leaf's inducer call succeeds; with the inducer the tree has exactly the leaves before the first failed call replaced, without it the tree is unchanged |

## Left out

- File and stream I/O are not modelled: the reader of the feature file, the feature-sequence file, the `PrintWriter`s, `dumpCART` and `importCART`. The two text layouts are modelled as strings.
- `MCepTimelineReader`, `UnitFileReader` and the datagram decoding are not modelled. The frames of a leaf are given as `melCep`, a sequence of units, each a sequence of frames of `order` coefficients. The `RuntimeException` on a failed read is not modelled.
- `FeatureArrayIndexer.deepSort`, the construction of the top-level tree (`CARTWagonFormat`), its text dump and `getNumNodes` are outside this model.
- In `Refinement`, the leaves are a snapshot sequence in leaf-iterator order. `replaceLeafByCart` only marks a leaf as grown, and the tree read from wagon's output is not represented.
- The wagon subprocess (`WagonCaller`) is the parameter `succeeds`. Writing the feature-definition file, `mkdir` of the wagon directory and the `IOException` rewrapping are not modelled.
- The conversion of the feature-sequence names to indices (`getFeatureIndex`, lines 116-120) is not modelled. It is a lookup in `FeatureDefinition`, which is not part of this model.
- The edge test (`isEdgeVector` at the edge feature's index) is the parameter `isEdge`. `toFeatureString` is the parameter `show`.
- Features.RemoveEdges: the final copy of the list into an array (lines 89-92) is not modelled; the kept list is returned as a sequence.
- Number formatting is the parameter `fmt`. This covers the `(float)` cast of each distance and Java's float-to-string conversion. That shows a zero-variance entry as `NaN`, and a single-frame entry as `Infinity` when its cost is positive and as `NaN` when its cost is 0. The cost is kept in `SingleFrames(cost)` so that `fmt` can tell the two apart.
- Floating point is not modelled: `double` is exact `real`. Overflow, rounding, NaN and Infinity are replaced by the explicit undefined outcomes above.
- `main`, the `System.getProperty` and `MaryProperties` reads (including `numProcesses`, which is never used), timing, `println` and `getProgress` are not modelled.
- PooledVariance.ConstantHasZeroVariance: only this direction is proved. The converse (a zero variance means the coefficient is constant) is not stated.
- DistanceMatrix.ConstantCoefficientUndefined: the zero-variance cause is derived from a constant coefficient, not from a zero variance directly, for the same reason.

## Findings

| source | as written | input that shows it | evidently intended | confidence | as-written member | corrected member |
|---|---|---|---|---|---|---|
| java/de/dfki/lt/mary/unitselection/voiceimport/CARTBuilder.java:139-143 | the `;` after `if (!replaceLeaves(...))` ends the `if`, and no braces enclose lines 141-142, so the message and `return false` run whenever `callWagon` is true | `callWagon` true and every inducer call succeeding: `compute` returns false | print the message and return false only when `replaceLeaves` fails: the `;` removed and lines 141-142 braced | high (not executed) | Refinement.ComputeAsWritten | Refinement.Compute |
