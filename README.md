# Verified model of a machine-learning scratch repository's core algorithms

This project models in Dafny four pieces of a collection of small Python
machine-learning scripts, and proves properties of the model:

- **Trust-region bisection** (`bisection.dfy`, module `Bisection`), from
  `Optimization/MultidimensionalBisection/MultidimensionalBisection2.py`.
  - Each outer cycle builds the box `x ± trust_range` around the current
    point.
  - Each inner step halves every coordinate of that box. The half kept is
    chosen by the sign of the gradient after a non-worsening step, and by
    the position relative to the previous point otherwise. The point then
    moves to the box's midpoint.
  - The inner loop runs until two consecutive points are within `epsilon`
    of each other.
  - The next iterate is the first of the two box corners and the best
    inner point that has the least value.
  - A restart loop keeps the best result of repeated runs from random
    starts.
  - Proved:
    - the box stays proper, nested in the trust region and exactly halved
      at each step;
    - the inner loop terminates, with an explicit bound on its steps;
    - the best point is the first point seen with the least value;
    - every outer cycle, and so a whole run, never ends worse than it
      started;
    - the restart loop keeps the earliest strict minimum.
- **k-nearest-neighbour imputation** (`nearest_neighbors.dfy`, module
  `NearestNeighbors`), from `Supervised/kNearestNeighbors.py`.
  - `min_k_indices` selects the indices of the `k` smallest entries by
    insertion into a sorted list. `MinKIndices` is proved to return exactly
    `k` distinct indices of the `k` smallest values, in non-decreasing order
    of value, with ties broken by the earlier index.
  - `kNN` drops the features to predict, measures distances with a
    caller-supplied metric, and writes into each row to classify the mean
    of the predicted features over its `k` nearest training rows.
    `KNN` is proved to do exactly that, in place, and to reject an index
    argument that is neither an integer nor a list.
- **Minibatching** (`minibatches.dfy`, module `Minibatches`), from
  `make_minibatches` in
  `Unsupervised/Autoencoders/ConvolutionalAutoencoder/ConvolutionalAutoencoder.py`.
  - The batches laid end to end are the permuted data set.
  - Every batch but the remainder batch has `batch_size` rows.
  - The function fails with `UnboundLocalError` when there is at least one
    row but fewer rows than the batch size (see Findings). With no rows at
    all it returns no batches.
- **Pong replay data handling** (`pong.dfy`, module `Pong`), from
  `ReinforcementLearning/Q-learning/Pong/OldUnsortedShit/Pong_temp.py`.
  - Bounded frame lists are updated in place.
  - `add_to_array` keeps `max_to_keep + len(added)` entries, because it
    measures the array before appending. Fed one step at a time, the
    replay memory settles at `max_to_keep + 1` entries.
  - The replay memory's four arrays stay aligned when each gets equally
    many new entries (one per step, four at an episode's start).
  - The sampled indices are distinct and lie in `[4, n)`. When `nsamples`
    is at least `n - 4`, every index of `[4, n)` is sampled, so there are
    `n - 4` of them (none when `n <= 4`). Otherwise exactly `nsamples` are
    sampled, except in one quirk: `nsamples == 0` with the most recent index
    requested still samples indices, `n - 5` of them for `n >= 6`, because
    `[:nsamples-1]` becomes `[:-1]`.
  - Every sampled state window is four frames long, and the next-state
    window is the state window shifted by one frame.
  - `stack_frames` reverses the frame order.
  - `process_raw_frame` crops the blue plane and takes the maximum of each
    downsampling block.

`results.dfy` (module `Results`) holds the `Result` datatype used for the
error paths.

Randomness is a parameter throughout:
- the permutation of `np.random.permutation`;
- the shuffle used by replay sampling;
- the jittered radius of the bisection's outer loop;
- the restart points.

The objective, gradient and distance metric are function parameters.

## Model

| member | source | states |
|---|---|---|
| Bisection.SqDist | Optimization/MultidimensionalBisection/MultidimensionalBisection2.py:84-85 | `d(x, y)` with the default 2-norm, squared, is never negative |
| Bisection.SqDistZero | Optimization/MultidimensionalBisection/MultidimensionalBisection2.py:83-85 | the Euclidean distance (compared squared) is zero exactly between equal points |
| Bisection.L1Dist | Optimization/MultidimensionalBisection/MultidimensionalBisection2.py:86-87 | the 1-norm distance is non-negative, zero exactly between equal points, and at least every coordinate difference |
| Bisection.LInfDistAt | Optimization/MultidimensionalBisection/MultidimensionalBisection2.py:88-89 | the max-norm distance is a coordinate's absolute difference that no other coordinate exceeds |
| Bisection.NormsCompare | Optimization/MultidimensionalBisection/MultidimensionalBisection2.py:83-89 | the max-norm distance lies between zero and the 1-norm distance, and is zero exactly between equal points |
| Bisection.SqDistUniform | Optimization/MultidimensionalBisection/MultidimensionalBisection2.py:111 | with every coordinate `c` apart, the inner loop's squared distance is `n c^2` |
| Bisection.Midpoint | Optimization/MultidimensionalBisection/MultidimensionalBisection2.py:139 | the new point is equidistant from both bounds in every coordinate |
| Bisection.Narrow | Optimization/MultidimensionalBisection/MultidimensionalBisection2.py:120-133 | the in-place pass moves, per coordinate, the upper bound to `x[i]` when the gradient (or the position relative to `y`) says so, else the lower bound |
| Bisection.NarrowHalves | Optimization/MultidimensionalBisection/MultidimensionalBisection2.py:120-139 | from a proper box centred at `x`, one pass moves exactly one bound per coordinate; the result is proper, nested and half as wide, and `x` is half the new width from the new midpoint |
| Bisection.InitialBox | Optimization/MultidimensionalBisection/MultidimensionalBisection2.py:105-106 | the box `x ± r` has width `2r`, lies in the trust region and is centred on `x` |
| Bisection.BoxProper | Optimization/MultidimensionalBisection/MultidimensionalBisection2.py:113 | the assertion `x_high - x_low > 0` holds exactly when the trust range is positive |
| Bisection.BoxStep | Optimization/MultidimensionalBisection/MultidimensionalBisection2.py:115-139 | one inner step keeps the box inside the trust region with its width halved, and the old point is in the trust region |
| Bisection.BestStep | Optimization/MultidimensionalBisection/MultidimensionalBisection2.py:134-136 | updating the best point only on strict improvement keeps it the earliest least-valued point seen |
| Bisection.FirstArgMin | Optimization/MultidimensionalBisection/MultidimensionalBisection2.py:143 | `np.argmin` gives an index of a least value, with every earlier value strictly larger |
| Bisection.NextChoice | Optimization/MultidimensionalBisection/MultidimensionalBisection2.py:141-145 | the next iterate is no worse than the best inner point, which is no worse than the start, and lies in the trust region |
| Bisection.Pow2AboveCount | Optimization/MultidimensionalBisection/MultidimensionalBisection2.py:111-139 | `2^k >= k + 1`, the growth the step bound relies on |
| Bisection.WidthTimesPow2 | Optimization/MultidimensionalBisection/MultidimensionalBisection2.py:139 | after `k` halvings the box width times `2^k` is the initial width `2r` |
| Bisection.WidthSign | Optimization/MultidimensionalBisection/MultidimensionalBisection2.py:139 | the box width stays positive exactly when the trust range is positive |
| Bisection.InnerStepsBounded | Optimization/MultidimensionalBisection/MultidimensionalBisection2.py:111-139 | while the squared step `n (w/2)^2` exceeds `eps^2`, the step count is below `StepBound(n, r, eps)` |
| Bisection.StepsLeft | Optimization/MultidimensionalBisection/MultidimensionalBisection2.py:111 | a true inner loop test at step `k` implies `k` is below the step bound, so the loop terminates |
| Bisection.InnerStep | Optimization/MultidimensionalBisection/MultidimensionalBisection2.py:115-139 | one inner step narrows the arrays as specified, keeps the box and best-point invariants, and moves half the new width in every coordinate |
| Bisection.OuterIteration | Optimization/MultidimensionalBisection/MultidimensionalBisection2.py:104-145 | fails exactly when the trust range is not positive; otherwise (`OuterResult`) returns a proper box in the trust region, the first least-valued inner point, and the first least of the three candidates, which is no worse than the start; the final midpoint is within `eps` of the last inner point, as the loop test demands; and the first inner step took the gradient branch, cutting `x0 ± r` at `x0` by the sign of `df(x0)` |
| Bisection.FirstStepGradient | Optimization/MultidimensionalBisection/MultidimensionalBisection2.py:108-125 | with `fy = np.inf` the test `fx <= fy` holds, so the first cut of the box `x0 ± r` keeps `[x0 - r, x0]` where `df(x0)[i] > 0` and `[x0, x0 + r]` elsewhere |
| Bisection.Advance | Optimization/MultidimensionalBisection/MultidimensionalBisection2.py:115-139 | an inner step inside the loop keeps the box and best-point invariants and records the box left by the first step, cut by the gradient's sign |
| Bisection.Conclude | Optimization/MultidimensionalBisection/MultidimensionalBisection2.py:111-145 | the state in which the inner loop's test `d(x, y) > eps` fails gives every fact of `OuterResult` |
| Bisection.MultiDimensionalBisection | Optimization/MultidimensionalBisection/MultidimensionalBisection2.py:97-153 | the result has the input's dimension, is never worse than the start, and has passed the outer test against the returned point `prev`, which is either the initial `10*x` or an earlier iterate no better than the start and no worse than the result; a settled start is returned unchanged; a non-positive trust range fails the first cycle's assertion |
| Bisection.KeepBetter | Optimization/MultidimensionalBisection/MultidimensionalBisection2.py:162-163 | the kept point is one of the two, no worse than either, and is the new one only on strict improvement |
| Bisection.BestOf | Optimization/MultidimensionalBisection/MultidimensionalBisection2.py:158-163 | the best point after a run of restarts is never worse than the starting `x_best` |
| Bisection.BestOfIsMinimum | Optimization/MultidimensionalBisection/MultidimensionalBisection2.py:158-163 | the best after the restarts is no worse than the start or any result, and is one of them |
| Bisection.BestOfIsFirst | Optimization/MultidimensionalBisection/MultidimensionalBisection2.py:162-163 | the best is the start or the earliest restart result reaching its value |
| Bisection.FirstAfterOneMore | Optimization/MultidimensionalBisection/MultidimensionalBisection2.py:162-163 | one more restart result keeps the best the earliest point reaching the best value |
| Bisection.RestartMonotone | Optimization/MultidimensionalBisection/MultidimensionalBisection2.py:158-163 | one more restart never makes the best worse, and changes it only on strict improvement |
| Bisection.Restarts | Optimization/MultidimensionalBisection/MultidimensionalBisection2.py:158-163 | the loop stops at the first best value at or below `1e-3` (or when results run out), and every earlier best was above it |
| NearestNeighbors.MinKIndices | Supervised/kNearestNeighbors.py:17-34 | the insertion loop returns a correct selection of the `k` smallest entries of `L` |
| NearestNeighbors.InsertIndex | Supervised/kNearestNeighbors.py:25-33 | the inner loop inserts `i` before the first larger entry (or appends it while fewer than `k`) and truncates to `k` |
| NearestNeighbors.InsertStep | Supervised/kNearestNeighbors.py:25-33 | one pass of the outer loop grows the list by one index up to `k` entries |
| NearestNeighbors.InsertPos | Supervised/kNearestNeighbors.py:25-28 | the insertion position is the first whose value exceeds the new one |
| NearestNeighbors.InsertPosIs | Supervised/kNearestNeighbors.py:25-31 | the position where the inner loop breaks is the insertion position |
| NearestNeighbors.InsertStepRanked | Supervised/kNearestNeighbors.py:23-33 | one outer pass turns a correct selection over the first `n` entries into one over the first `n + 1` |
| NearestNeighbors.InsertKeepsOrder | Supervised/kNearestNeighbors.py:27-28 | inserting at the insertion position keeps the list strictly ordered by value, then index |
| NearestNeighbors.DroppedComesLast | Supervised/kNearestNeighbors.py:29-30 | the index deleted by `del min_indices[-1]` comes after all `k` kept ones |
| NearestNeighbors.ExcludedStaysLast | Supervised/kNearestNeighbors.py:23-33 | an index left out earlier stays behind every kept index |
| NearestNeighbors.FirstIndexRanked | Supervised/kNearestNeighbors.py:21 | the starting list `[0]` is a correct selection over the first entry |
| NearestNeighbors.SelectKRanked | Supervised/kNearestNeighbors.py:17-34 | the list after the outer loop over the first `n` entries is a correct selection over them |
| NearestNeighbors.SelectK | Supervised/kNearestNeighbors.py:21-33 | the selected list only holds indices already visited |
| NearestNeighbors.RankedIsKSmallest | Supervised/kNearestNeighbors.py:16-18 | a correct selection has exactly `k` distinct in-range indices in non-decreasing value order, ties by index; no left-out entry is smaller, and a left-out tie comes later |
| NearestNeighbors.Reduced | Supervised/kNearestNeighbors.py:76-80 | a reduced vector is never longer than the vector |
| NearestNeighbors.KeptExactly | Supervised/kNearestNeighbors.py:78-80 | the kept positions are exactly those not listed to predict, in increasing order |
| NearestNeighbors.ReducedReadsKept | Supervised/kNearestNeighbors.py:76-80 | a reduced vector is the original read at the kept positions |
| NearestNeighbors.ReducedOutOfRange | Supervised/kNearestNeighbors.py:78-79 | a negative or too-large index to predict removes nothing, since `j not in` compares raw integers |
| NearestNeighbors.Reduce | Supervised/kNearestNeighbors.py:76-80 | the reduction loop over one vector builds the reduced vector |
| NearestNeighbors.ReduceAll | Supervised/kNearestNeighbors.py:74-86 | every vector is reduced in order |
| NearestNeighbors.Distances | Supervised/kNearestNeighbors.py:89-94 | entry `(c, t)` is the metric between reduced row `c` and reduced training vector `t` |
| NearestNeighbors.Neighbours | Supervised/kNearestNeighbors.py:97-99 | each row's neighbour list is the `min_k_indices` selection of its distances |
| NearestNeighbors.ColumnMean | Supervised/kNearestNeighbors.py:107-110 | the mean loop gives the column sum over the neighbours divided by `k_neighbors` |
| NearestNeighbors.ColumnSumBounded | Supervised/kNearestNeighbors.py:107-110 | the column sum lies between `|nb|` times the least and the greatest neighbour value |
| NearestNeighbors.ImputeRow | Supervised/kNearestNeighbors.py:106-111 | the row's target positions hold the neighbour means; every other position is unchanged |
| NearestNeighbors.ImputeAll | Supervised/kNearestNeighbors.py:105-111 | every row is imputed from its own neighbour list |
| NearestNeighbors.DistanceRow | Supervised/kNearestNeighbors.py:89-94 | one distance per training vector |
| NearestNeighbors.KNN | Supervised/kNearestNeighbors.py:48-112 | fails, writing nothing, exactly on an index argument of the wrong type; otherwise returns the caller's rows, each with its target features set to the mean over its `k` nearest training vectors, and other features unchanged |
| Minibatches.MakeMinibatches | Unsupervised/Autoencoders/ConvolutionalAutoencoder/ConvolutionalAutoencoder.py:59-70 | fails exactly on a zero batch size or on at least one but fewer rows than the batch size; otherwise gives `m // bs` full batches plus a remainder batch of `m % bs` rows, which laid end to end are `X[perm]` |
| Minibatches.MakeMinibatchesCorrected | Unsupervised/Autoencoders/ConvolutionalAutoencoder/ConvolutionalAutoencoder.py:59-70 | as intended: fails only on a zero batch size, and fewer rows than the batch size give one batch with all of them |
| Minibatches.BatchCountCovers | Unsupervised/Autoencoders/ConvolutionalAutoencoder/ConvolutionalAutoencoder.py:64-69 | `BatchCount`, the number of batches, is the least count of `batch_size`-row batches that covers all `m` rows |
| Minibatches.ConcatSnoc | Unsupervised/Autoencoders/ConvolutionalAutoencoder/ConvolutionalAutoencoder.py:66-69 | `Concat`, the batches laid end to end, grows by exactly the rows of each appended batch |
| Minibatches.PermutationLength | Unsupervised/Autoencoders/ConvolutionalAutoencoder/ConvolutionalAutoencoder.py:62 | `np.random.permutation(m)` has `m` entries |
| Minibatches.FullBatches | Unsupervised/Autoencoders/ConvolutionalAutoencoder/ConvolutionalAutoencoder.py:64-66 | the loop builds `m // bs` batches of `bs` rows covering the first `(m // bs) * bs` permuted rows |
| Minibatches.NextBatch | Unsupervised/Autoencoders/ConvolutionalAutoencoder/ConvolutionalAutoencoder.py:65 | appending the slice `[b*bs, (b+1)*bs)` extends the covered prefix by one batch |
| Minibatches.FullBatchIsSlice | Unsupervised/Autoencoders/ConvolutionalAutoencoder/ConvolutionalAutoencoder.py:65 | full batch `b` is the slice `[b*bs, (b+1)*bs)` of the batches laid end to end |
| Minibatches.ConcatLength | Unsupervised/Autoencoders/ConvolutionalAutoencoder/ConvolutionalAutoencoder.py:64-66 | the full batches laid end to end have `count * bs` rows |
| Minibatches.PermutedIsPermutation | Unsupervised/Autoencoders/ConvolutionalAutoencoder/ConvolutionalAutoencoder.py:62-63 | `X[perm]` holds the same rows as `X`, each as many times |
| Minibatches.PermutedPreservesMultiset | Unsupervised/Autoencoders/ConvolutionalAutoencoder/ConvolutionalAutoencoder.py:63 | index sequences with the same multiset select the same multiset of rows |
| Minibatches.Permuted | Unsupervised/Autoencoders/ConvolutionalAutoencoder/ConvolutionalAutoencoder.py:63 | `X[perm]` has one row per index |
| Pong.KeepLastTwice | ReinforcementLearning/Q-learning/Pong/OldUnsortedShit/Pong_temp.py:98-109 | bounding after each of two additions equals bounding once after both |
| Pong.KeepLast | ReinforcementLearning/Q-learning/Pong/OldUnsortedShit/Pong_temp.py:94-96 | popping from the front keeps the last `max` elements (all of them when fewer) |
| Pong.BoundedList.Add | ReinforcementLearning/Q-learning/Pong/OldUnsortedShit/Pong_temp.py:85-109 | `add_to_list` (and `add_to_frame_list`) appends in place, then keeps the last `max` elements; within the bound nothing is dropped, beyond it exactly `max` remain |
| Pong.BoundedList.AppendAll | ReinforcementLearning/Q-learning/Pong/OldUnsortedShit/Pong_temp.py:102-103 | the append loop adds the elements in order |
| Pong.AddToArray | ReinforcementLearning/Q-learning/Pong/OldUnsortedShit/Pong_temp.py:111-121 | the result is a suffix of `array + added` that keeps every added element; it has `max_to_keep + len(added)` elements once the old array was over the bound |
| Pong.AddToArrayKeepsLast | ReinforcementLearning/Q-learning/Pong/OldUnsortedShit/Pong_temp.py:111-121 | `add_to_array` keeps the last `max_to_keep + len(added)` elements |
| Pong.AddToArrayWithin | ReinforcementLearning/Q-learning/Pong/OldUnsortedShit/Pong_temp.py:118-121 | within the bound nothing is deleted |
| Pong.AddOneSteadyState | ReinforcementLearning/Q-learning/Pong/OldUnsortedShit/Pong_temp.py:111-121 | fed one value at a time the array grows to `max_to_keep + 1` and then slides by one |
| Pong.ReplayMemory.Add | ReinforcementLearning/Q-learning/Pong/OldUnsortedShit/Pong_temp.py:139-143 | each of the four arrays gets its new entries (one, or the four of an episode start) through `add_to_array`, and aligned arrays given equally many entries stay aligned |
| Pong.ReplayMemory.Sample | ReinforcementLearning/Q-learning/Pong/OldUnsortedShit/Pong_temp.py:145-176 | the sample holds, for each chosen index in order, its state window, next-state window, action, reward and done flag |
| Pong.Experiences | ReinforcementLearning/Q-learning/Pong/OldUnsortedShit/Pong_temp.py:163-170 | the accumulation loop gathers the windows `[idx-4, idx)` and `[idx-3, idx+1)` and the entries at `idx` |
| Pong.ChosenIndices | ReinforcementLearning/Q-learning/Pong/OldUnsortedShit/Pong_temp.py:152-161 | every chosen index lies in `[4, n)`, so each window is in range |
| Pong.ChosenIndicesCount | ReinforcementLearning/Q-learning/Pong/OldUnsortedShit/Pong_temp.py:152-161 | no index is chosen twice; all of `[4, n)` are chosen when `nsamples >= n-4`; otherwise exactly `nsamples` are, with `n-1` last when the most recent is included |
| Pong.ChosenWithRecent | ReinforcementLearning/Q-learning/Pong/OldUnsortedShit/Pong_temp.py:155-158 | the recent branch chooses distinct indices ending in `n-1`, `nsamples` of them when `nsamples >= 1` |
| Pong.ChosenWithoutRecent | ReinforcementLearning/Q-learning/Pong/OldUnsortedShit/Pong_temp.py:159-161 | the plain branch chooses `nsamples` distinct indices of `[4, n)` |
| Pong.ZeroSamplesWithRecent | ReinforcementLearning/Q-learning/Pong/OldUnsortedShit/Pong_temp.py:157-158 | with `nsamples == 0`, `[:nsamples-1]` drops only one index, so `n-5` indices are chosen |
| Pong.ShuffledInRange | ReinforcementLearning/Q-learning/Pong/OldUnsortedShit/Pong_temp.py:153 | a permutation of `arange(a, b)` has its length and entries in `[a, b)` |
| Pong.Range | ReinforcementLearning/Q-learning/Pong/OldUnsortedShit/Pong_temp.py:153 | `np.arange(a, b)` lists `a .. b-1` |
| Pong.WindowsShift | ReinforcementLearning/Q-learning/Pong/OldUnsortedShit/Pong_temp.py:166-167 | the next-state window is the state window shifted one frame later |
| Pong.Reverse | ReinforcementLearning/Q-learning/Pong/OldUnsortedShit/Pong_temp.py:125-127 | the stack has one channel per frame |
| Pong.ReverseAt | ReinforcementLearning/Q-learning/Pong/OldUnsortedShit/Pong_temp.py:127 | channel `i` is frame `-(1+i)` |
| Pong.ReverseReverse | ReinforcementLearning/Q-learning/Pong/OldUnsortedShit/Pong_temp.py:123-128 | stacking twice restores the frame order |
| Pong.StackFrames | ReinforcementLearning/Q-learning/Pong/OldUnsortedShit/Pong_temp.py:123-128 | a fresh stack whose channels are the frames newest first |
| Pong.Cropped | ReinforcementLearning/Q-learning/Pong/OldUnsortedShit/Pong_temp.py:58-60 | the (optionally cropped) channel-2 plane keeps the screen's width in every row |
| Pong.CropKeepsPlayField | ReinforcementLearning/Q-learning/Pong/OldUnsortedShit/Pong_temp.py:59-60 | cropping a full screen keeps the 160 rows from row 34 |
| Pong.RowMax | ReinforcementLearning/Q-learning/Pong/OldUnsortedShit/Pong_temp.py:67 | the maximum of a row segment is at least every pixel in it and equals one of them |
| Pong.BlockMax | ReinforcementLearning/Q-learning/Pong/OldUnsortedShit/Pong_temp.py:67 | the maximum of a block is at least every pixel in it and equals one of them |
| Pong.BlockFits | ReinforcementLearning/Q-learning/Pong/OldUnsortedShit/Pong_temp.py:63-65 | every downsampling block lies inside the grid |
| Pong.Cell | ReinforcementLearning/Q-learning/Pong/OldUnsortedShit/Pong_temp.py:65-67 | output cell `(i, j)` is the maximum of the `ds x ds` block at `(ds*i, ds*j)` |
| Pong.Downsample | ReinforcementLearning/Q-learning/Pong/OldUnsortedShit/Pong_temp.py:62-68 | a fresh `m//ds x n//ds` grid of block maxima |
| Pong.CellOfOne | ReinforcementLearning/Q-learning/Pong/OldUnsortedShit/Pong_temp.py:62 | with `ds == 1` each block is one pixel, so skipping the loops changes nothing |
| Pong.ProcessRawFrame | ReinforcementLearning/Q-learning/Pong/OldUnsortedShit/Pong_temp.py:57-68 | the cropped channel-2 plane, downsampled to block maxima |

## Left out

- TensorFlow, the gym environment, plotting, file I/O and printing are not modelled. In particular `train_model`, the network graphs, the Q-learning loop and the test harnesses are outside this model.
- Floating point is modelled as exact reals in every module. NaN and rounding are not captured, and neither are infinite values except the initial `np.inf` of the bisection.
- Randomness (`np.random.permutation`, `np.random.uniform`, `np.random.randn`) is given as parameters.
- Bisection.SqDist: the square root of `d(x, y)` is not taken. Instead `d(x, y) > eps` is stated as `SqDist(x, y) > eps^2`, which is equivalent for `eps > 0`.
- Bisection.L1Dist and Bisection.LInfDistAt: the `norm` switch of `d` is split into one function per norm. The bisection itself only uses the default 2-norm.
- Bisection.MultiDimensionalBisection: the outer test `max|x / x_prev - 1| > epsilon` is the parameter `unsettled`. The division involves zero coordinates and floating point.
  - The jittered radius of line 147 is the parameter `radius`.
  - The `maxCycles` bound stands in for the source's unbounded loop, and the `OutOfCycles` error for a run that has not settled. It does not model that the loop may never stop.
  - The step and cycle counters `n` and `m` are never read (the only print naming them, line 168, is commented out), so they are not modelled.
- Bisection.OuterIteration: line 146 (`fx = [...][a]`) indexes a five-element list with the index of a three-element list. `fx` is not read again before it is recomputed, so the line is left out.
- Bisection.OuterIteration: requires `eps > 0` and at least one coordinate. With `eps <= 0` the inner loop need not stop.
- Bisection.LInfDistAt: requires at least one coordinate, because `np.max` of an empty array raises; that error is not modelled as a `Failure`.
- Bisection.Restarts: takes the results of the restarts as a sequence, rather than calling the optimiser from random starts. It models the stopping rule and the strict-improvement update.
- The dotProduct and euclideanDist metrics of the kNN script are not modelled; `KNN` takes the metric as a parameter.
- NearestNeighbors.MinKIndices: requires `k >= 1`. The source asserts `len(L) >= k`. With `k = 0` and a non-empty `L` the source behaves as with `k = 1` and returns the first least index (`[1]` for `L = [3.0, 1.0]`), which the model does not describe; `kNN` would then raise `ZeroDivisionError` at kNearestNeighbors.py:110.
- NearestNeighbors.KNN: the `AssertionError` of `min_k_indices` (kNearestNeighbors.py:19) becomes the precondition `k_neighbors <= len(training)` whenever there is a row to classify.
- NearestNeighbors.KNN: Python index errors become preconditions:
  - the rows are rectangular;
  - indices are in range.
  - The vectors are modelled as real sequences. The `None` entries a caller might leave at the positions to predict are not modelled.
- NearestNeighbors.KNN: requires the rows to classify to be distinct arrays (`Unaliased`). The source accepts aliased rows: `copy.copy` (kNearestNeighbors.py:103) shares the row objects, all distances are computed (lines 89-99) before any write, and writes to a shared row at line 111 overwrite each other, so the means of the last such row win. The model does not describe that outcome.
- Pong: Python index errors become preconditions: aligned replay arrays and rectangular frames.
- Pong.ProcessRawFrame: requires `ds_factor >= 1`, the requirement stated in the docstring (Pong_temp.py:52). `ds_factor = 0` raises `ZeroDivisionError` at `m//ds_factor` (line 63), and a negative factor makes `np.zeros` raise `ValueError`; neither error is modelled.
- Pong frames are abstract values of type `F`. The memory of frames grows along its last axis by the frames of each call: one per step and four at an episode's start.
- Pong.StackFrames: copies whole frames into the stack's channels; the pixel copy `[0,:,:,0]` is abstracted.
- Pong.ProcessRawFrame: covers the grey-scale branch only. The colour branch (the same block maximum per channel) and the final reshape and `(x-115)/230` normalisation are not modelled.
- Pong.ProcessRawFrame: for `ds_factor != 1` the source's reshape to `out_shape` (Pong_temp.py:69,83) uses the undownsampled sizes `m` and `n`, so it raises for any non-empty screen. The downsampled grid this member returns is what the loops compute, not something the source ever returns.
- The type assertions of `add_to_frame_list`, `add_to_list` and `add_to_array` (Pong_temp.py:87,100,112) are not modelled, since the model's types already fix the argument kinds. Neither are `make_minibatches`' `batch_axis` parameter (the batches are taken along the first axis) or negative batch sizes, which `nat` excludes.
- Pong: the `[:diff]` deletion of `add_to_array` applies to the last axis of the frame array. It is modelled on one axis of whole entries.

## Findings

| source | as written | input that shows it | evidently intended | confidence | as-written member | corrected member |
|---|---|---|---|---|---|---|
| Unsupervised/Autoencoders/ConvolutionalAutoencoder/ConvolutionalAutoencoder.py:67-68 | the remainder batch starts at `(b + 1) * batch_size`, reading the loop variable `b` | `m = 3`, `batch_size = 5`: the loop never runs, `b` is unbound, and `UnboundLocalError` is raised | the remainder starts at `(m // batch_size) * batch_size`, so one batch holds all `m` rows | high (not executed) | Minibatches.MakeMinibatches | Minibatches.MakeMinibatchesCorrected |
