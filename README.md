# Byte histogram: serial pass and partitioned reduction

This Dafny project models the histogram reducer in `ch05/fig_5_27-bis.cpp`
(from the Pro TBB book examples). The program builds an image of
`uint8_t` samples and computes its 256-bin histogram twice:

- once with a serial `for_each` that does `hist[i]++` for each sample;
- once with `parallel_reduce`, using the identity `vector_t(num_bins)`, a
  leaf body that increments a private accumulator over one sub-range, and
  a merge that adds two histograms bin by bin.

At the end the program warns if the two results differ.

The model proves that this warning can never fire: every partition of the
image into contiguous, non-overlapping, gap-free pieces gives the serial
histogram. This holds for every tree shape and order of merges, and also
when the scheduler reuses an accumulator across sub-ranges.

Files:

- `samples.dfy`, module `Samples`. It defines the sample type `byte`,
  `NumBins`, `Count` (the reference count of one value), `Histogram` and
  `Sum`. It also holds the lemmas on order independence, conservation and
  counter bounds.
- `reduction.dfy`, module `Reduction`. It holds the reduction as values:
  - `Zero`, the identity;
  - `Merged`, the merge lambda;
  - `Accumulated`, the leaf body as a left fold over a sub-range;
  - `ReduceSplits`, a partition given as split points, folded with merge;
  - `Plan`, `Extent` and `Reduce`, any combine tree. A node is a leaf
    from the identity, a leaf that reuses an earlier accumulator, or a
    merge of two adjacent parts in either order.

  The lemmas connect each of these to `Histogram`.
- `passes.dfy`, module `Passes`. It holds the imperative code: the serial
  loop over a counter array, the leaf body and the merge as loops over a
  private copy, a driver that runs them as a `Plan` says, and the final
  comparison.

## Model

| member | source | states |
|---|---|---|
| `Samples.Count` | ch05/fig_5_27-bis.cpp:51-56 | No bin counts more samples than the image holds. |
| `Samples.HistogramConserves` | ch05/fig_5_27-bis.cpp:51-56 | Conservation: the bins of the histogram add up to the number of samples `n`. |
| `Samples.HistogramIsOrderIndependent` | ch05/fig_5_27-bis.cpp:55-56 | Two sample sequences have the same histogram exactly when they are permutations of each other. Reordering the samples does not change the result. |
| `Samples.CountersFitInt` | ch05/fig_5_27-bis.cpp:36-51 | With fewer than 2^31 samples (the program uses 10^9), no bin exceeds the range of the `int` counters of `vector<int>`. |
| `Reduction.EmptyHistogramIsZero` | ch05/fig_5_27-bis.cpp:66 | The histogram of no samples is the identity `vector_t(num_bins)`. |
| `Reduction.MergeZero` | ch05/fig_5_27-bis.cpp:66-77 | Merging with the identity returns the other argument unchanged, on either side. |
| `Reduction.MergeCommutes` | ch05/fig_5_27-bis.cpp:74-77 | Merge is commutative. |
| `Reduction.MergeAssociates` | ch05/fig_5_27-bis.cpp:74-77 | Merge is associative, so partials may be paired in any tree shape. |
| `Reduction.HistogramAppend` | ch05/fig_5_27-bis.cpp:64-77 | The histogram of two adjacent pieces is the merge of their histograms. |
| `Reduction.Accumulated` | ch05/fig_5_27-bis.cpp:68-72 | The leaf body returns an accumulator of the same length, `num_bins`. |
| `Reduction.AccumulatedCounts` | ch05/fig_5_27-bis.cpp:68-72 | The leaf body raises each bin `b` of `v` by the number of samples in the range equal to `b`, and changes nothing else. |
| `Reduction.AccumulatedConcat` | ch05/fig_5_27-bis.cpp:68-72 | Running the leaf body on `r1 ++ r2` equals running it on `r2` from its result on `r1`. |
| `Reduction.AccumulatedIsMerge` | ch05/fig_5_27-bis.cpp:64-77 | Running the leaf body from an accumulator `v` equals merging `v` with the histogram of the range. So reusing an accumulator gives the same totals as starting from the identity. |
| `Reduction.LeafFromZero` | ch05/fig_5_27-bis.cpp:66-72 | The leaf body started from the identity yields the histogram of its sub-range. |
| `Reduction.ReduceSplits` | ch05/fig_5_27-bis.cpp:64-77 | Folding the leaf results of split-point pieces with merge yields a `num_bins` histogram. |
| `Reduction.ReduceSplitsCovers` | ch05/fig_5_27-bis.cpp:64-77 | For ascending split points, the folded partials equal the histogram of the covered range. |
| `Reduction.ReduceSplitsIsSerial` | ch05/fig_5_27-bis.cpp:55-85 | Every contiguous partition of `[0, n)` into pieces, reduced from the identity with merge, equals the serial histogram. |
| `Reduction.Extent` | ch05/fig_5_27-bis.cpp:64-65 | A combine tree whose pieces fit together covers a well-formed range, `lo <= hi`. |
| `Reduction.Reduce` | ch05/fig_5_27-bis.cpp:64-77 | Any combine tree of leaf bodies, accumulator reuse and merges yields a `num_bins` histogram. |
| `Reduction.ReduceCovers` | ch05/fig_5_27-bis.cpp:64-77 | Any tree shape, any order of adjacent parts and any accumulator reuse yields the histogram of the covered range. |
| `Reduction.ReduceIsSerial` | ch05/fig_5_27-bis.cpp:55-85 | Every combine tree that covers the whole image yields exactly the serial histogram: the equality tested at line 85. |
| `Reduction.SinglePieceIsSerial` | ch05/fig_5_27-bis.cpp:64-85 | A reduction with a single piece equals the serial result. |
| `Reduction.EmptyImageGivesZero` | ch05/fig_5_27-bis.cpp:64-77 | With `n == 0`, every valid plan yields all zeros. |
| `Passes.SerialHistogram` | ch05/fig_5_27-bis.cpp:51-56 | The serial pass yields, for each `b < 256`, `hist[b]` equal to the number of samples equal to `b`, and the bins sum to `n`. Every `hist[i]++` index is in bounds with no check on the samples. |
| `Passes.LeafBody` | ch05/fig_5_27-bis.cpp:68-72 | Returns the by-value copy of `v`, of the same length, with each bin `b` raised by the count of `b` in `image[lo..hi]`. This is the fold `Accumulated`. |
| `Passes.Merge` | ch05/fig_5_27-bis.cpp:74-77 | Returns `num_bins` counters with `r[i] == a[i] + b[i]`. `b` is a value and stays unchanged. |
| `Passes.ParallelReduce` | ch05/fig_5_27-bis.cpp:64-77 | Running the two lambdas as a plan says computes `Reduce`, which is the histogram of the covered range. |
| `Passes.CheckEquivalence` | ch05/fig_5_27-bis.cpp:85-86 | For every plan that covers the whole image, `hist != hist_p` is false, so the mismatch warning never fires. |

## Left out

- Random sample generation (lines 40-49) is not modelled. The image is any
  sequence of bytes. The generator draws from
  `uniform_int_distribution<>{0, num_bins}`, which includes both ends, so it
  can draw 256, and storing 256 in a `uint8_t` gives 0. That draw belongs to
  the generator, not to the reducer. The reducer never sees a value outside
  `0..255`, because the element type is `uint8_t`. So the model needs no
  precondition on the samples, and it has no bounds-checking error path.
- The `tbb::tick_count` timing, the speed-up arithmetic in `double`, and
  the console output (lines 54, 57-58, 63, 78-83, 86) are I/O and floating
  point. Only the comparison at line 85 is modelled: its result is
  `CheckEquivalence`'s postcondition.
- The TBB `parallel_reduce` scheduler and the `blocked_range` splitting
  policy are not modelled. Neither are worker threads, concurrency or the
  unused `nth` (line 37). What a run does is given as a `Plan` or as split
  points, and the model proves the result for every such choice.
  `ParallelReduce` runs the plan's steps one after another.
- The concrete size `n = 1000000000` and the `reserve` call (lines 36, 46)
  are not modelled. The image has arbitrary length.
- The counters are unbounded `nat`, not 32-bit `int`. `CountersFitInt`
  shows that no bin can exceed `n`, so with the program's `n` no counter
  overflows.
- Every histogram in the program is built as `vector_t(num_bins)`. So the
  leaf body and the merge require `num_bins`-long inputs, and the model does
  not cover vectors of other lengths.
