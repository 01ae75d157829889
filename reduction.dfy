/** The parallel reduction as values: the identity `vector_t(num_bins)`, the
    leaf body (a fold over one sub-range), the merge (bin-wise addition),
    and the result of any partition of the image combined in any order. */
module Reduction {
  import opened Samples

  /** Every `vector_t` of the reduction is built with `num_bins` counters. */
  predicate IsHistogram(h: seq<nat>)
  {
    |h| == NumBins
  }

  /** The identity of the reduction, `vector_t(num_bins)`: all counters zero. */
  function Zero(): seq<nat>
  {
    seq(NumBins, _ => 0)
  }

  /** The merge lambda: the two histograms added bin by bin. */
  function Merged(a: seq<nat>, b: seq<nat>): seq<nat>
    requires IsHistogram(a) && IsHistogram(b)
  {
    seq(NumBins, i requires 0 <= i < NumBins => a[i] + b[i])
  }

  /** The leaf body: the accumulator `v` after one increment of `v[x]` for
      every sample `x` of `xs`, visited left to right. It keeps the length. */
  function Accumulated(v: seq<nat>, xs: seq<byte>): (r: seq<nat>)
    requires IsHistogram(v)
    ensures IsHistogram(r)
    decreases |xs|
  {
    if xs == [] then v
    else Accumulated(v[xs[0] as int := v[xs[0] as int] + 1], xs[1..])
  }

  /** With no samples the histogram is the identity. */
  lemma EmptyHistogramIsZero()
    ensures Histogram([]) == Zero()
  {
  }

  /** The identity is neutral for merge, on either side. */
  lemma MergeZero(h: seq<nat>)
    requires IsHistogram(h)
    ensures Merged(Zero(), h) == h && Merged(h, Zero()) == h
  {
  }

  /** Merge is commutative. */
  lemma MergeCommutes(a: seq<nat>, b: seq<nat>)
    requires IsHistogram(a) && IsHistogram(b)
    ensures Merged(a, b) == Merged(b, a)
  {
  }

  /** Merge is associative. */
  lemma MergeAssociates(a: seq<nat>, b: seq<nat>, c: seq<nat>)
    requires IsHistogram(a) && IsHistogram(b) && IsHistogram(c)
    ensures Merged(Merged(a, b), c) == Merged(a, Merged(b, c))
  {
  }

  /** The histogram of two adjacent pieces is the merge of their histograms. */
  lemma HistogramAppend(s: seq<byte>, t: seq<byte>)
    ensures Histogram(s + t) == Merged(Histogram(s), Histogram(t))
  {
    forall b | 0 <= b < NumBins
      ensures Histogram(s + t)[b] == Histogram(s)[b] + Histogram(t)[b]
    {
      CountAppend(s, t, b);
    }
  }

  /** The leaf body raises each bin `b` of `v` by the number of samples of
      `xs` equal to `b`. */
  lemma {:induction false} AccumulatedCounts(v: seq<nat>, xs: seq<byte>, b: nat)
    requires IsHistogram(v) && b < NumBins
    ensures Accumulated(v, xs)[b] == v[b] + Count(xs, b)
    decreases |xs|
  {
    if xs != [] {
      AccumulatedCounts(v[xs[0] as int := v[xs[0] as int] + 1], xs[1..], b);
    }
  }

  /** Running the leaf body from an accumulator is merging the accumulator
      with the histogram of the sub-range: reusing an accumulator across
      sub-ranges gives the same totals as starting each from the identity. */
  lemma AccumulatedIsMerge(v: seq<nat>, xs: seq<byte>)
    requires IsHistogram(v)
    ensures Accumulated(v, xs) == Merged(v, Histogram(xs))
  {
    forall b | 0 <= b < NumBins
      ensures Accumulated(v, xs)[b] == v[b] + Histogram(xs)[b]
    {
      AccumulatedCounts(v, xs, b);
    }
  }

  /** The leaf body started from the identity yields the histogram of its
      sub-range. */
  lemma LeafFromZero(xs: seq<byte>)
    ensures Accumulated(Zero(), xs) == Histogram(xs)
  {
    AccumulatedIsMerge(Zero(), xs);
    MergeZero(Histogram(xs));
  }

  /** Running the leaf body on `xs + ys` is running it on `ys` from its
      result on `xs`. */
  lemma {:induction false} AccumulatedConcat(v: seq<nat>, xs: seq<byte>, ys: seq<byte>)
    requires IsHistogram(v)
    ensures Accumulated(v, xs + ys) == Accumulated(Accumulated(v, xs), ys)
    decreases |xs|
  {
    if xs == [] {
      assert xs + ys == ys;
    } else {
      assert (xs + ys)[1..] == xs[1..] + ys;
      AccumulatedConcat(v[xs[0] as int := v[xs[0] as int] + 1], xs[1..], ys);
    }
  }

  // ---------------------------------------------------------------------
  // A partition given as split points

  /** Split points in ascending order: piece `k` is `[cuts[k], cuts[k+1])`.
      Pieces may be empty; together they cover `[cuts[0], cuts[|cuts|-1])`
      once, without gaps or overlaps. */
  predicate Ascending(cuts: seq<nat>)
  {
    forall i, j :: 0 <= i <= j < |cuts| ==> cuts[i] <= cuts[j]
  }

  /** `cuts` partitions the whole image `[0, n)`. */
  predicate IsPartition(cuts: seq<nat>, n: nat)
  {
    |cuts| >= 1 && cuts[0] == 0 && cuts[|cuts| - 1] == n && Ascending(cuts)
  }

  /** Each piece run through the leaf body from the identity, and the
      partial histograms folded together with merge, left to right. */
  function ReduceSplits(image: seq<byte>, cuts: seq<nat>): (r: seq<nat>)
    requires |cuts| >= 1 && Ascending(cuts) && cuts[|cuts| - 1] <= |image|
    ensures IsHistogram(r)
    decreases |cuts|
  {
    if |cuts| == 1 then Zero()
    else
      var last := |cuts| - 1;
      Merged(ReduceSplits(image, cuts[..last]), Accumulated(Zero(), image[cuts[last - 1]..cuts[last]]))
  }

  /** The split-point reduction yields the histogram of the range the
      pieces cover. */
  lemma {:induction false} ReduceSplitsCovers(image: seq<byte>, cuts: seq<nat>)
    requires |cuts| >= 1 && Ascending(cuts) && cuts[|cuts| - 1] <= |image|
    ensures ReduceSplits(image, cuts) == Histogram(image[cuts[0]..cuts[|cuts| - 1]])
    decreases |cuts|
  {
    if |cuts| == 1 {
      assert image[cuts[0]..cuts[0]] == [];
      EmptyHistogramIsZero();
    } else {
      var last := |cuts| - 1;
      var lo, mid, hi := cuts[0], cuts[last - 1], cuts[last];
      ReduceSplitsCovers(image, cuts[..last]);
      LeafFromZero(image[mid..hi]);
      assert image[lo..hi] == image[lo..mid] + image[mid..hi];
      HistogramAppend(image[lo..mid], image[mid..hi]);
    }
  }

  /** Any partition of the whole image into contiguous pieces gives the
      serial histogram: the equality the program checks after the run. */
  lemma ReduceSplitsIsSerial(image: seq<byte>, cuts: seq<nat>)
    requires IsPartition(cuts, |image|)
    ensures ReduceSplits(image, cuts) == Histogram(image)
  {
    ReduceSplitsCovers(image, cuts);
    assert image[0..|image|] == image;
  }

  // ---------------------------------------------------------------------
  // A partition combined in any tree shape and any order

  /** The half-open index range `[lo, hi)` of the image. */
  datatype Range = Range(lo: nat, hi: nat)

  datatype Option<T> = None | Some(value: T)

  /** How a run of the reduction produced its result:
      `Leaf(lo, hi)`: the leaf body on `[lo, hi)`, started from the identity;
      `Reuse(prior, lo, hi)`: the leaf body on `[lo, hi)`, continuing from
      the accumulator `prior` produced;
      `Join(left, right)`: the merge of two partial results. */
  datatype Plan =
    | Leaf(lo: nat, hi: nat)
    | Reuse(prior: Plan, lo: nat, hi: nat)
    | Join(left: Plan, right: Plan)

  /** The range a plan covers, or `None` when its pieces do not fit together
      (a piece with `lo > hi`, or two combined parts that are not adjacent).
      Adjacent parts may be combined in either order. */
  function Extent(p: Plan): (e: Option<Range>)
    ensures e.Some? ==> e.value.lo <= e.value.hi
  {
    match p
    case Leaf(lo, hi) =>
      if lo <= hi then Some(Range(lo, hi)) else None
    case Reuse(prior, lo, hi) =>
      (match Extent(prior)
       case None => None
       case Some(e) =>
         if lo <= hi && e.hi == lo then Some(Range(e.lo, hi))
         else if lo <= hi && hi == e.lo then Some(Range(lo, e.hi))
         else None)
    case Join(left, right) =>
      match (Extent(left), Extent(right))
      case (Some(l), Some(r)) =>
        if l.hi == r.lo then Some(Range(l.lo, r.hi))
        else if r.hi == l.lo then Some(Range(r.lo, l.hi))
        else None
      case _ => None
  }

  /** `p` fits together and stays inside an image of `n` samples. */
  predicate FitsIn(p: Plan, n: nat)
  {
    Extent(p).Some? && Extent(p).value.hi <= n
  }

  /** The histogram a plan computes from the leaf body and the merge. */
  function Reduce(image: seq<byte>, p: Plan): (r: seq<nat>)
    requires FitsIn(p, |image|)
    ensures IsHistogram(r)
  {
    match p
    case Leaf(lo, hi) => Accumulated(Zero(), image[lo..hi])
    case Reuse(prior, lo, hi) => Accumulated(Reduce(image, prior), image[lo..hi])
    case Join(left, right) => Merged(Reduce(image, left), Reduce(image, right))
  }

  /** The histogram of two adjacent ranges, merged in either order. */
  lemma MergeAdjacent(image: seq<byte>, lo: nat, mid: nat, hi: nat)
    requires lo <= mid <= hi <= |image|
    ensures Merged(Histogram(image[lo..mid]), Histogram(image[mid..hi])) == Histogram(image[lo..hi])
    ensures Merged(Histogram(image[mid..hi]), Histogram(image[lo..mid])) == Histogram(image[lo..hi])
  {
    assert image[lo..hi] == image[lo..mid] + image[mid..hi];
    HistogramAppend(image[lo..mid], image[mid..hi]);
    MergeCommutes(Histogram(image[lo..mid]), Histogram(image[mid..hi]));
  }

  /** Whatever the tree shape, the order of the parts and the reuse of
      accumulators, a plan yields the histogram of the range it covers. */
  lemma {:induction false} ReduceCovers(image: seq<byte>, p: Plan)
    requires FitsIn(p, |image|)
    ensures Reduce(image, p) == Histogram(image[Extent(p).value.lo..Extent(p).value.hi])
  {
    match p
    case Leaf(lo, hi) =>
      LeafFromZero(image[lo..hi]);
    case Reuse(prior, lo, hi) =>
      var e := Extent(prior).value;
      ReduceCovers(image, prior);
      AccumulatedIsMerge(Reduce(image, prior), image[lo..hi]);
      if e.hi == lo {
        MergeAdjacent(image, e.lo, lo, hi);
      } else {
        MergeAdjacent(image, lo, e.lo, e.hi);
      }
    case Join(left, right) =>
      var l, r := Extent(left).value, Extent(right).value;
      ReduceCovers(image, left);
      ReduceCovers(image, right);
      if l.hi == r.lo {
        MergeAdjacent(image, l.lo, l.hi, r.hi);
      } else {
        MergeAdjacent(image, r.lo, r.hi, l.hi);
      }
  }

  /** Equivalence: every plan that covers the whole image yields the serial
      histogram, whatever the partition and the combine order. */
  lemma ReduceIsSerial(image: seq<byte>, p: Plan)
    requires Extent(p) == Some(Range(0, |image|))
    ensures Reduce(image, p) == Histogram(image)
  {
    ReduceCovers(image, p);
    assert image[0..|image|] == image;
  }

  /** A single piece over the whole image gives the serial histogram. */
  lemma SinglePieceIsSerial(image: seq<byte>)
    ensures Reduce(image, Leaf(0, |image|)) == Histogram(image)
  {
    ReduceIsSerial(image, Leaf(0, |image|));
  }

  /** An empty image gives the identity, whatever the plan. */
  lemma EmptyImageGivesZero(p: Plan)
    requires Extent(p) == Some(Range(0, 0))
    ensures Reduce([], p) == Zero()
  {
    ReduceIsSerial([], p);
  }
}
