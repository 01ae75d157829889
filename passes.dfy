/** The program's two passes over the image as imperative code: the serial
    loop over a counter array, the two lambdas handed to the reduction (the
    leaf body and the merge), a driver that runs them as a plan says, and
    the final comparison of the two histograms. */
module Passes {
  import opened Samples
  import opened Reduction

  /** The serial pass: `hist` starts as `num_bins` zeros and every sample,
      left to right, increments its own bin in place. No sample needs
      checking: a byte is always a valid bin index. */
  method SerialHistogram(image: seq<byte>) returns (hist: seq<nat>)
    ensures |hist| == NumBins
    ensures forall b :: 0 <= b < NumBins ==> hist[b] == Count(image, b)
    ensures Sum(hist) == |image|
  {
    var h := new nat[NumBins](_ => 0);
    SumZeros(NumBins);
    assert h[..] == seq(NumBins, _ => 0);
    for i := 0 to |image|
      invariant forall b :: 0 <= b < NumBins ==> h[b] == Count(image[..i], b)
      invariant Sum(h[..]) == i
    {
      var x := image[i] as int;
      assert image[..i + 1] == image[..i] + [image[i]];
      forall b | 0 <= b < NumBins
        ensures Count(image[..i + 1], b) == Count(image[..i], b) + (if b == x then 1 else 0)
      {
        CountAppend(image[..i], [image[i]], b);
      }
      SumIncrement(h[..], x);
      h[x] := h[x] + 1;
    }
    assert image[..|image|] == image;
    hist := h[..];
  }

  /** The leaf body: `v` is taken by value, so it works on a private copy,
      increments the bin of every sample of `image[lo..hi]` and returns the
      copy. */
  method LeafBody(image: seq<byte>, lo: nat, hi: nat, v: seq<nat>) returns (r: seq<nat>)
    requires lo <= hi <= |image|
    requires IsHistogram(v)
    ensures |r| == |v|
    ensures forall b :: 0 <= b < NumBins ==> r[b] == v[b] + Count(image[lo..hi], b)
    ensures r == Accumulated(v, image[lo..hi])
  {
    var acc := new nat[NumBins](i requires 0 <= i < NumBins => v[i]);
    for k := lo to hi
      invariant forall b :: 0 <= b < NumBins ==> acc[b] == v[b] + Count(image[lo..k], b)
    {
      var x := image[k] as int;
      assert image[lo..k + 1] == image[lo..k] + [image[k]];
      forall b | 0 <= b < NumBins
        ensures Count(image[lo..k + 1], b) == Count(image[lo..k], b) + (if b == x then 1 else 0)
      {
        CountAppend(image[lo..k], [image[k]], b);
      }
      acc[x] := acc[x] + 1;
    }
    r := acc[..];
    forall b | 0 <= b < NumBins ensures r[b] == Accumulated(v, image[lo..hi])[b] {
      AccumulatedCounts(v, image[lo..hi], b);
    }
  }

  /** The merge: `a` is taken by value and `b` by constant reference; each
      bin of `b` is added to the matching bin of the copy of `a`. */
  method Merge(a: seq<nat>, b: seq<nat>) returns (r: seq<nat>)
    requires IsHistogram(a) && IsHistogram(b)
    ensures |r| == NumBins
    ensures forall i :: 0 <= i < NumBins ==> r[i] == a[i] + b[i]
    ensures r == Merged(a, b)
  {
    var acc := new nat[NumBins](i requires 0 <= i < NumBins => a[i]);
    for i := 0 to NumBins
      invariant forall j :: 0 <= j < i ==> acc[j] == a[j] + b[j]
      invariant forall j :: i <= j < NumBins ==> acc[j] == a[j]
    {
      acc[i] := acc[i] + b[i];
    }
    r := acc[..];
  }

  /** Runs the leaf body and the merge as the plan says, one step after the
      other; the result is the histogram of the range the plan covers. */
  method ParallelReduce(image: seq<byte>, p: Plan) returns (r: seq<nat>)
    requires FitsIn(p, |image|)
    ensures r == Reduce(image, p)
    ensures r == Histogram(image[Extent(p).value.lo..Extent(p).value.hi])
  {
    match p {
      case Leaf(lo, hi) =>
        r := LeafBody(image, lo, hi, Zero());
      case Reuse(prior, lo, hi) =>
        var acc := ParallelReduce(image, prior);
        r := LeafBody(image, lo, hi, acc);
      case Join(left, right) =>
        var a := ParallelReduce(image, left);
        var b := ParallelReduce(image, right);
        r := Merge(a, b);
    }
    ReduceCovers(image, p);
  }

  /** Both passes over the same image and the comparison of their results:
      for every plan that covers the whole image the mismatch warning is
      never raised. */
  method CheckEquivalence(image: seq<byte>, p: Plan) returns (failed: bool)
    requires Extent(p) == Some(Range(0, |image|))
    ensures !failed
  {
    var hist := SerialHistogram(image);
    var histP := ParallelReduce(image, p);
    assert image[0..|image|] == image;
    assert hist == histP;
    failed := hist != histP;
  }
}
