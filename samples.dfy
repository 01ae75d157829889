/** Samples and their histogram: the reference definitions that both the
    serial pass and the partitioned reduction are proved against. */
module Samples {

  /** A sample: the element type `uint8_t` of the image vector. */
  newtype byte = x: int | 0 <= x < 256

  /** `num_bins`: the number of counters in every histogram of the program.
      It equals the number of byte values, so every sample names a bin. */
  const NumBins: nat := 256

  /** The number of samples in `s` equal to `b`. A bin never counts more
      samples than there are. */
  function Count(s: seq<byte>, b: int): (c: nat)
    ensures c <= |s|
  {
    if s == [] then 0
    else (if s[0] as int == b then 1 else 0) + Count(s[1..], b)
  }

  /** The histogram of `s`: bin `b` holds the number of samples equal to `b`. */
  function Histogram(s: seq<byte>): seq<nat>
  {
    seq(NumBins, b => Count(s, b))
  }

  /** The total of all counters of a histogram. */
  function Sum(h: seq<nat>): nat
  {
    if h == [] then 0 else h[0] + Sum(h[1..])
  }

  /** Counting distributes over concatenation: the samples of `s + t` equal
      to `b` are those of `s` plus those of `t`. */
  lemma {:induction false} CountAppend(s: seq<byte>, t: seq<byte>, b: int)
    ensures Count(s + t, b) == Count(s, b) + Count(t, b)
  {
    if s == [] {
      assert s + t == t;
    } else {
      assert (s + t)[1..] == s[1..] + t;
      CountAppend(s[1..], t, b);
    }
  }

  /** `Count` is the multiplicity of `b` in the multiset of the samples. */
  lemma {:induction false} CountIsMultiplicity(s: seq<byte>, b: byte)
    ensures Count(s, b as int) == multiset(s)[b]
  {
    if s != [] {
      assert s == [s[0]] + s[1..];
      assert multiset(s) == multiset{s[0]} + multiset(s[1..]);
      CountIsMultiplicity(s[1..], b);
    }
  }

  /** Order independence: reordering the samples does not change the
      histogram, and two sample sequences with the same histogram hold the
      same samples (as a multiset). */
  lemma HistogramIsOrderIndependent(s: seq<byte>, t: seq<byte>)
    ensures Histogram(s) == Histogram(t) <==> multiset(s) == multiset(t)
  {
    forall b | 0 <= b < NumBins
      ensures Histogram(s)[b] == multiset(s)[b as byte] && Histogram(t)[b] == multiset(t)[b as byte]
    {
      CountIsMultiplicity(s, b as byte);
      CountIsMultiplicity(t, b as byte);
    }
    if Histogram(s) == Histogram(t) {
      forall x: byte ensures multiset(s)[x] == multiset(t)[x] {
        assert Histogram(s)[x as int] == Histogram(t)[x as int];
      }
      assert multiset(s) == multiset(t);
    }
  }

  /** Incrementing one counter raises the total by one. */
  lemma {:induction false} SumIncrement(h: seq<nat>, i: nat)
    requires i < |h|
    ensures Sum(h[i := h[i] + 1]) == Sum(h) + 1
  {
    if i == 0 {
      assert h[i := h[i] + 1][1..] == h[1..];
    } else {
      assert h[i := h[i] + 1][1..] == h[1..][i - 1 := h[i] + 1];
      SumIncrement(h[1..], i - 1);
    }
  }

  /** A histogram of zeros has total zero. */
  lemma {:induction false} SumZeros(n: nat)
    ensures Sum(seq(n, _ => 0)) == 0
  {
    if n > 0 {
      assert seq(n, _ => 0)[1..] == seq(n - 1, _ => 0);
      SumZeros(n - 1);
    }
  }

  /** Prepending a sample increments exactly its own bin. */
  lemma HistogramCons(x: byte, s: seq<byte>)
    ensures Histogram([x] + s) == Histogram(s)[x as int := Histogram(s)[x as int] + 1]
  {
    assert ([x] + s)[1..] == s;
  }

  /** Conservation: the bins of a histogram add up to the number of samples. */
  lemma {:induction false} HistogramConserves(s: seq<byte>)
    ensures Sum(Histogram(s)) == |s|
  {
    if s == [] {
      assert Histogram(s) == seq(NumBins, _ => 0);
      SumZeros(NumBins);
    } else {
      assert s == [s[0]] + s[1..];
      HistogramCons(s[0], s[1..]);
      HistogramConserves(s[1..]);
      SumIncrement(Histogram(s[1..]), s[0] as int);
    }
  }

  /** Every counter of the histogram of `s` is at most `|s|`; with fewer
      than 2^31 samples none of them overflows the `int` the program stores
      it in. */
  lemma CountersFitInt(s: seq<byte>)
    requires |s| < 0x8000_0000
    ensures forall b :: 0 <= b < NumBins ==> Histogram(s)[b] < 0x8000_0000
  {
  }
}
