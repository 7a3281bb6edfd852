/** The latency histogram (write-flush/latency.h:26-134), against the samples recorded. */
module LatencyHistogram {

  import opened LatencyBins

  /** The samples in bins before `i`, added up as the values their bins stand for. */
  ghost function SumBefore(samples: seq<nat>, i: nat): nat {
    if samples == [] then 0
    else
      var bin := BinOf(samples[|samples| - 1]);
      SumBefore(samples[..|samples| - 1], i) + if bin < i then ValueOf(bin) else 0
  }

  lemma {:induction false} SumBeforeNext(samples: seq<nat>, i: nat)
    requires i < BINS
    ensures SumBefore(samples, i + 1) == SumBefore(samples, i) + InBin(samples, i) * ValueOf(i)
  {
    if samples != [] {
      var n := |samples| - 1;
      var init := samples[..n];
      var bin := BinOf(samples[n]);
      SumBeforeNext(init, i);
      MulStep(InBin(init, i), ValueOf(i));
      assert SumBefore(samples, i + 1) == SumBefore(init, i + 1) + if bin < i + 1 then ValueOf(bin) else 0;
      assert SumBefore(samples, i) == SumBefore(init, i) + if bin < i then ValueOf(bin) else 0;
      assert InBin(samples, i) == if bin == i then InBin(init, i) + 1 else InBin(init, i);
    }
  }

  lemma MulStep(n: nat, v: nat)
    ensures (n + 1) * v == n * v + v
  {
  }

  lemma {:induction false} SumBeforeZero(samples: seq<nat>)
    ensures SumBefore(samples, 0) == 0
  {
    if samples != [] { SumBeforeZero(samples[..|samples| - 1]); }
  }

  ghost function Sum(samples: seq<nat>): nat {
    if samples == [] then 0 else Sum(samples[..|samples| - 1]) + samples[|samples| - 1]
  }

  /** The sum reported never exceeds the true sum; with no overflow sample it falls short by less
      than 16 a sample. */
  lemma {:induction false} SumNear(samples: seq<nat>)
    ensures SumBefore(samples, BINS) <= Sum(samples)
    ensures (forall x :: x in samples ==> x < 3968) && samples != [] ==>
              Sum(samples) < SumBefore(samples, BINS) + 16 * |samples|
  {
    if samples != [] {
      var n := |samples| - 1;
      SumNear(samples[..n]);
      BinsInOrder(samples[n], 0);
      assert samples[n] in samples;
      assert forall x :: x in samples[..n] ==> x in samples;
      if samples[n] < 3968 { NearValue(samples[n]); }
    }
  }

  lemma NearValue(us: nat)
    requires us < 3968
    ensures us < ValueOf(BinOf(us)) + 16
  {
  }

  lemma EmptyBins(samples: seq<nat>, i: nat)
    requires samples == []
    ensures InBin(samples, i) == 0 && Before(samples, i) == 0
  {
  }

  /** A C cast from floating point to an integer: toward zero. */
  function Truncate(x: real): int {
    if x >= 0.0 then x.Floor else -((-x).Floor)
  }

  /** A fraction below one names a rank below the count, so that `Perc` reports a sample; one
      or more does not, and it reports the overflow value whatever the samples are. */
  lemma RankInRange(p: real, n: nat)
    requires p >= 0.0 && n > 0
    ensures 0 <= Truncate(p * (n as real))
    ensures Truncate(p * (n as real)) < n <==> p < 1.0
  {
    Scales(p, n as real);
    FloorBelow(p * (n as real), n);
  }

  lemma Scales(p: real, c: real)
    requires p >= 0.0 && c > 0.0
    ensures p * c >= 0.0 && (p * c < c <==> p < 1.0)
  {
    assert c - p * c == (1.0 - p) * c;
    if p < 1.0 {
      assert (1.0 - p) * c > 0.0;
    } else {
      assert (p - 1.0) * c >= 0.0;
    }
  }

  lemma FloorBelow(x: real, n: nat)
    requires x >= 0.0
    ensures 0 <= x.Floor && (x.Floor < n <==> x < n as real)
  {
  }

  class Latency {
    const bins: array<nat>
    ghost var samples: seq<nat>

    ghost predicate Valid()
      reads this, bins
    {
      bins.Length == BINS && forall i: nat {:trigger bins[i]} :: i < BINS ==> bins[i] == InBin(samples, i)
    }

    constructor ()
      ensures Valid() && fresh(bins) && samples == []
    {
      bins := new nat[BINS](_ => 0);
      samples := [];
    }

    method Reset()
      requires Valid()
      modifies this, bins
      ensures Valid() && samples == []
    {
      for i := 0 to BINS
        invariant forall j: nat :: j < i ==> bins[j] == 0
      {
        bins[i] := 0;
      }
      samples := [];
    }

    /** update. */
    method Update(us: nat)
      requires Valid()
      modifies this, bins
      ensures Valid() && samples == old(samples) + [us]
    {
      var i := BinOf(us);
      bins[i] := bins[i] + 1;
      samples := samples + [us];
      assert samples[..|samples| - 1] == old(samples);
    }

    /** operator+=: as if the other histogram's samples had been recorded here, too. */
    method Add(o: Latency)
      requires Valid() && o.Valid() && (o == this || o.bins != bins)
      modifies this, bins
      ensures Valid() && samples == old(samples) + old(o.samples)
    {
      for i := 0 to BINS
        invariant samples == old(samples) && o.samples == old(o.samples)
        invariant forall j: nat {:trigger o.bins[j]} :: i <= j < BINS ==> o.bins[j] == InBin(o.samples, j)
        invariant forall j: nat {:trigger bins[j]} :: j < BINS ==>
          bins[j] == InBin(samples, j) + if j < i then InBin(o.samples, j) else 0
      {
        bins[i] := bins[i] + o.bins[i];
      }
      forall j: nat | j < BINS ensures bins[j] == InBin(samples + o.samples, j) {
        InBinConcat(samples, o.samples, j);
      }
      samples := samples + o.samples;
    }

    /** count. */
    method Count() returns (n: nat)
      requires Valid()
      ensures n == |samples|
    {
      n := 0;
      BeforeEnds(samples);
      for i := 0 to BINS
        invariant n == Before(samples, i)
      {
        BeforeNext(samples, i);
        n := n + bins[i];
      }
    }

    /** sum. */
    method Total() returns (sum: nat)
      requires Valid()
      ensures sum == SumBefore(samples, BINS) <= Sum(samples)
      ensures (forall x :: x in samples ==> x < 3968) && samples != [] ==> Sum(samples) < sum + 16 * |samples|
    {
      sum := 0;
      SumBeforeZero(samples);
      for i := 0 to BINS
        invariant sum == SumBefore(samples, i)
      {
        SumBeforeNext(samples, i);
        sum := sum + bins[i] * ValueOf(i);
      }
      SumNear(samples);
    }

    /** min: the value of the smallest sample's bin; `sorted` is any ordering of the samples. */
    method Min(ghost sorted: seq<nat>) returns (r: nat)
      requires Valid() && Sorted(sorted) && multiset(sorted) == multiset(samples)
      ensures |sorted| == |samples|
      ensures r == if samples == [] then 3968 else ValueOf(BinOf(sorted[0]))
    {
      SameLength(sorted, samples);
      BeforeEnds(samples);
      var i := 0;
      while i < OVERFLOW && bins[i] == 0
        invariant i <= OVERFLOW && Before(samples, i) == 0
      {
        BeforeNext(samples, i);
        i := i + 1;
      }
      r := ValueOf(i);
      BeforeNext(samples, i);
      if samples == [] {
        EmptyBins(samples, i);
      } else {
        NthSmallest(samples, sorted, 0, i);
      }
    }

    /** max: the value of the largest sample's bin. */
    method Max(ghost sorted: seq<nat>) returns (r: nat)
      requires Valid() && Sorted(sorted) && multiset(sorted) == multiset(samples)
      ensures |sorted| == |samples|
      ensures r == if samples == [] then 0 else ValueOf(BinOf(sorted[|sorted| - 1]))
    {
      SameLength(sorted, samples);
      BeforeEnds(samples);
      var i := OVERFLOW;
      while i > 0 && bins[i] == 0
        invariant 0 <= i <= OVERFLOW && Before(samples, i + 1) == |samples|
      {
        BeforeNext(samples, i);
        i := i - 1;
      }
      r := ValueOf(i);
      BeforeNext(samples, i);
      if samples != [] { NthSmallest(samples, sorted, |samples| - 1, i); }
    }

    /** The walk over the bins until the count passes the rank. */
    method AtRank(rank: int, ghost sorted: seq<nat>) returns (r: nat)
      requires Valid() && Sorted(sorted) && multiset(sorted) == multiset(samples)
      ensures |sorted| == |samples|
      ensures r == if rank < 0 then 0 else if rank >= |samples| then 3968 else ValueOf(BinOf(sorted[rank]))
    {
      SameLength(sorted, samples);
      BeforeEnds(samples);
      var thres := rank;
      for i := 0 to OVERFLOW
        invariant thres == rank - Before(samples, i) && (i > 0 ==> thres >= 0)
      {
        BeforeNext(samples, i);
        thres := thres - bins[i];
        if thres < 0 {
          if rank >= 0 { NthSmallest(samples, sorted, rank, i); }
          return ValueOf(i);
        }
      }
      if rank < |samples| {
        BeforeNext(samples, OVERFLOW);
        NthSmallest(samples, sorted, rank, OVERFLOW);
      }
      r := 3968;
    }

    method Threshold(p: real) returns (t: int)
      requires Valid()
      ensures t == Truncate(p * (|samples| as real))
    {
      var n := Count();
      t := Truncate(p * (n as real));
    }

    /** perc: the value of the bin of the sample whose rank `t` is the fraction `p` of the count. */
    method Perc(p: real, ghost sorted: seq<nat>) returns (r: nat, t: int)
      requires Valid() && Sorted(sorted) && multiset(sorted) == multiset(samples)
      ensures |sorted| == |samples| && t == Truncate(p * (|samples| as real))
      ensures r == if t < 0 then 0 else if t >= |samples| then 3968 else ValueOf(BinOf(sorted[t]))
    {
      t := Threshold(p);
      r := AtRank(t, sorted);
    }
  }
}
