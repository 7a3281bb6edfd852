/** The bins of the latency histogram (write-flush/latency.h:26-51). The five arrays of 128 bins
    and the overflow bin lie one after the other, so that a bin has one index from 0 to 640. */
module LatencyBins {

  const BINS := 641
  const OVERFLOW := 640

  function BinOf(us: nat): (i: nat)
    ensures i < BINS
  {
    if us < 128 then us
    else if us < 384 then 128 + (us - 128) / 2
    else if us < 896 then 256 + (us - 384) / 4
    else if us < 1920 then 384 + (us - 896) / 8
    else if us < 3968 then 512 + (us - 1920) / 16
    else OVERFLOW
  }

  /** The value a bin stands for. */
  function ValueOf(i: nat): nat
    requires i < BINS
  {
    if i < 128 then i
    else if i < 256 then 128 + (i - 128) * 2
    else if i < 384 then 384 + (i - 256) * 4
    else if i < 512 then 896 + (i - 384) * 8
    else if i < 640 then 1920 + (i - 512) * 16
    else 3968
  }

  /** A bin stands for its smallest sample, and bins are in the order of their samples. */
  lemma BinsInOrder(us: nat, i: nat)
    requires i < BINS
    ensures ValueOf(BinOf(us)) <= us && BinOf(ValueOf(i)) == i
    ensures BinOf(us) < i <==> us < ValueOf(i)
  {
  }

  /** The 128 bins of the n-th array are each 2^n wide: below 128 a sample has a bin of its own, and
      above, the value its bin stands for is short of it by less than the width. */
  lemma BinWidths(us: nat, i: nat)
    requires i < OVERFLOW
    ensures ValueOf(0) == 0 && ValueOf(i + 1) == ValueOf(i) + [1, 2, 4, 8, 16][i / 128]
    ensures us < 128 ==> ValueOf(BinOf(us)) == us
    ensures BinOf(us) < OVERFLOW ==> us - ValueOf(BinOf(us)) < [1, 2, 4, 8, 16][BinOf(us) / 128]
    ensures BinOf(us) == OVERFLOW <==> us >= 3968
  {
  }

  lemma BinMonotone(a: nat, b: nat)
    requires a <= b
    ensures BinOf(a) <= BinOf(b) && ValueOf(BinOf(a)) <= ValueOf(BinOf(b))
  {
    BinsInOrder(a, BinOf(b));
    BinsInOrder(b, BinOf(b));
    ValueMonotone(BinOf(a), BinOf(b));
  }

  lemma ValueMonotone(i: nat, j: nat)
    requires i <= j < BINS
    ensures ValueOf(i) <= ValueOf(j)
  {
  }

  // ---------------------------------------------------------------------------
  // Counting samples
  // ---------------------------------------------------------------------------

  /** How many samples fall into bin `i`. */
  ghost function InBin(samples: seq<nat>, i: nat): nat {
    if samples == [] then 0
    else InBin(samples[..|samples| - 1], i) + if BinOf(samples[|samples| - 1]) == i then 1 else 0
  }

  /** How many fall into a bin before `i`. */
  ghost function Before(samples: seq<nat>, i: nat): (n: nat)
    ensures n <= |samples|
  {
    if samples == [] then 0
    else Before(samples[..|samples| - 1], i) + if BinOf(samples[|samples| - 1]) < i then 1 else 0
  }

  lemma {:induction false} BeforeNext(samples: seq<nat>, i: nat)
    ensures Before(samples, i + 1) == Before(samples, i) + InBin(samples, i)
  {
    if samples != [] { BeforeNext(samples[..|samples| - 1], i); }
  }

  lemma {:induction false} BeforeEnds(samples: seq<nat>)
    ensures Before(samples, 0) == 0 && Before(samples, BINS) == |samples|
  {
    if samples != [] { BeforeEnds(samples[..|samples| - 1]); }
  }

  lemma {:induction false} InBinConcat(a: seq<nat>, b: seq<nat>, i: nat)
    ensures InBin(a + b, i) == InBin(a, i) + InBin(b, i)
  {
    if b == [] {
      assert a + b == a;
    } else {
      assert (a + b)[..|a + b| - 1] == a + b[..|b| - 1];
      InBinConcat(a, b[..|b| - 1], i);
    }
  }

  // ---------------------------------------------------------------------------
  // The samples in order
  // ---------------------------------------------------------------------------

  ghost predicate Sorted(s: seq<nat>) {
    forall i, j {:trigger s[i], s[j]} :: 0 <= i <= j < |s| ==> s[i] <= s[j]
  }

  /** Reordering samples changes no count. */
  lemma {:induction false} BeforeReordered(a: seq<nat>, b: seq<nat>, i: nat)
    requires multiset(a) == multiset(b)
    ensures Before(a, i) == Before(b, i)
  {
    SameLength(a, b);
    if a != [] {
      var n := |a| - 1;
      var x := a[n];
      assert a == a[..n] + [x];
      assert x in multiset(b);
      var k :| 0 <= k < |b| && b[k] == x;
      var rest := b[..k] + b[k + 1..];
      assert b == b[..k] + [x] + b[k + 1..];
      assert multiset(rest) == multiset(b) - multiset{x} == multiset(a[..n]);
      BeforeReordered(a[..n], rest, i);
      BeforeInsert(b[..k], x, b[k + 1..], i);
    }
  }

  lemma SameLength(a: seq<nat>, b: seq<nat>)
    requires multiset(a) == multiset(b)
    ensures |a| == |b|
  {
    assert |multiset(a)| == |multiset(b)|;
  }

  lemma {:induction false} BeforeInsert(a: seq<nat>, x: nat, b: seq<nat>, i: nat)
    ensures Before(a + [x] + b, i) == Before(a + b, i) + if BinOf(x) < i then 1 else 0
  {
    if b == [] {
      assert a + [x] + b == a + [x] && a + b == a && (a + [x])[..|a|] == a;
    } else {
      var n := |b| - 1;
      assert (a + [x] + b)[..|a| + 1 + n] == a + [x] + b[..n];
      assert (a + b)[..|a| + n] == a + b[..n];
      BeforeInsert(a, x, b[..n], i);
    }
  }

  /** Of samples in order, those before bin `i` come first. */
  lemma {:induction false} BeforeSorted(s: seq<nat>, i: nat, t: nat)
    requires Sorted(s) && t < |s|
    ensures t < Before(s, i) <==> BinOf(s[t]) < i
  {
    var n := |s| - 1;
    var init := s[..n];
    assert forall j {:trigger init[j]} :: 0 <= j < n ==> init[j] == s[j];
    BinMonotone(s[t], s[n]);
    if t < n {
      BeforeSorted(init, i, t);
    } else if BinOf(s[n]) < i {
      AllBefore(init, i, s[n]);
    }
  }

  lemma {:induction false} AllBefore(s: seq<nat>, i: nat, most: nat)
    requires BinOf(most) < i && forall j {:trigger s[j]} :: 0 <= j < |s| ==> s[j] <= most
    ensures Before(s, i) == |s|
  {
    if s != [] {
      AllBefore(s[..|s| - 1], i, most);
      BinMonotone(s[|s| - 1], most);
    }
  }

  /** The bin where the count of samples passes `t` is the bin of the `t`-th smallest. */
  lemma NthSmallest(samples: seq<nat>, sorted: seq<nat>, t: nat, i: nat)
    requires Sorted(sorted) && multiset(sorted) == multiset(samples) && t < |samples|
    requires Before(samples, i) <= t < Before(samples, i + 1)
    ensures |sorted| == |samples| && BinOf(sorted[t]) == i
  {
    SameLength(sorted, samples);
    BeforeReordered(sorted, samples, i);
    BeforeReordered(sorted, samples, i + 1);
    BeforeSorted(sorted, i, t);
    BeforeSorted(sorted, i + 1, t);
  }
}
