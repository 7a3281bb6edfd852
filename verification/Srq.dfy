/** The shared receive queue's list of free work queue entries, threaded through the entries
    themselves (drivers/libmlx5-1.0.2mlnx1/src/srq.c). */
module Srq {

  datatype WorkRequest = WorkRequest(id: nat, numSge: nat)

  datatype Error = NoError | TooManySge | QueueFull

  /** `next` links start at `head`, run through `free` in order and end at `tail`. The link
      of the last entry is never followed. */
  ghost predicate Chain(next: seq<nat>, head: nat, tail: nat, free: seq<nat>) {
    && |free| > 0 && free[0] == head && free[|free| - 1] == tail
    && (forall i :: 0 <= i < |free| ==> free[i] < |next|)
    && (forall i, j :: 0 <= i < j < |free| ==> free[i] != free[j])
    && (forall i :: 0 <= i < |free| - 1 ==> next[free[i]] == free[i + 1])
  }

  /** Links are 16 bits wide. */
  const WIDTH := 0x1_0000

  /** The links of a new queue: every entry to the next, the last to the first, in 16 bits. */
  ghost function Links(max: nat): (r: seq<nat>)
    ensures |r| == max
  {
    seq(max, i requires 0 <= i < max => (if i + 1 == max then 0 else i + 1) % WIDTH)
  }

  /** The entry that `n` posts in a row come to. */
  ghost function Follow(next: seq<nat>, head: nat, n: nat): nat {
    if n == 0 then head
    else
      var i := Follow(next, head, n - 1);
      if i < |next| then next[i] else i
  }

  /** All entries of a new queue are linked in order exactly when 16 bits can number them. */
  lemma LinksExact(max: nat)
    requires max > 0
    ensures Chain(Links(max), 0, max - 1, seq(max, i => i)) <==> max <= WIDTH
  {
    var next, free := Links(max), seq(max, i => i);
    if max <= WIDTH {
      assert forall i :: 0 <= i < max ==> free[i] == i;
    } else {
      var i := WIDTH - 1;
      assert next[free[i]] == 0 && free[i + 1] == WIDTH;
    }
  }

  /** A larger queue hands out its first entry again after 2^16 posts, whether or not it was freed. */
  lemma TooLongHandsOutTwice(max: nat)
    requires max > WIDTH
    ensures Follow(Links(max), 0, WIDTH) == 0
  {
    FollowsInOrder(max, WIDTH - 1);
  }

  lemma {:induction false} FollowsInOrder(max: nat, n: nat)
    requires n < max && n < WIDTH
    ensures Follow(Links(max), 0, n) == n
  {
    if n > 0 { FollowsInOrder(max, n - 1); }
  }

  /** The entries handed out: all that are not free. */
  ghost function Posted(max: nat, free: seq<nat>): set<nat> {
    set i | 0 <= i < max && i !in free
  }

  // ---------------------------------------------------------------------------
  // The list as a queue
  // ---------------------------------------------------------------------------

  /** What the list stands for: a queue of free entries and, in the order they were posted,
      the requests outstanding. */
  datatype Pool = Pool(free: seq<nat>, max: nat)

  datatype Step = Post(index: nat) | Full | Free(index: nat)

  ghost predicate PoolInv(p: Pool) {
    && |p.free| > 0
    && (forall i :: 0 <= i < |p.free| ==> p.free[i] < p.max)
    && (forall i, j :: 0 <= i < j < |p.free| ==> p.free[i] != p.free[j])
  }

  /** Posting takes the entry freed longest ago, except that the last one is never handed
      out; freeing an outstanding entry puts it at the end. */
  ghost predicate Next(p: Pool, step: Step, p': Pool) {
    match step
    case Post(i) => |p.free| > 1 && i == p.free[0] && p' == p.(free := p.free[1..])
    case Full => |p.free| == 1 && p' == p
    case Free(i) => i in Posted(p.max, p.free) && p' == p.(free := p.free + [i])
  }

  /** Entries that can be freed one after the other. */
  ghost predicate Freeable(p: Pool, xs: seq<nat>) {
    && (forall i :: 0 <= i < |xs| ==> xs[i] in Posted(p.max, p.free))
    && (forall i, j :: 0 <= i < j < |xs| ==> xs[i] != xs[j])
  }

  lemma FreeableNext(p: Pool, xs: seq<nat>, k: nat)
    requires Freeable(p, xs) && k < |xs|
    ensures xs[k] in Posted(p.max, p.free + xs[..k])
  {
  }

  /** Entries that are not free are outstanding: a queue that refuses a post has all but one of
      its entries outstanding. */
  lemma OutstandingCount(p: Pool)
    requires PoolInv(p)
    ensures |Posted(p.max, p.free)| + |p.free| == p.max
  {
    DistinctCount(p.free);
    assert Posted(p.max, p.free) == Below(p.max) - Elements(p.free) && Elements(p.free) <= Below(p.max);
  }

  ghost function Below(n: nat): (r: set<nat>)
    ensures |r| == n && forall i: nat :: i in r <==> i < n
  {
    if n == 0 then {} else Below(n - 1) + {n - 1}
  }

  ghost function Elements(xs: seq<nat>): (r: set<nat>)
    ensures forall x: nat :: x in r <==> x in xs
  {
    if xs == [] then {}
    else
      assert xs == xs[..|xs| - 1] + [xs[|xs| - 1]];
      Elements(xs[..|xs| - 1]) + {xs[|xs| - 1]}
  }

  lemma {:induction false} DistinctCount(xs: seq<nat>)
    requires forall i, j :: 0 <= i < j < |xs| ==> xs[i] != xs[j]
    ensures |Elements(xs)| == |xs|
  {
    if xs != [] {
      var n := |xs| - 1;
      DistinctCount(xs[..n]);
      assert xs[n] !in xs[..n];
    }
  }

  ghost predicate Run(ps: seq<Pool>, steps: seq<Step>) {
    |ps| == |steps| + 1 && forall i :: 0 <= i < |steps| ==> Next(ps[i], steps[i], ps[i + 1])
  }

  ghost function PostedOf(steps: seq<Step>): seq<nat> {
    if steps == [] then []
    else
      var last := steps[|steps| - 1];
      PostedOf(steps[..|steps| - 1]) + if last.Post? then [last.index] else []
  }

  ghost function FreedOf(steps: seq<Step>): seq<nat> {
    if steps == [] then []
    else
      var last := steps[|steps| - 1];
      FreedOf(steps[..|steps| - 1]) + if last.Free? then [last.index] else []
  }

  /** Over every run the free and outstanding entries partition the queue, the last free
      entry is never handed out, and entries are handed out in exactly the order in which
      they became free: first those free at the start, then in order of freeing. */
  lemma {:induction false} ReusedInOrder(ps: seq<Pool>, steps: seq<Step>)
    requires Run(ps, steps) && PoolInv(ps[0])
    ensures var p := ps[|steps|];
            && PoolInv(p) && p.max == ps[0].max
            && PostedOf(steps) + p.free == ps[0].free + FreedOf(steps)
            && |PostedOf(steps)| < |ps[0].free| + |FreedOf(steps)|
  {
    if steps != [] {
      var k := |steps| - 1;
      assert Run(ps[..k + 1], steps[..k]);
      ReusedInOrder(ps[..k + 1], steps[..k]);
      assert Next(ps[k], steps[k], ps[k + 1]);
      var posted, free := PostedOf(steps[..k]), ps[k].free;
      var free0, freed := ps[0].free, FreedOf(steps[..k]);
      match steps[k]
      case Post(i) =>
        assert posted + [i] + free[1..] == posted + free;
        assert PostedOf(steps) == posted + [i] && FreedOf(steps) == freed;
      case Full =>
        assert PostedOf(steps) == posted && FreedOf(steps) == freed;
      case Free(i) =>
        assert posted + (free + [i]) == (posted + free) + [i];
        assert free0 + (freed + [i]) == (free0 + freed) + [i];
        assert PostedOf(steps) == posted && FreedOf(steps) == freed + [i];
    }
  }

  // ---------------------------------------------------------------------------
  // The queue in memory
  // ---------------------------------------------------------------------------

  /** The identifiers kept once the first `n` requests are posted: each in the entry it got. */
  ghost function Recorded(wrid: seq<nat>, free: seq<nat>, wrs: seq<WorkRequest>, n: nat): (r: seq<nat>)
    requires n <= |free| && n <= |wrs|
    ensures |r| == |wrid|
  {
    if n == 0 then wrid
    else
      var before := Recorded(wrid, free, wrs, n - 1);
      if free[n - 1] < |wrid| then before[free[n - 1] := wrs[n - 1].id] else before
  }

  /** Every request's identifier can be read back from its entry; other entries keep theirs. */
  lemma {:induction false} RecordedAt(wrid: seq<nat>, free: seq<nat>, wrs: seq<WorkRequest>, n: nat, i: nat)
    requires n <= |free| && n <= |wrs| && i < |wrid|
    requires forall j, k {:trigger free[j], free[k]} :: 0 <= j < k < |free| ==> free[j] != free[k]
    ensures forall k: nat {:trigger free[k]} :: k < n && free[k] == i ==> Recorded(wrid, free, wrs, n)[i] == wrs[k].id
    ensures i !in free[..n] ==> Recorded(wrid, free, wrs, n)[i] == wrid[i]
  {
    if n > 0 {
      RecordedAt(wrid, free, wrs, n - 1, i);
      assert free[..n] == free[..n - 1] + [free[n - 1]];
    }
  }

  class SharedReceiveQueue {
    const next: array<nat>
    const wrid: array<nat>
    const maxGs: nat
    var head: nat
    var tail: nat
    ghost var free: seq<nat>

    ghost predicate Valid()
      reads this, next, wrid
    {
      next != wrid && next.Length == wrid.Length <= WIDTH && Chain(next[..], head, tail, free)
    }

    ghost function View(): Pool
      reads this, next
    {
      Pool(free, next.Length)
    }

    /** mlx5_alloc_srq_buf: all entries linked in order; the size is a power of two, so the
        last link wraps to 0. */
    constructor (max: nat, maxGs: nat)
      requires max > 0
      ensures fresh(next) && fresh(wrid) && next[..] == Links(max) && this.maxGs == maxGs
      ensures head == 0 && tail == max - 1 && View() == Pool(seq(max, i => i), max)
      ensures Valid() <==> max <= WIDTH
    {
      next := new nat[max];
      wrid := new nat[max];
      this.maxGs := maxGs;
      head, tail := 0, max - 1;
      free := seq(max, i => i);
      new;
      for i := 0 to max
        modifies next
        invariant forall k :: 0 <= k < i ==> next[k] == Links(max)[k]
      {
        next[i] := (if i + 1 == max then 0 else i + 1) % WIDTH;
      }
      assert next[..] == Links(max);
      LinksExact(max);
    }

    /** mlx5_post_srq_recv */
    method PostRecv(wrs: seq<WorkRequest>) returns (nreq: nat, err: Error)
      requires Valid()
      modifies this`head, this`free, wrid
      ensures Valid()
      ensures nreq <= |wrs| && nreq < |old(free)|
      ensures free == old(free)[nreq..]
      ensures forall k :: 0 <= k < nreq ==> wrs[k].numSge <= maxGs
      ensures wrid[..] == Recorded(old(wrid[..]), old(free), wrs, nreq)
      ensures err == if nreq == |wrs| then NoError
                     else if wrs[nreq].numSge > maxGs then TooManySge
                     else QueueFull
      ensures err == QueueFull ==> |free| == 1
    {
      nreq, err := 0, NoError;
      while nreq < |wrs|
        invariant nreq <= |wrs| && nreq < |old(free)| && free == old(free)[nreq..]
        invariant Valid() && err == NoError
        invariant forall k :: 0 <= k < nreq ==> wrs[k].numSge <= maxGs
        invariant wrid[..] == Recorded(old(wrid[..]), old(free), wrs, nreq)
      {
        if wrs[nreq].numSge > maxGs {
          err := TooManySge;
          break;
        }
        if head == tail {
          assert |free| == 1;
          err := QueueFull;
          break;
        }
        assert |free| > 1 && old(free)[nreq] == head;
        ghost var ids := wrid[..];
        wrid[head] := wrs[nreq].id;
        assert wrid[..] == ids[head := wrs[nreq].id];
        head := next[head];
        free := free[1..];
        nreq := nreq + 1;
      }
    }

    /** mlx5_free_srq_wqe */
    method FreeWqe(ind: nat)
      requires Valid() && ind in Posted(next.Length, free)
      modifies this`tail, this`free, next
      ensures Valid() && free == old(free) + [ind]
      ensures Next(old(View()), Free(ind), View())
    {
      next[tail] := ind % WIDTH;
      tail := ind;
      free := free + [ind];
      assert forall i :: 0 <= i < |free| - 1 ==> free[i] == old(free)[i];
    }
  }
}
