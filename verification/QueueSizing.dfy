/** How large completion queues and shared receive queues are made
    (drivers/libmlx5-1.0.2mlnx1/src/verbs.c), and what that is enough for. */
module QueueSizing {

  import opened SqSizing
  import opened CqRing
  import opened CqPending
  import Srq

  const MAX_CQE := 0x100_0000

  /** create_cq: a power of two with an entry to spare. */
  method CqSize(cqe: int) returns (ok: bool, ncqe: nat)
    ensures ok <==> 0 < cqe < MAX_CQE
    ensures ok ==> IsPow2(ncqe) && cqe < ncqe <= MAX_CQE && ncqe < 2 * (cqe + 1)
  {
    if cqe <= 0 { return false, 0; }
    var n := RoundUpPow2(cqe + 1);
    if n > MAX_CQE || n < cqe + 1 {
      if cqe + 1 <= MAX_CQE {
        LargePow2s();
        NextPow2(MAX_CQE, n);
      }
      return false, 0;
    }
    return true, n;
  }

  /** The spare entry makes cleaning complete: while no more completions are pending than the queue was
      made for, every entry of the resource goes. */
  lemma CleanWithinSize(t: Target, p: seq<Slot>, cqe: nat, ncqe: nat)
    requires |p| <= cqe < ncqe
    ensures var k := Looked(|p|, ncqe); Keep(t, p[..k]) + p[k..] == Keep(t, p)
  {
    CleanComplete(t, p, ncqe);
  }

  /** mlx5_create_srq: one entry more than asked for, rounded up. */
  method SrqSize(maxWr: nat) returns (ok: bool, max: nat)
    ensures ok <==> maxWr < 0x4000_0000
    ensures ok ==> IsPow2(max) && maxWr < max < 2 * (maxWr + 1)
  {
    var n := RoundUpPow2(maxWr + 1);
    return n >= 0, if n >= 0 then n else 0;
  }

  /** The entry never handed out is that one: a post is refused only when as many requests as were
      asked for are outstanding. */
  lemma RefusedOnlyWhenFull(p: Srq.Pool, maxWr: nat)
    requires Srq.PoolInv(p) && maxWr < p.max && |p.free| == 1
    ensures |Srq.Posted(p.max, p.free)| >= maxWr
  {
    Srq.OutstandingCount(p);
  }
}
