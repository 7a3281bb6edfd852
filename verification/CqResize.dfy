/** Moving the pending entries of a completion queue to a ring of another size. */
module CqResize {

  import opened IndexMath
  import opened CqRing
  import opened CqDecompress
  import opened CqPending

  function InvalidSlot(): Slot {
    Slot(Rest(0, 0, 0, 0, 0, 0, 0, 0, 0, 0, 0, 0, 0), 0, 0, 0, 0, 0, 0, INVALID, 0, 0)
  }

  /** mlx5_alloc_cq_buf */
  ghost predicate Fresh(ring: seq<Slot>) {
    forall k {:trigger ring[k]} :: 0 <= k < |ring| ==> ring[k] == InvalidSlot()
  }

  /** The first `k` entries are software's and none of them is the marker. */
  ghost predicate SoftwareTo(ring: seq<Slot>, cons: nat, k: nat)
    requires |ring| > 0
  {
    k == 0 || (SoftwareTo(ring, cons, k - 1) && Title(ring, cons + k - 1).owner == Parity(cons + k - 1, |ring|)
               && Title(ring, cons + k - 1).opcode != RESIZE_CQ)
  }

  /** The marker stands `k` entries after index `cons`, everything up to it is owned by
      software, and it is the first one. */
  ghost predicate MarkedAt(ring: seq<Slot>, cons: nat, k: nat) {
    && k < |ring| && SoftwareTo(ring, cons, k)
    && Title(ring, cons + k).owner == Parity(cons + k, |ring|)
    && Title(ring, cons + k).opcode == RESIZE_CQ
  }

  /** The copy stops `k` entries after index `cons`: at what reads as the marker, or, giving up, at
      an owner bit that does not fit. */
  ghost predicate StopsAt(ring: seq<Slot>, cons: nat, k: nat, ok: bool) {
    && 0 < |ring| && k <= |ring| && SoftwareTo(ring, cons, k)
    && if ok then MarkedAt(ring, cons, k) else Title(ring, cons + k).owner != Parity(cons + k, |ring|)
  }

  /** The `k` entries from index `cons` on. */
  ghost function Before(ring: seq<Slot>, cons: nat, k: nat): (es: seq<Slot>)
    requires |ring| > 0
    ensures |es| == k
  {
    if k == 0 then [] else Before(ring, cons, k - 1) + [Title(ring, cons + k - 1)]
  }

  lemma BeforeStep(ring: seq<Slot>, cons: nat, i: nat)
    requires |ring| > 0 && cons <= i
    ensures Before(ring, cons, i + 1 - cons) == Before(ring, cons, i - cons) + [Title(ring, i)]
  {
  }

  /** The same entries with the owner bits of indices `n`, `n + 1`, ... of a ring of `size`. */
  ghost function Retagged(es: seq<Slot>, n: nat, size: nat): (r: seq<Slot>)
    requires size > 0
    ensures |r| == |es|
  {
    if es == [] then []
    else Retagged(es[..|es| - 1], n, size) + [es[|es| - 1].(owner := Parity(n + |es| - 1, size))]
  }

  lemma {:induction false} RetaggedAt(es: seq<Slot>, n: nat, size: nat, j: nat)
    requires size > 0 && j < |es|
    ensures Retagged(es, n, size)[j] == es[j].(owner := Parity(n + j, size))
  {
    if j < |es| - 1 { RetaggedAt(es[..|es| - 1], n, size, j); }
  }

  /** What the copy leaves in a fresh ring: entry after entry, one index further on. */
  ghost function Copied(blank: seq<Slot>, cons: nat, es: seq<Slot>): (r: seq<Slot>)
    requires |blank| > 0
    ensures |r| == |blank|
  {
    Write(blank, cons + 1, Retagged(es, cons + 1, |blank|), |es|)
  }

  lemma {:induction false} WritePrefix(ring: seq<Slot>, idx: nat, a: seq<Slot>, b: seq<Slot>, n: nat)
    requires |ring| > 0 && n <= |a| && n <= |b| && a[..n] == b[..n]
    ensures Write(ring, idx, a, n) == Write(ring, idx, b, n)
  {
    if n > 0 {
      assert a[..n - 1] == a[..n][..n - 1] && b[..n - 1] == b[..n][..n - 1];
      assert a[n - 1] == a[..n][n - 1] && b[n - 1] == b[..n][n - 1];
      WritePrefix(ring, idx, a, b, n - 1);
    }
  }

  lemma RetaggedSnoc(es: seq<Slot>, e: Slot, n: nat, size: nat, e': Slot)
    requires size > 0 && e' == e.(owner := Parity(n + |es|, size))
    ensures Retagged(es + [e], n, size) == Retagged(es, n, size) + [e']
  {
    assert (es + [e])[..|es|] == es;
  }

  lemma WriteSnoc(ring: seq<Slot>, idx: nat, es: seq<Slot>, e: Slot)
    requires |ring| > 0
    ensures Write(ring, idx, es + [e], |es| + 1) == Write(ring, idx, es, |es|)[Pos(idx + |es|, |ring|) := e]
  {
    assert (es + [e])[..|es|] == es[..|es|];
    WritePrefix(ring, idx, es + [e], es, |es|);
  }

  /** One more entry copied. */
  lemma CopyStep(blank: seq<Slot>, cons: nat, es: seq<Slot>, e: Slot, e': Slot)
    requires |blank| > 0 && e' == e.(owner := Parity(cons + 1 + |es|, |blank|))
    ensures Copied(blank, cons, es + [e]) == Copied(blank, cons, es)[Pos(cons + 1 + |es|, |blank|) := e']
  {
    RetaggedSnoc(es, e, cons + 1, |blank|, e');
    CopySnoc(blank, cons, es, e, e');
  }

  lemma CopySnoc(blank: seq<Slot>, cons: nat, es: seq<Slot>, e: Slot, e': Slot)
    requires |blank| > 0
    requires Retagged(es + [e], cons + 1, |blank|) == Retagged(es, cons + 1, |blank|) + [e']
    ensures Copied(blank, cons, es + [e]) == Copied(blank, cons, es)[Pos(cons + 1 + |es|, |blank|) := e']
  {
    WriteSnoc(blank, cons + 1, Retagged(es, cons + 1, |blank|), e');
  }

  // ---------------------------------------------------------------------------
  // Looking for the marker
  // ---------------------------------------------------------------------------

  lemma {:induction false} SoftwareBefore(ring: seq<Slot>, cons: nat, k: nat, j: nat)
    requires |ring| > 0 && SoftwareTo(ring, cons, k) && j < k
    ensures SoftwareTo(ring, cons, j)
    ensures Title(ring, cons + j).owner == Parity(cons + j, |ring|) && Title(ring, cons + j).opcode != RESIZE_CQ
  {
    if j < k - 1 { SoftwareBefore(ring, cons, k - 1, j); }
  }

  lemma LapEnd(cons: nat, i: nat, size: nat)
    requires size > 0 && cons < i <= cons + size
    ensures Pos(i, size) == Pos(cons, size) <==> i == cons + size
    ensures i == cons + size ==> Parity(i, size) != Parity(cons, size)
  {
    if i < cons + size { PosDiffer(cons, i, size); }
  }

  lemma NotMarked(ring: seq<Slot>, cons: nat, k: nat)
    requires |ring| > 0 && SoftwareTo(ring, cons, k) && k <= |ring|
    requires k < |ring| ==> Title(ring, cons + k).owner != Parity(cons + k, |ring|)
    ensures NeverMarked(ring, cons)
  {
    forall j: nat ensures !MarkedAt(ring, cons, j) {
      if j < k { SoftwareBefore(ring, cons, k, j); }
      if MarkedAt(ring, cons, j) && k < j { SoftwareBefore(ring, cons, j, k); }
    }
  }

  ghost predicate NeverMarked(ring: seq<Slot>, cons: nat) {
    forall j: nat :: !MarkedAt(ring, cons, j)
  }

  /** The copy has come to index `i`: everything so far is software's and none of it the marker. */
  ghost predicate Reached(ring: seq<Slot>, cons: nat, i: nat) {
    && cons <= i < cons + |ring| && SoftwareTo(ring, cons, i - cons)
    && Title(ring, i).owner == Parity(i, |ring|)
  }

  lemma ReachedEnds(ring: seq<Slot>, cons: nat, i: nat)
    requires i > 0 && Reached(ring, cons, i - 1) && Title(ring, i - 1).opcode != RESIZE_CQ
    requires Title(ring, i).owner != Parity(i, |ring|)
    ensures StopsAt(ring, cons, i - cons, false) && NeverMarked(ring, cons)
  {
    NotMarked(ring, cons, i - cons);
  }

  lemma ReachedNext(ring: seq<Slot>, cons: nat, i: nat)
    requires i > 0 && Reached(ring, cons, i - 1) && Title(ring, i - 1).opcode != RESIZE_CQ
    requires Title(ring, i).owner == Parity(i, |ring|)
    ensures Reached(ring, cons, i) && Pos(i, |ring|) != Pos(cons, |ring|)
  {
    LapEnd(cons, i, |ring|);
    SoftwareBefore(ring, cons, i - cons, 0);
  }
}
