/** The owner-bit protocol: a producer and a consumer that share nothing but the ring agree
    on a first-in first-out queue, over any number of laps. */
module CqFifo {

  import opened IndexMath
  import opened CqRing

  /** `produced` and `consumed` are the whole histories: what hardware wrote and what
      software read. */
  datatype Queue = Queue(ring: seq<Slot>, produced: seq<Slot>, consumed: seq<Slot>) {
    function Prod(): nat { |produced| }
    function Cons(): nat { |consumed| }
  }

  datatype Step = Produce(entry: Slot) | Poll

  /** mlx5_alloc_cq_buf: every slot starts invalid. */
  ghost predicate Fresh(s: Slot) {
    s.opcode == INVALID
  }

  ghost predicate Init(q: Queue) {
    |q.ring| > 0 && q.produced == [] && q.consumed == [] && forall k :: 0 <= k < |q.ring| ==> Fresh(q.ring[k])
  }

  /** Hardware writes the next index unless the ring is full. It never writes an entry that
      says it is invalid. */
  function Produced(q: Queue, entry: Slot): Queue
    requires |q.ring| > 0
  {
    var p := q.Prod();
    var e := entry.(owner := Parity(p, |q.ring|));
    Queue(q.ring[Pos(p, |q.ring|) := e], q.produced + [e], q.consumed)
  }

  /** get_next_cqe: software reads the slot of its index when that is software-owned. */
  function Polled(q: Queue): Queue
    requires |q.ring| > 0
  {
    if Accept(q.ring, q.Cons()) then
      q.(consumed := q.consumed + [q.ring[Pos(q.Cons(), |q.ring|)]])
    else q
  }

  ghost predicate Next(q: Queue, step: Step, q': Queue)
    requires |q.ring| > 0
  {
    match step
    case Produce(entry) => entry.opcode != INVALID && q.Prod() < q.Cons() + |q.ring| && q' == Produced(q, entry)
    case Poll => q' == Polled(q)
  }

  ghost predicate Run(qs: seq<Queue>, steps: seq<Step>) {
    && |qs| == |steps| + 1
    && (forall i :: 0 <= i < |qs| ==> |qs[i].ring| > 0)
    && Init(qs[0])
    && forall i :: 0 <= i < |steps| ==> Next(qs[i], steps[i], qs[i + 1])
  }

  /** The slot of every index from one lap back up to the producer's holds that index's
      entry; slots never written are invalid. */
  ghost predicate Holds(q: Queue, j: nat)
    requires |q.ring| > 0 && j < |q.produced|
  {
    q.ring[Pos(j, |q.ring|)] == q.produced[j]
  }

  ghost predicate Inv(q: Queue) {
    && |q.ring| > 0
    && q.consumed <= q.produced
    && q.Prod() <= q.Cons() + |q.ring|
    && (forall j {:trigger q.produced[j]} :: 0 <= j < q.Prod() ==>
          q.produced[j].opcode != INVALID && q.produced[j].owner == Parity(j, |q.ring|))
    && (forall j {:trigger Holds(q, j)} :: 0 <= j < q.Prod() <= j + |q.ring| ==> Holds(q, j))
    && (forall k {:trigger q.ring[k]} :: q.Prod() <= k < |q.ring| ==> Fresh(q.ring[k]))
  }

  lemma ProduceKeepsInv(q: Queue, entry: Slot)
    requires Inv(q) && entry.opcode != INVALID && q.Prod() < q.Cons() + |q.ring|
    ensures Inv(Produced(q, entry))
  {
    var q', p, size := Produced(q, entry), q.Prod(), |q.ring|;
    assert q'.produced[p].opcode == entry.opcode;
    forall j: nat | j < q'.Prod() <= j + size ensures Holds(q', j) {
      if j < p {
        assert Holds(q, j);
        PosDiffer(j, p, size);
      }
    }
    forall k | q'.Prod() <= k < size ensures Fresh(q'.ring[k]) {
    }
  }

  /** Software accepts its index exactly when hardware has produced it. */
  lemma AcceptsWhatIsProduced(q: Queue)
    requires Inv(q)
    ensures Accept(q.ring, q.Cons()) <==> q.Cons() < q.Prod()
    ensures q.Cons() < q.Prod() ==> q.ring[Pos(q.Cons(), |q.ring|)] == q.produced[q.Cons()]
  {
    var c, size := q.Cons(), |q.ring|;
    if c < q.Prod() {
      assert Holds(q, c);
    } else if c >= size {
      assert c == q.Prod();
      assert Holds(q, c - size);
    }
  }

  lemma PollKeepsInv(q: Queue)
    requires Inv(q)
    ensures Inv(Polled(q))
  {
    AcceptsWhatIsProduced(q);
    var q' := Polled(q);
    forall j: nat | j < q'.Prod() <= j + |q.ring| ensures Holds(q', j) {
      assert Holds(q, j);
    }
  }

  /** Over every run, what software has read is the beginning of what hardware wrote, in
      order, nothing skipped or read twice, and the next poll succeeds exactly when
      something is left to read. */
  lemma {:induction false} Fifo(qs: seq<Queue>, steps: seq<Step>, i: nat)
    requires Run(qs, steps) && i < |qs|
    ensures Inv(qs[i])
    ensures qs[i].consumed <= qs[i].produced
    ensures Accept(qs[i].ring, |qs[i].consumed|) <==> qs[i].consumed != qs[i].produced
  {
    if i > 0 {
      Fifo(qs, steps, i - 1);
      match steps[i - 1]
      case Produce(entry) => ProduceKeepsInv(qs[i - 1], entry);
      case Poll => PollKeepsInv(qs[i - 1]);
    }
    AcceptsWhatIsProduced(qs[i]);
  }
}
