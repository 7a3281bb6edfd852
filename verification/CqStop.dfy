/** Where the resize copy stops, compared with where hardware put the marker, and what can be polled
    afterwards (drivers/libmlx5-1.0.2mlnx1/src/cq.c:1131-1176, verbs.c:800-805). */
module CqStop {

  import opened IndexMath
  import opened CqRing
  import opened CqDecompress
  import opened CqPending
  import opened CqResize
  import opened CqMove

  // ---------------------------------------------------------------------------
  // Hardware's marker
  // ---------------------------------------------------------------------------

  /** The fields of the last byte are as wide as they are. */
  ghost predicate BitsOk(s: Slot) {
    s.opcode < 16 && s.format < 4 && s.rest.solicited < 2 && s.owner < 2
  }

  ghost predicate Wide(ring: seq<Slot>) {
    forall i {:trigger ring[i]} :: 0 <= i < |ring| ==> BitsOk(ring[i])
  }

  /** Polling yields `room` entries, none of which is the marker, and every session met has an entry and
      ends, with its mini entries, before index `limit`. */
  ghost predicate Promised(ring: seq<Slot>, n: nat, room: nat, limit: nat, mp: IsMpRq)
    requires |ring| > 0
    decreases room
  {
    room == 0 || (&& Accept(ring, n) && Title(Prepare(ring, n, mp), n).opcode != RESIZE_CQ
                  && (IsSession(ring, n) ==> SessionWithin(ring, n, limit))
                  && Promised(Prepare(ring, n, mp), n + 1, room - 1, limit, mp))
  }

  /** Hardware has written `k` entries from index `cons` on, all sessions ending among them, and then
      the marker. */
  ghost predicate HardwareMarked(ring: seq<Slot>, cons: nat, k: nat, mp: IsMpRq) {
    && k < |ring| && Wide(ring) && Promised(ring, cons, k, cons + k, mp)
    && Title(ring, cons + k).owner == Parity(cons + k, |ring|) && Title(ring, cons + k).opcode == RESIZE_CQ
  }

  lemma {:induction false} PromisedCount(ring: seq<Slot>, n: nat, room: nat, limit: nat, mp: IsMpRq)
    requires |ring| > 0 && Promised(ring, n, room, limit, mp)
    ensures |Pending(ring, n, room, mp)| == room
    decreases room
  {
    if room > 0 { PromisedCount(Prepare(ring, n, mp), n + 1, room - 1, limit, mp); }
  }

  lemma {:induction false} PromisedContained(ring: seq<Slot>, n: nat, room: nat, limit: nat, mp: IsMpRq)
    requires |ring| > 0 && Promised(ring, n, room, limit, mp)
    ensures Contained(ring, n, room, limit, mp)
    decreases room
  {
    if room > 0 { PromisedContained(Prepare(ring, n, mp), n + 1, room - 1, limit, mp); }
  }

  /** The copy never goes past hardware's marker, and comes to it exactly when every slot before it
      has a fitting owner bit and does not read as the marker. */
  lemma StopsBefore(ring: seq<Slot>, cons: nat, k: nat, ok: bool, hw: nat, mp: IsMpRq)
    requires HardwareMarked(ring, cons, hw, mp) && StopsAt(ring, cons, k, ok)
    ensures k <= hw && (SoftwareTo(ring, cons, hw) <==> k == hw) && (k == hw ==> ok)
  {
    if hw < k { SoftwareBefore(ring, cons, k, hw); }
    if k < hw && SoftwareTo(ring, cons, hw) { SoftwareBefore(ring, cons, hw, k); }
  }

  // ---------------------------------------------------------------------------
  // Giving up
  // ---------------------------------------------------------------------------

  /** After a copy of less than two laps that gave up, there is nothing to poll: the consumer's slot
      was not written, or was written for the next lap. */
  lemma GiveUpCloses(blank: seq<Slot>, cons: nat, es: seq<Slot>)
    requires |blank| > 0 && Fresh(blank) && |es| < 2 * |blank|
    ensures !Accept(Copied(blank, cons, es), cons)
  {
    var size := |blank|;
    var tags, last := Retagged(es, cons + 1, size), size - 1;
    if |es| < size {
      WriteAt(blank, cons + 1, tags, |es|, last);
    } else {
      WriteLast(blank, cons + 1, tags, |es|, last);
      RetaggedAt(es, cons + 1, size, last);
    }
  }

  /** However much was copied, giving up loses what was pending. */
  lemma GiveUpLoses(blank: seq<Slot>, ring: seq<Slot>, cons: nat, k: nat, hw: nat, moved: seq<Slot>, fuel: nat,
                    mp: IsMpRq)
    requires |blank| > 0 && Fresh(blank) && |ring| > 0 && k < hw && Promised(ring, cons, hw, cons + hw, mp)
    requires moved == Copied(blank, cons, Before(ring, cons, k)) && Pollable(moved, cons, fuel, mp)
    ensures |Pending(moved, cons, fuel, mp)| < hw && !Preserved(ring, cons, hw, moved, cons, fuel, mp)
  {
    PromisedCount(ring, cons, hw, cons + hw, mp);
    if k < 2 * |blank| {
      GiveUpCloses(blank, cons, Before(ring, cons, k));
    } else {
      LessThanTwoLaps(moved, cons, cons, cons + |moved|, fuel, mp, |Pending(moved, cons, fuel, mp)|);
    }
  }

  // ---------------------------------------------------------------------------
  // A slot that reads as the marker
  // ---------------------------------------------------------------------------

  /** A slot of mini entries reads as the marker exactly when the eighth one's byte count has 5 in
      bits 4 to 7. */
  lemma ReadsAsMarker(s: Slot)
    requires BitsOk(s)
    ensures s.opcode == RESIZE_CQ <==> MiniOf(s, 7).byteCnt / 16 % 16 == 5
  {
    var low := 4 * s.format + 2 * s.rest.solicited + s.owner;
    var high := 0x100 * s.wqeCounter + s.rest.signature;
    assert MiniOf(s, 7).byteCnt == 0x100 * high + 16 * s.opcode + low;
    assert MiniOf(s, 7).byteCnt / 16 == 16 * high + s.opcode;
  }

  ghost predicate CutMini(n: nat, count: nat, stop: nat, j: nat) {
    j < count && j % 8 == 7 && MiniSlot(n, j) == stop
  }

  /** The session the copy stops in is the last before the marker, at index `limit`, and the stop is
      not one of its mini slots with the eighth mini entry in use. */
  ghost predicate MayHarmNothing(ring: seq<Slot>, n: nat, stop: nat, limit: nat, mp: IsMpRq)
    requires |ring| > 0
    decreases stop - n
  {
    && n < stop
    && if IsSession(ring, n) && n + Count(ring, n) > stop then
         n + Count(ring, n) == limit && forall j: nat :: !CutMini(n, Count(ring, n), stop, j)
       else
         MayHarmNothing(Prepare(ring, n, mp), n + 1, stop, limit, mp)
  }

  ghost predicate ClosedAt(ring: seq<Slot>, e: nat) {
    |ring| > 0 && !Accept(ring, e)
  }

  /** Nothing can be read for a whole lap from index `from` on. */
  ghost predicate ClosedFrom(ring: seq<Slot>, from: nat) {
    forall e: nat {:trigger ClosedAt(ring, e)} :: from <= e < from + |ring| ==> ClosedAt(ring, e)
  }

  /** The copy stopped at index `stop`; what the new ring has there does not read as the marker. */
  ghost predicate StoppedAt(ring: seq<Slot>, stop: nat, ring': seq<Slot>) {
    && |ring| > 0 && |ring'| > 0 && Title(ring, stop).opcode == RESIZE_CQ && BitsOk(Title(ring, stop))
    && Title(ring', stop + 1).opcode != RESIZE_CQ && BitsOk(Title(ring', stop + 1))
  }

  lemma ClosedKeepsAt(ring: seq<Slot>, n: nat, from: nat, mp: IsMpRq, e: nat)
    requires ClosedFrom(ring, from) && |ring| > 0 && n < from <= n + |ring| && from <= e < from + |ring|
    requires IsSession(ring, n) ==> n + Count(ring, n) <= from
    ensures ClosedAt(Prepare(ring, n, mp), e)
  {
    assert ClosedAt(ring, e);
    if IsSession(ring, n) {
      var size, mpRq := |ring|, mp(Payload(Title(ring, n)));
      var t := if e < n + size then e - n else e - size - n;
      assert Pos(n + t, size) == Pos(e, size);
      if t < Count(ring, n) { ExpandedAt(ring, n, mpRq, t); } else { ExpandedElsewhere(ring, n, mpRq, t); }
    }
  }

  lemma ClosedKeeps(ring: seq<Slot>, n: nat, from: nat, mp: IsMpRq)
    requires ClosedFrom(ring, from) && |ring| > 0 && n < from <= n + |ring|
    requires IsSession(ring, n) ==> n + Count(ring, n) <= from
    ensures ClosedFrom(Prepare(ring, n, mp), from)
  {
    forall e: nat | from <= e < from + |ring| ensures ClosedAt(Prepare(ring, n, mp), e) {
      ClosedKeepsAt(ring, n, from, mp, e);
    }
  }

  /** A slot behind a session, or its first, does not come to read as the marker. */
  lemma PrepareOpcode(ring: seq<Slot>, n: nat, e: nat, mp: IsMpRq)
    requires |ring| > 0 && n < e <= n + |ring|
    requires IsSession(ring, n) ==> 1 <= Count(ring, n) && n + Count(ring, n) <= e
    requires Title(ring, e).opcode != RESIZE_CQ && BitsOk(Title(ring, e))
    requires Title(ring, n).opcode != RESIZE_CQ && (e == n + |ring| ==> BitsOk(Title(ring, n)))
    ensures Title(Prepare(ring, n, mp), e).opcode != RESIZE_CQ && BitsOk(Title(Prepare(ring, n, mp), e))
  {
    if IsSession(ring, n) {
      var mpRq := mp(Payload(Title(ring, n)));
      if e < n + |ring| {
        ExpandedElsewhere(ring, n, mpRq, e - n);
      } else {
        assert Pos(e, |ring|) == Pos(n, |ring|);
        ExpandedAt(ring, n, mpRq, 0);
      }
    }
  }

  /** Expanding a session leaves a slot after it alone. */
  lemma PrepareLeaves(ring: seq<Slot>, n: nat, e: nat, mp: IsMpRq)
    requires |ring| > 0 && n < e < n + |ring| && (IsSession(ring, n) ==> n + Count(ring, n) <= e)
    ensures Title(Prepare(ring, n, mp), e) == Title(ring, e)
  {
    if IsSession(ring, n) { ExpandedElsewhere(ring, n, mp(Payload(Title(ring, n))), e - n); }
  }

  /** Polling takes the title's opcode. */
  lemma HeadOpcode(ring: seq<Slot>, n: nat, mp: IsMpRq)
    requires |ring| > 0 && (IsSession(ring, n) ==> 1 <= Count(ring, n) <= |ring|)
    ensures Title(Prepare(ring, n, mp), n).opcode == Title(ring, n).opcode
  {
    if IsSession(ring, n) { ExpandedAt(ring, n, mp(Payload(Title(ring, n))), 0); }
  }

  lemma PolledDiffer(p: seq<Slot>, p': seq<Slot>, j: nat)
    requires j < |p| && j < |p'| && p[j].byteCnt != p'[j].byteCnt
    ensures Payloads(p') != Payloads(p)
  {
    PayloadsAt(p, j);
    PayloadsAt(p', j);
  }

  lemma EighthAt(ring: seq<Slot>, n: nat, stop: nat, j: nat)
    requires |ring| > 0 && j % 8 == 7 && MiniSlot(n, j) == stop
    ensures MiniAt(ring, n, j) == MiniOf(Title(ring, stop), 7)
  {
  }

  /** A used eighth mini entry is polled from the slot it stands in. */
  lemma EighthPolled(ring: seq<Slot>, n: nat, stop: nat, fuel: nat, mp: IsMpRq, j: nat) returns (p: seq<Slot>)
    requires |ring| > 0 && Accept(ring, n) && IsSession(ring, n) && Count(ring, n) <= fuel && Count(ring, n) <= |ring|
    requires CutMini(n, Count(ring, n), stop, j) && BitsOk(Title(ring, stop))
    ensures p == Pending(ring, n, fuel, mp) && j < |p|
    ensures p[j].byteCnt / 16 % 16 == 5 <==> Title(ring, stop).opcode == RESIZE_CQ
  {
    PendingOfSession(ring, n, fuel, mp, j);
    EighthAt(ring, n, stop, j);
    ReadsAsMarker(Title(ring, stop));
    p := Pending(ring, n, fuel, mp);
  }

  /** The stop is a mini slot of the session at the head whose eighth mini entry is used: it shows. */
  lemma CutHeadShows(ring: seq<Slot>, n: nat, stop: nat, ring': seq<Slot>, room: nat, fuel: nat, mp: IsMpRq, j: nat)
    requires Twin(ring, ring', n) && StoppedAt(ring, stop, ring') && Accept(ring, n) && IsSession(ring, n)
    requires Count(ring, n) <= room <= fuel && Count(ring, n) <= |ring| && Count(ring, n) <= |ring'|
    requires CutMini(n, Count(ring, n), stop, j)
    ensures Payloads(Pending(ring', n + 1, fuel, mp)) != Payloads(Pending(ring, n, room, mp))
  {
    TwinReads(ring, ring', n);
    var p := EighthPolled(ring, n, stop, room, mp, j);
    var p' := EighthPolled(ring', n + 1, stop + 1, fuel, mp, j);
    PolledDiffer(p, p', j);
  }

  /** Plain entries in a row with nothing after them are all there is to poll. */
  lemma {:induction false} RunEnds(ring: seq<Slot>, n: nat, end: nat, fuel: nat, mp: IsMpRq)
    requires |ring| > 0 && n <= end <= n + fuel && PlainRun(ring, n, end) && !Accept(ring, end)
    ensures |Pending(ring, n, fuel, mp)| == end - n
    decreases fuel
  {
    if n < end {
      PendingPlainHead(ring, n, fuel, mp);
      RunEnds(ring, n + 1, end, fuel - 1, mp);
    }
  }

  /** A session with nothing after it is all there is to poll. */
  lemma SessionEnds(ring: seq<Slot>, n: nat, c: nat, fuel: nat, mp: IsMpRq)
    requires |ring| > 0 && Accept(ring, n) && IsSession(ring, n) && Count(ring, n) == c
    requires 1 <= c <= |ring| && c <= fuel && !Accept(ring, n + c)
    ensures |Pending(ring, n, fuel, mp)| == c
  {
    var r := SessionRun(ring, n, fuel, mp);
    StaysClosed(ring, n, n + c, mp);
    RunEnds(r, n, n + c, fuel, mp);
  }

  // ---------------------------------------------------------------------------
  // Stopping before hardware's marker
  // ---------------------------------------------------------------------------

  /** The copy stops within the session at `n`. */
  ghost predicate CutHere(ring: seq<Slot>, n: nat, stop: nat)
    requires |ring| > 0
  {
    IsSession(ring, n) && n + Count(ring, n) > stop
  }

  /** The session at `n`, within which the copy stops, ends before the marker, and as many entries are
      pending as there are up to it. */
  ghost predicate CutPromise(ring: seq<Slot>, n: nat, limit: nat, mp: IsMpRq)
    requires |ring| > 0
  {
    1 <= Count(ring, n) && n + Count(ring, n) <= limit && |Pending(ring, n, limit - n, mp)| == limit - n
  }

  /** What the stop takes from that session shows: entries behind it, or mini entries from one with the
      eighth in use on. */
  ghost predicate CutShowing(ring: seq<Slot>, n: nat, stop: nat, limit: nat)
    requires |ring| > 0
  {
    n + Count(ring, n) != limit || exists j: nat :: CutMini(n, Count(ring, n), stop, j)
  }

  /** Polling comes to a session in which the copy stops; every session before ends, with its mini
      entries, before the stop. */
  ghost predicate Walks(ring: seq<Slot>, n: nat, stop: nat, limit: nat, mp: IsMpRq)
    requires |ring| > 0
    decreases stop - n
  {
    && n < stop < limit && Accept(ring, n) && Title(ring, n).opcode != RESIZE_CQ
    && if CutHere(ring, n, stop) then CutPromise(ring, n, limit, mp)
       else && (IsSession(ring, n) ==> SessionWithin(ring, n, stop))
            && Walks(Prepare(ring, n, mp), n + 1, stop, limit, mp)
  }

  /** And there it shows. */
  ghost predicate Harmed(ring: seq<Slot>, n: nat, stop: nat, limit: nat, mp: IsMpRq)
    requires |ring| > 0
    decreases stop - n
  {
    && n < stop < limit && Accept(ring, n) && Title(ring, n).opcode != RESIZE_CQ
    && if CutHere(ring, n, stop) then CutPromise(ring, n, limit, mp) && CutShowing(ring, n, stop, limit)
       else && (IsSession(ring, n) ==> SessionWithin(ring, n, stop))
            && Harmed(Prepare(ring, n, mp), n + 1, stop, limit, mp)
  }

  lemma {:induction false} WalksHarmed(ring: seq<Slot>, n: nat, stop: nat, limit: nat, mp: IsMpRq)
    requires |ring| > 0 && Walks(ring, n, stop, limit, mp) && !MayHarmNothing(ring, n, stop, limit, mp)
    ensures Harmed(ring, n, stop, limit, mp)
    decreases stop - n
  {
    if !CutHere(ring, n, stop) { WalksHarmed(Prepare(ring, n, mp), n + 1, stop, limit, mp); }
  }

  /** What polling comes to is not the marker. */
  lemma HeadNotMarker(ring: seq<Slot>, n: nat, room: nat, limit: nat, mp: IsMpRq)
    requires |ring| > 0 && 0 < room && limit <= n + |ring| && Promised(ring, n, room, limit, mp)
    ensures Accept(ring, n) && Title(ring, n).opcode != RESIZE_CQ
    ensures IsSession(ring, n) ==> SessionWithin(ring, n, limit)
  {
    HeadOpcode(ring, n, mp);
  }

  lemma PollsOn(ring: seq<Slot>, n: nat, room: nat, limit: nat, mp: IsMpRq) returns (r: seq<Slot>)
    requires |ring| > 0 && 0 < room && Promised(ring, n, room, limit, mp)
    ensures r == Prepare(ring, n, mp) && Promised(r, n + 1, room - 1, limit, mp)
  {
    r := Prepare(ring, n, mp);
  }

  /** The stop reads as the marker, so it is neither polled next nor, which would come to the same, the
      only mini slot of a session of one entry. */
  lemma MinisBefore(ring: seq<Slot>, n: nat, room: nat, stop: nat, limit: nat, mp: IsMpRq)
    requires |ring| > 0 && limit == n + room && room <= |ring| && n < stop < limit && !CutHere(ring, n, stop)
    requires Promised(ring, n, room, limit, mp) && Title(ring, stop).opcode == RESIZE_CQ
    ensures IsSession(ring, n) ==> SessionWithin(ring, n, stop)
  {
    HeadNotMarker(ring, n, room, limit, mp);
    if IsSession(ring, n) && stop == n + 1 {
      var r := PollsOn(ring, n, room, limit, mp);
      PrepareLeaves(ring, n, stop, mp);
      HeadNotMarker(r, n + 1, room - 1, limit, mp);
    }
  }

  /** What is promised of the entries from `n` on when the copy stops at `stop`. */
  ghost predicate StopPromise(ring: seq<Slot>, n: nat, room: nat, stop: nat, limit: nat, mp: IsMpRq) {
    && |ring| > 0 && limit == n + room && room <= |ring| && n <= stop < limit
    && Promised(ring, n, room, limit, mp) && Title(ring, stop).opcode == RESIZE_CQ
  }

  lemma PromiseNext(ring: seq<Slot>, n: nat, room: nat, stop: nat, limit: nat, mp: IsMpRq) returns (r: seq<Slot>)
    requires StopPromise(ring, n, room, stop, limit, mp) && !CutHere(ring, n, stop)
    ensures room > 0 && StopPromise(r, n + 1, room - 1, stop, limit, mp)
    ensures Walks(r, n + 1, stop, limit, mp) ==> Walks(ring, n, stop, limit, mp)
  {
    HeadNotMarker(ring, n, room, limit, mp);
    MinisBefore(ring, n, room, stop, limit, mp);
    r := PollsOn(ring, n, room, limit, mp);
    PrepareLeaves(ring, n, stop, mp);
  }

  lemma PromiseHere(ring: seq<Slot>, n: nat, room: nat, stop: nat, limit: nat, mp: IsMpRq)
    requires StopPromise(ring, n, room, stop, limit, mp) && CutHere(ring, n, stop)
    ensures Walks(ring, n, stop, limit, mp)
  {
    HeadNotMarker(ring, n, room, limit, mp);
    PromisedCount(ring, n, room, limit, mp);
  }

  /** Either the copy stops in the session at `n`, or the question is the same one entry on. */
  lemma PromiseStep(ring: seq<Slot>, n: nat, room: nat, stop: nat, limit: nat, mp: IsMpRq)
    returns (here: bool, r: seq<Slot>)
    requires StopPromise(ring, n, room, stop, limit, mp)
    ensures here ==> Walks(ring, n, stop, limit, mp)
    ensures !here ==> room > 0 && StopPromise(r, n + 1, room - 1, stop, limit, mp)
    ensures !here && Walks(r, n + 1, stop, limit, mp) ==> Walks(ring, n, stop, limit, mp)
  {
    here, r := CutHere(ring, n, stop), ring;
    if here {
      PromiseHere(ring, n, room, stop, limit, mp);
    } else {
      r := PromiseNext(ring, n, room, stop, limit, mp);
    }
  }

  /** Hardware's promise puts the stop inside a session. */
  lemma {:induction false} StopWalks(ring: seq<Slot>, n: nat, room: nat, stop: nat, limit: nat, mp: IsMpRq)
    requires StopPromise(ring, n, room, stop, limit, mp)
    ensures Walks(ring, n, stop, limit, mp)
    decreases room
  {
    var here, r := PromiseStep(ring, n, room, stop, limit, mp);
    if !here { StopWalks(r, n + 1, room - 1, stop, limit, mp); }
  }

  lemma HardwareWalks(ring: seq<Slot>, cons: nat, k: nat, hw: nat, mp: IsMpRq)
    requires HardwareMarked(ring, cons, hw, mp) && MarkedAt(ring, cons, k) && k < hw
    ensures Walks(ring, cons, cons + k, cons + hw, mp)
  {
    StopWalks(ring, cons, hw, cons + k, cons + hw, mp);
  }

  /** Both rings polled up to `n`, or one index on, are alike up to the stop. */
  ghost predicate Stopped(ring: seq<Slot>, n: nat, m: nat, ring': seq<Slot>, stop: nat) {
    && Twins(ring, n, m, ring') && m < |ring| && stop == n + m
    && StoppedAt(ring, stop, ring') && ClosedFrom(ring', stop + 1)
    && (m == |ring'| ==> BitsOk(Title(ring', n + 1)))
  }

  lemma CutFits(ring: seq<Slot>, n: nat, m: nat, ring': seq<Slot>, stop: nat, fuel: nat, mp: IsMpRq)
    requires Stopped(ring, n, m, ring', stop) && m > 0 && CutHere(ring, n, stop) && Accept(ring, n)
    requires fuel > 0 && Pollable(ring', n + 1, fuel, mp)
    ensures Twin(ring, ring', n) && Accept(ring', n + 1) && IsSession(ring', n + 1)
    ensures Count(ring', n + 1) == Count(ring, n) <= |ring'| && !Accept(ring', n + 1 + Count(ring, n))
  {
    assert Twin(ring, ring', n);
    TwinReads(ring, ring', n);
    assert ClosedAt(ring', n + 1 + Count(ring, n));
  }

  /** Entries behind the session are gone. */
  lemma CutTail(ring: seq<Slot>, n: nat, ring': seq<Slot>, room: nat, fuel: nat, mp: IsMpRq)
    requires |ring| > 0 && |ring'| > 0 && |Pending(ring, n, room, mp)| == room <= fuel
    requires Accept(ring', n + 1) && IsSession(ring', n + 1) && 1 <= Count(ring', n + 1) < room
    requires Count(ring', n + 1) <= |ring'| && !Accept(ring', n + 1 + Count(ring', n + 1))
    ensures Payloads(Pending(ring', n + 1, fuel, mp)) != Payloads(Pending(ring, n, room, mp))
  {
    var p := Pending(ring, n, room, mp);
    SessionEnds(ring', n + 1, Count(ring', n + 1), fuel, mp);
    assert |Payloads(p)| == room;
  }

  lemma CutShowsHere(ring: seq<Slot>, n: nat, m: nat, ring': seq<Slot>, stop: nat, room: nat, fuel: nat, mp: IsMpRq)
    requires Stopped(ring, n, m, ring', stop) && m > 0 && CutHere(ring, n, stop) && Accept(ring, n)
    requires CutPromise(ring, n, n + room, mp) && CutShowing(ring, n, stop, n + room) && room <= fuel && room <= |ring|
    requires Pollable(ring', n + 1, fuel, mp)
    ensures Payloads(Pending(ring', n + 1, fuel, mp)) != Payloads(Pending(ring, n, room, mp))
  {
    CutFits(ring, n, m, ring', stop, fuel, mp);
    if Count(ring, n) == room {
      var j: nat :| CutMini(n, Count(ring, n), stop, j);
      CutHeadShows(ring, n, stop, ring', room, fuel, mp, j);
    } else {
      CutTail(ring, n, ring', room, fuel, mp);
    }
  }

  /** Polling the new ring changes neither what stands at the stop nor that nothing is behind it. */
  lemma NewStays(ring: seq<Slot>, n: nat, e: nat, mp: IsMpRq) returns (r: seq<Slot>)
    requires |ring| > 0 && n < e <= n + |ring| && ClosedFrom(ring, e)
    requires IsSession(ring, n) ==> 1 <= Count(ring, n) && n + Count(ring, n) <= e
    requires Title(ring, e).opcode != RESIZE_CQ && BitsOk(Title(ring, e))
    requires Title(ring, n).opcode != RESIZE_CQ && (e == n + |ring| ==> BitsOk(Title(ring, n)))
    ensures r == Prepare(ring, n, mp) && Title(r, e).opcode != RESIZE_CQ && BitsOk(Title(r, e)) && ClosedFrom(r, e)
  {
    PrepareOpcode(ring, n, e, mp);
    ClosedKeeps(ring, n, e, mp);
    r := Prepare(ring, n, mp);
  }

  lemma OldStays(ring: seq<Slot>, n: nat, e: nat, mp: IsMpRq) returns (r: seq<Slot>)
    requires |ring| > 0 && n < e < n + |ring| && (IsSession(ring, n) ==> n + Count(ring, n) <= e)
    ensures r == Prepare(ring, n, mp) && Title(r, e) == Title(ring, e)
  {
    PrepareLeaves(ring, n, e, mp);
    r := Prepare(ring, n, mp);
  }

  lemma StopStays(ring: seq<Slot>, n: nat, m: nat, ring': seq<Slot>, stop: nat, mp: IsMpRq)
    returns (r: seq<Slot>, r': seq<Slot>)
    requires Stopped(ring, n, m, ring', stop) && m > 0 && Title(ring, n).opcode != RESIZE_CQ
    requires IsSession(ring, n) ==> 1 <= Count(ring, n) <= m
    ensures r == Prepare(ring, n, mp) && r' == Prepare(ring', n + 1, mp)
    ensures StoppedAt(r, stop, r') && ClosedFrom(r', stop + 1)
  {
    assert Twin(ring, ring', n);
    TwinReads(ring, ring', n);
    r := OldStays(ring, n, stop, mp);
    r' := NewStays(ring', n + 1, stop + 1, mp);
  }

  lemma TwinsStay(ring: seq<Slot>, n: nat, m: nat, ring': seq<Slot>, stop: nat, mp: IsMpRq)
    returns (r: seq<Slot>, r': seq<Slot>)
    requires Stopped(ring, n, m, ring', stop) && Goes(ring, n, m, |ring'|)
    requires IsSession(ring, n) ==> SessionWithin(ring, n, stop)
    ensures r == Prepare(ring, n, mp) && r' == Prepare(ring', n + 1, mp) && Accept(ring', n + 1)
    ensures Twins(r, n + 1, m - 1, r') && Payload(Title(r, n)) == Payload(Title(r', n + 1))
  {
    assert ClosedAt(ring', stop + 1);
    StepTwins(ring, n, m, ring', n + 1, mp);
    r, r' := Prepare(ring, n, mp), Prepare(ring', n + 1, mp);
  }

  /** One entry polled from both rings, which stay alike. */
  lemma StoppedStep(ring: seq<Slot>, n: nat, m: nat, ring': seq<Slot>, stop: nat, mp: IsMpRq)
    returns (r: seq<Slot>, r': seq<Slot>)
    requires Stopped(ring, n, m, ring', stop) && Goes(ring, n, m, |ring'|) && Title(ring, n).opcode != RESIZE_CQ
    requires IsSession(ring, n) ==> SessionWithin(ring, n, stop)
    ensures r == Prepare(ring, n, mp) && r' == Prepare(ring', n + 1, mp) && Accept(ring', n + 1)
    ensures Payload(Title(r, n)) == Payload(Title(r', n + 1)) && Stopped(r, n + 1, m - 1, r', stop)
  {
    r, r' := StopStays(ring, n, m, ring', stop, mp);
    var s, s' := TwinsStay(ring, n, m, ring', stop, mp);
  }

  /** `p` is still to be polled from the old ring, `p'` from the new one. */
  ghost predicate Stopping(ring: seq<Slot>, n: nat, m: nat, ring': seq<Slot>, stop: nat, room: nat, fuel: nat,
                           mp: IsMpRq, p: seq<Slot>, p': seq<Slot>) {
    && Stopped(ring, n, m, ring', stop) && room <= fuel && room <= |ring| && Harmed(ring, n, stop, n + room, mp)
    && Pollable(ring', n + 1, fuel, mp)
    && p == Payloads(Pending(ring, n, room, mp)) && p' == Payloads(Pending(ring', n + 1, fuel, mp))
  }

  lemma StopNext(ring: seq<Slot>, n: nat, m: nat, ring': seq<Slot>, stop: nat, room: nat, fuel: nat, mp: IsMpRq,
                 p: seq<Slot>, p': seq<Slot>)
    returns (shows: bool, r: seq<Slot>, r': seq<Slot>, q: seq<Slot>, q': seq<Slot>)
    requires Stopping(ring, n, m, ring', stop, room, fuel, mp, p, p')
    ensures m > 0 && room > 0 && (shows ==> p != p') && (q != q' ==> p != p')
    ensures !shows ==> Stopping(r, n + 1, m - 1, r', stop, room - 1, fuel - 1, mp, q, q')
  {
    shows, r, r', q, q' := CutHere(ring, n, stop) || !Goes(ring, n, m, |ring'|), ring, ring', p, p';
    if CutHere(ring, n, stop) {
      CutShowsHere(ring, n, m, ring', stop, room, fuel, mp);
    } else if shows {
      EighthShows(ring, n, m, ring', room, fuel, mp);
    } else {
      r, r' := StoppedStep(ring, n, m, ring', stop, mp);
      q, q' := Payloads(Pending(r, n + 1, room - 1, mp)), Payloads(Pending(r', n + 2, fuel - 1, mp));
      PendingHeads(ring, n, room, mp);
      PendingHeads(ring', n + 1, fuel, mp);
      SameHeads(Payload(Title(r, n)), q, q');
    }
  }

  /** What is polled afterwards is not what was pending. */
  lemma {:induction false} StopShows(ring: seq<Slot>, n: nat, m: nat, ring': seq<Slot>, stop: nat, room: nat, fuel: nat,
                                     mp: IsMpRq, p: seq<Slot>, p': seq<Slot>)
    requires Stopping(ring, n, m, ring', stop, room, fuel, mp, p, p')
    ensures p != p'
    decreases m
  {
    var shows, r, r', q, q' := StopNext(ring, n, m, ring', stop, room, fuel, mp, p, p');
    if !shows { StopShows(r, n + 1, m - 1, r', stop, room - 1, fuel - 1, mp, q, q'); }
  }

  // ---------------------------------------------------------------------------
  // The ring the copy leaves
  // ---------------------------------------------------------------------------

  lemma CopiedClosesAt(blank: seq<Slot>, cons: nat, es: seq<Slot>, e: nat)
    requires |blank| > 0 && Fresh(blank) && |es| <= |blank| && cons + 1 + |es| <= e < cons + 1 + |es| + |blank|
    ensures ClosedAt(Copied(blank, cons, es), e)
  {
    var size := |blank|;
    if e < cons + 1 + size {
      WriteAt(blank, cons + 1, Retagged(es, cons + 1, size), |es|, e - cons - 1);
    } else {
      CopiedAt(blank, cons, es, e - size - cons - 1);
      assert Pos(e, size) == Pos(e - size, size);
    }
  }

  lemma CopiedAtStop(blank: seq<Slot>, ring: seq<Slot>, cons: nat, k: nat)
    requires |blank| > 0 && Fresh(blank) && Wide(ring) && MarkedAt(ring, cons, k) && 0 < k <= |blank|
    ensures var moved := Copied(blank, cons, Before(ring, cons, k));
            && StoppedAt(ring, cons + k, moved) && (k == |blank| ==> BitsOk(Title(moved, cons + 1)))
  {
    var size, es := |blank|, Before(ring, cons, k);
    if k < size {
      WriteAt(blank, cons + 1, Retagged(es, cons + 1, size), k, k);
    } else {
      CopiedAt(blank, cons, es, 0);
      BeforeAt(ring, cons, k, 0);
      SoftwareBefore(ring, cons, k, 0);
      assert Pos(cons + 1 + size, size) == Pos(cons + 1, size);
    }
  }

  lemma CopiedStopped(blank: seq<Slot>, ring: seq<Slot>, cons: nat, k: nat, moved: seq<Slot>)
    requires |blank| > 0 && Fresh(blank) && Wide(ring) && MarkedAt(ring, cons, k) && 0 < k <= |blank|
    requires moved == Copied(blank, cons, Before(ring, cons, k))
    ensures Stopped(ring, cons, k, moved, cons + k)
  {
    CopiedTwins(blank, ring, cons, k);
    CopiedAtStop(blank, ring, cons, k);
    forall e: nat | cons + k + 1 <= e < cons + k + 1 + |moved| ensures ClosedAt(moved, e) {
      CopiedClosesAt(blank, cons, Before(ring, cons, k), e);
    }
  }

  /** A copy that stops before hardware's marker loses entries, but for a stop in the last session that
      may harm nothing. */
  lemma CutSessionLost(blank: seq<Slot>, ring: seq<Slot>, cons: nat, k: nat, hw: nat, moved: seq<Slot>, fuel: nat,
                       mp: IsMpRq)
    requires |blank| > 0 && Fresh(blank) && HardwareMarked(ring, cons, hw, mp) && MarkedAt(ring, cons, k)
    requires k < hw <= fuel && !MayHarmNothing(ring, cons, cons + k, cons + hw, mp)
    requires moved == Copied(blank, cons, Before(ring, cons, k)) && Pollable(moved, cons + 1, fuel, mp)
    ensures !Preserved(ring, cons, hw, moved, cons + 1, fuel, mp)
  {
    if k > |blank| {
      TooManyLost(blank, cons, Before(ring, cons, k), fuel, mp);
      PromisedCount(ring, cons, hw, cons + hw, mp);
    } else {
      HardwareWalks(ring, cons, k, hw, mp);
      WalksHarmed(ring, cons, cons + k, cons + hw, mp);
      CopiedStopped(blank, ring, cons, k, moved);
      StopShows(ring, cons, k, moved, cons + k, hw, fuel, mp, Payloads(Pending(ring, cons, hw, mp)),
                Payloads(Pending(moved, cons + 1, fuel, mp)));
    }
  }

  lemma MarkerReached(blank: seq<Slot>, ring: seq<Slot>, cons: nat, hw: nat, moved: seq<Slot>, fuel: nat, mp: IsMpRq)
    requires |blank| > 0 && Fresh(blank) && HardwareMarked(ring, cons, hw, mp) && SoftwareTo(ring, cons, hw)
    requires moved == Copied(blank, cons, Before(ring, cons, hw)) && hw <= fuel
    requires hw > |moved| ==> Pollable(moved, cons + 1, fuel, mp)
    ensures Preserved(ring, cons, hw, moved, cons + 1, fuel, mp) <==>
            hw <= |blank| && EighthsAgree(ring, cons, hw, mp, |blank|)
  {
    PromisedCount(ring, cons, hw, cons + hw, mp);
    PromisedContained(ring, cons, hw, cons + hw, mp);
    CopyPreservesIff(blank, ring, cons, hw, moved, fuel, mp);
  }
}
