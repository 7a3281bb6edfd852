/** Rings on which resizing goes wrong, and one on which it does not although the copy stops early
    (drivers/libmlx5-1.0.2mlnx1/src/cq.c:1131-1176). */
module CqCases {

  import opened IndexMath
  import opened CqRing
  import opened CqDecompress
  import opened CqPending
  import opened CqResize
  import opened CqMove
  import opened CqStop
  import opened CqKept

  const NO_REST := Rest(0, 0, 0, 0, 0, 0, 0, 0, 0, 0, 0, 0, 0)

  /** An empty entry, or eight empty mini entries. */
  const EMPTY := Slot(NO_REST, 0, 0, 0, 0, 0, 0, REQ, 0, 0)

  /** The title of a session of `c` receives. */
  function TitleOf(c: nat): Slot {
    Slot(NO_REST, 0, 0, c, 0, 0, 0, RESP_SEND, COMPRESSED, 0)
  }

  /** Eight mini entries; the eighth has 80 bytes. */
  const EIGHTY := Slot(NO_REST, 0, 0, 0, 0, 0, 0, 5, 0, 0)

  /** Eight mini entries; the eighth has one byte. */
  const ODD := Slot(NO_REST, 0, 0, 0, 0, 0, 0, 0, 0, 1)

  const MARKER := Slot(NO_REST, 0, 0, 0, 0, 0, 0, RESIZE_CQ, 0, 0)

  /** Sixteen slots, first lap: a session of `c` at index `at`, its mini entries in `minis`, and the
      marker behind it. */
  ghost predicate Sample(ring: seq<Slot>, at: nat, c: nat, minis: Slot) {
    && |ring| == 16 && 2 <= c && at + c < 16 && Wide(ring)
    && Title(ring, at) == TitleOf(c) && Title(ring, at + 1) == minis && Title(ring, at + c) == MARKER
    && forall i: nat {:trigger Title(ring, i)} :: at + 1 < i < at + c ==> Title(ring, i) == EMPTY
  }

  /** There are such rings. */
  lemma SampleRing(at: nat, c: nat, minis: Slot) returns (ring: seq<Slot>)
    requires 2 <= c && at + c < 16 && BitsOk(minis)
    ensures Sample(ring, at, c, minis)
  {
    ring := seq(16, i requires 0 <= i < 16 =>
      if i == at then TitleOf(c) else if i == at + 1 then minis else if i == at + c then MARKER else EMPTY);
    forall i: nat | i < 16 ensures Pos(i, 16) == i { FirstLap(i); }
  }

  lemma FirstLap(i: nat)
    requires i < 16
    ensures Pos(i, 16) == i && Parity(i, 16) == 0
  {
  }

  lemma {:induction false} PromisedRun(ring: seq<Slot>, n: nat, end: nat, room: nat, limit: nat, mp: IsMpRq)
    requires |ring| > 0 && n + room == end && PlainRun(ring, n, end)
    requires forall i: nat {:trigger Title(ring, i)} :: n <= i < end ==> Title(ring, i).opcode != RESIZE_CQ
    ensures Promised(ring, n, room, limit, mp)
    decreases room
  {
    if room > 0 {
      PromisedRun(ring, n + 1, end, room - 1, limit, mp);
      PromisedFrom(ring, n, room, limit, mp);
    }
  }

  lemma PromisedFrom(ring: seq<Slot>, n: nat, room: nat, limit: nat, mp: IsMpRq)
    requires PlainAt(ring, n) && Title(ring, n).opcode != RESIZE_CQ
    requires room > 0 && Promised(ring, n + 1, room - 1, limit, mp)
    ensures Promised(ring, n, room, limit, mp)
  {
  }

  lemma ExpandedOpcodes(ring: seq<Slot>, n: nat, mp: IsMpRq) returns (r: seq<Slot>)
    requires |ring| > 0 && Accept(ring, n) && IsSession(ring, n) && 1 <= Count(ring, n) <= |ring|
    ensures r == Prepare(ring, n, mp) && PlainRun(r, n + 1, n + Count(ring, n))
    ensures forall i: nat {:trigger Title(r, i)} :: n <= i < n + Count(ring, n) ==>
              Title(r, i).opcode == Title(ring, n).opcode
  {
    r := SessionRun(ring, n, 1, mp);
    forall i: nat | n <= i < n + Count(ring, n) ensures Title(r, i).opcode == Title(ring, n).opcode {
      ExpandedAt(ring, n, mp(Payload(Title(ring, n))), i - n);
    }
  }

  lemma RestPromised(ring: seq<Slot>, n: nat, c: nat, mp: IsMpRq) returns (r: seq<Slot>)
    requires |ring| > 0 && 1 <= c <= |ring| && IsSession(ring, n) && Count(ring, n) == c && Accept(ring, n)
    requires Title(ring, n).opcode != RESIZE_CQ
    ensures r == Prepare(ring, n, mp) && Title(r, n).opcode != RESIZE_CQ && Promised(r, n + 1, c - 1, n + c, mp)
  {
    r := ExpandedOpcodes(ring, n, mp);
    assert Title(r, n).opcode != RESIZE_CQ;
    RunPromised(r, n, c, mp, Title(ring, n).opcode);
  }

  lemma RunPromised(r: seq<Slot>, n: nat, c: nat, mp: IsMpRq, opcode: nat)
    requires |r| > 0 && c > 0 && opcode != RESIZE_CQ && PlainRun(r, n + 1, n + c)
    requires forall i: nat {:trigger Title(r, i)} :: n <= i < n + c ==> Title(r, i).opcode == opcode
    ensures Promised(r, n + 1, c - 1, n + c, mp)
  {
    PromisedRun(r, n + 1, n + c, c - 1, n + c, mp);
  }

  /** A session and nothing else before the marker. */
  lemma PromisedSession(ring: seq<Slot>, n: nat, c: nat, mp: IsMpRq)
    requires |ring| > 0 && 2 <= c <= |ring| && IsSession(ring, n) && Count(ring, n) == c && Accept(ring, n)
    requires Title(ring, n).opcode != RESIZE_CQ
    ensures Promised(ring, n, c, n + c, mp)
  {
    var r := RestPromised(ring, n, c, mp);
  }

  /** These rings are what hardware promises. */
  lemma SampleMarked(ring: seq<Slot>, at: nat, c: nat, minis: Slot, mp: IsMpRq)
    requires Sample(ring, at, c, minis)
    ensures HardwareMarked(ring, at, c, mp)
  {
    FirstLap(at);
    FirstLap(at + c);
    PromisedSession(ring, at, c, mp);
  }

  /** On them the copy gets past the title. */
  lemma PastTitle(ring: seq<Slot>, at: nat, c: nat, minis: Slot)
    requires Sample(ring, at, c, minis)
    ensures SoftwareTo(ring, at, 1) && Accept(ring, at) && Parity(at, 16) == Parity(at + 1, 16) == 0
  {
    FirstLap(at);
    FirstLap(at + 1);
    assert SoftwareTo(ring, at, 0);
  }

  lemma {:induction false} AgreeRun(ring: seq<Slot>, n: nat, end: nat, mp: IsMpRq, size': nat)
    requires |ring| > 0 && size' > 0 && n <= end && PlainRun(ring, n, end)
    ensures EighthsAgree(ring, n, end - n, mp, size')
    decreases end - n
  {
    if n < end { AgreeRun(ring, n + 1, end, mp, size'); }
  }

  lemma AgreeSession(ring: seq<Slot>, n: nat, c: nat, mp: IsMpRq, size': nat)
    requires |ring| > 0 && size' > 0 && 0 < c <= |ring| && IsSession(ring, n) && Count(ring, n) == c && Accept(ring, n)
    requires SameEighths(n, c, |ring|, size')
    ensures EighthsAgree(ring, n, c, mp, size')
  {
    var r := ExpandedOpcodes(ring, n, mp);
    AgreeRun(r, n + 1, n + c, mp, size');
  }

  // ---------------------------------------------------------------------------
  // Three that lose
  // ---------------------------------------------------------------------------

  /** A mini entry of 80 bytes in eighth place stops the copy right behind the title, and the
      session is lost. */
  lemma EightyBytesStopCopy(ring: seq<Slot>, at: nat, c: nat, k: nat, blank: seq<Slot>, moved: seq<Slot>, fuel: nat,
                            mp: IsMpRq)
    requires Sample(ring, at, c, EIGHTY) && k == 1 && 8 <= c <= fuel && |blank| > 0 && Fresh(blank)
    requires moved == Copied(blank, at, Before(ring, at, k)) && Pollable(moved, at + 1, fuel, mp)
    ensures MiniAt(ring, at, 7).byteCnt == 80 && HardwareMarked(ring, at, c, mp) && StopsAt(ring, at, k, true)
    ensures !Preserved(ring, at, c, moved, at + 1, fuel, mp)
  {
    SampleMarked(ring, at, c, EIGHTY, mp);
    EightyStops(ring, at, c);
    EightyHarms(ring, at, c, mp);
    CutSessionLost(blank, ring, at, k, c, moved, fuel, mp);
  }

  lemma EightyStops(ring: seq<Slot>, at: nat, c: nat)
    requires Sample(ring, at, c, EIGHTY)
    ensures StopsAt(ring, at, 1, true) && MarkedAt(ring, at, 1)
  {
    PastTitle(ring, at, c, EIGHTY);
  }

  lemma EightyHarms(ring: seq<Slot>, at: nat, c: nat, mp: IsMpRq)
    requires Sample(ring, at, c, EIGHTY) && 8 <= c
    ensures MiniAt(ring, at, 7).byteCnt == 80 && !MayHarmNothing(ring, at, at + 1, at + c, mp)
  {
    assert CutMini(at, c, at + 1, 7);
  }

  lemma {:induction false} SampleSoftware(ring: seq<Slot>, at: nat, c: nat, k: nat)
    requires Sample(ring, at, c, EMPTY) && k <= c
    ensures SoftwareTo(ring, at, k)
  {
    if k > 0 {
      SampleSoftware(ring, at, c, k - 1);
      FirstLap(at + k - 1);
    }
  }

  /** In a smaller ring the mini slot's index has the other owner bit, and the eighth receive comes
      out one byte longer. */
  lemma OwnerBitChangesLength(ring: seq<Slot>, at: nat, c: nat, blank: seq<Slot>, moved: seq<Slot>, fuel: nat,
                              mp: IsMpRq)
    requires Sample(ring, at, c, EMPTY) && 8 <= c <= fuel && c <= |blank| == at + 2 && Fresh(blank)
    requires moved == Copied(blank, at, Before(ring, at, c))
    ensures HardwareMarked(ring, at, c, mp) && StopsAt(ring, at, c, true) && !EighthsAgree(ring, at, c, mp, |blank|)
    ensures !Preserved(ring, at, c, moved, at + 1, fuel, mp)
  {
    SampleMarked(ring, at, c, EMPTY, mp);
    SampleSoftware(ring, at, c, c);
    OwnerBitChanges(ring, at, c, mp, |blank|);
    MarkerReached(blank, ring, at, c, moved, fuel, mp);
  }

  lemma OwnerBitChanges(ring: seq<Slot>, at: nat, c: nat, mp: IsMpRq, size': nat)
    requires Sample(ring, at, c, EMPTY) && 8 <= c && size' == at + 2
    ensures !EighthsAgree(ring, at, c, mp, size')
  {
    PastTitle(ring, at, c, EMPTY);
    assert MiniSlot(at, 7) == at + 1 && Parity(at + 2, size') == 1;
    assert !SameEighths(at, c, 16, size');
  }

  /** A mini entry of one byte in eighth place has the wrong bit for an owner: the copy gives up, and
      however large the new ring and however long it is polled, there is nothing in it. */
  lemma OddLengthGivesUp(ring: seq<Slot>, at: nat, c: nat, blank: seq<Slot>, moved: seq<Slot>, fuel: nat, mp: IsMpRq)
    requires Sample(ring, at, c, ODD) && 8 <= c && |blank| >= 32 && Fresh(blank)
    requires moved == Copied(blank, at, Before(ring, at, 1))
    ensures MiniAt(ring, at, 7).byteCnt == 1 && HardwareMarked(ring, at, c, mp)
    ensures StopsAt(ring, at, 1, false) && NeverMarked(ring, at) && EighthsAgree(ring, at, c, mp, |blank|)
    ensures |Pending(ring, at, c, mp)| == c && Pending(moved, at, fuel, mp) == []
  {
    SampleMarked(ring, at, c, ODD, mp);
    SampleCount(ring, at, c, ODD, mp);
    OddStops(ring, at, c);
    OddAgrees(ring, at, c, mp, |blank|);
    GiveUpEmpty(blank, at, Before(ring, at, 1), moved, fuel, mp);
  }

  lemma SampleCount(ring: seq<Slot>, at: nat, c: nat, minis: Slot, mp: IsMpRq)
    requires Sample(ring, at, c, minis)
    ensures |Pending(ring, at, c, mp)| == c
  {
    SampleMarked(ring, at, c, minis, mp);
    PromisedCount(ring, at, c, at + c, mp);
  }

  lemma GiveUpEmpty(blank: seq<Slot>, cons: nat, es: seq<Slot>, moved: seq<Slot>, fuel: nat, mp: IsMpRq)
    requires |blank| > 0 && Fresh(blank) && |es| < 2 * |blank| && moved == Copied(blank, cons, es)
    ensures Pending(moved, cons, fuel, mp) == []
  {
    GiveUpCloses(blank, cons, es);
  }

  lemma OddStops(ring: seq<Slot>, at: nat, c: nat)
    requires Sample(ring, at, c, ODD)
    ensures MiniAt(ring, at, 7).byteCnt == 1 && StopsAt(ring, at, 1, false) && NeverMarked(ring, at)
  {
    PastTitle(ring, at, c, ODD);
    NotMarked(ring, at, 1);
  }

  lemma OddAgrees(ring: seq<Slot>, at: nat, c: nat, mp: IsMpRq, size': nat)
    requires Sample(ring, at, c, ODD) && size' >= 32
    ensures EighthsAgree(ring, at, c, mp, size')
  {
    PastTitle(ring, at, c, ODD);
    assert Parity(at + 2, size') == 0 && forall j: nat :: j < c && j % 8 == 7 ==> MiniSlot(at, j) == at + 1;
    AgreeSession(ring, at, c, mp, size');
  }

  // ---------------------------------------------------------------------------
  // One that does not
  // ---------------------------------------------------------------------------

  /** Without an eighth mini entry in use, and with the others zero as in a slot never written, the
      same stop loses nothing. */
  lemma UnusedEighthKept(ring: seq<Slot>, at: nat, c: nat, blank: seq<Slot>, moved: seq<Slot>, fuel: nat, mp: IsMpRq)
    requires Sample(ring, at, c, EIGHTY) && c < 8 && c <= fuel && c <= |blank| && Fresh(blank)
    requires moved == Copied(blank, at, Before(ring, at, 1))
    ensures HardwareMarked(ring, at, c, mp) && StopsAt(ring, at, 1, true) && !SoftwareTo(ring, at, c)
    ensures Preserved(ring, at, c, moved, at + 1, fuel, mp)
  {
    SampleMarked(ring, at, c, EIGHTY, mp);
    EightyStops(ring, at, c);
    StopsBefore(ring, at, 1, true, c, mp);
    UnusedSurvive(ring, at, c, |blank|, mp);
    HardwareWalks(ring, at, 1, c, mp);
    EarlyStopIff(blank, ring, at, 1, c, moved, fuel, mp, at + 1, at + c);
  }

  lemma UnusedSurvive(ring: seq<Slot>, at: nat, c: nat, size': nat, mp: IsMpRq)
    requires Sample(ring, at, c, EIGHTY) && c < 8 && size' > 0
    ensures Kept(ring, at, at + 1, at + c, mp, size')
  {
    var stop := at + 1;
    forall j: nat | j < c ensures Survives(ring, at, stop, size', j) {
      assert MiniSlot(at, j) == at + 1;
    }
  }
}
