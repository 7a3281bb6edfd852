/** What polling yields after a resize, compressed sessions included, compared with what it would
    have yielded before (drivers/libmlx5-1.0.2mlnx1/src/cq.c:1131-1176). */
module CqMove {

  import opened IndexMath
  import opened CqRing
  import opened CqDecompress
  import opened CqPending
  import opened CqResize

  // ---------------------------------------------------------------------------
  // Sessions before the marker
  // ---------------------------------------------------------------------------

  /** The index of the slot with mini entry `j` of a session at `idx`. */
  function MiniSlot(idx: nat, j: nat): nat {
    if j < 8 then idx + 1 else idx + j - j % 8
  }

  /** Every session that polling meets has an entry, and ends, with its mini entries, before
      index `limit`. */
  ghost predicate Contained(ring: seq<Slot>, n: nat, fuel: nat, limit: nat, mp: IsMpRq)
    requires |ring| > 0
    decreases fuel
  {
    fuel == 0 || !Accept(ring, n) ||
    (&& (IsSession(ring, n) ==> SessionWithin(ring, n, limit))
     && Contained(Prepare(ring, n, mp), n + 1, fuel - 1, limit, mp))
  }

  ghost predicate SessionWithin(ring: seq<Slot>, n: nat, limit: nat)
    requires |ring| > 0
  {
    1 <= Count(ring, n) && n + Count(ring, n) <= limit && n + 2 <= limit
  }

  /** The eighth mini entry of a slot shares its last byte with the owner bit. One index further
      on, in a ring of `size'` slots, all that are used still have the same owner bit. */
  ghost predicate SameEighths(n: nat, count: nat, size: nat, size': nat)
    requires size > 0 && size' > 0
  {
    forall j: nat {:trigger MiniSlot(n, j)} :: j < count && j % 8 == 7 ==>
      Parity(MiniSlot(n, j), size) == Parity(MiniSlot(n, j) + 1, size')
  }

  /** That holds for every session that polling meets. */
  ghost predicate EighthsAgree(ring: seq<Slot>, n: nat, fuel: nat, mp: IsMpRq, size': nat)
    requires |ring| > 0 && size' > 0
    decreases fuel
  {
    fuel == 0 || !Accept(ring, n) ||
    (&& (IsSession(ring, n) ==> SameEighths(n, Count(ring, n), |ring|, size'))
     && EighthsAgree(Prepare(ring, n, mp), n + 1, fuel - 1, mp, size'))
  }

  // ---------------------------------------------------------------------------
  // Two rings that hold the same, one index apart
  // ---------------------------------------------------------------------------

  ghost predicate Twin(ring: seq<Slot>, ring': seq<Slot>, i: nat) {
    && |ring| > 0 && |ring'| > 0
    && Payload(Title(ring, i)) == Payload(Title(ring', i + 1))
    && Title(ring, i).owner == Parity(i, |ring|) && Title(ring', i + 1).owner == Parity(i + 1, |ring'|)
  }

  ghost predicate Twins(ring: seq<Slot>, n: nat, m: nat, ring': seq<Slot>) {
    && |ring| > 0 && |ring'| > 0 && m <= |ring| && m <= |ring'|
    && forall i: nat {:trigger Twin(ring, ring', i)} :: n <= i < n + m ==> Twin(ring, ring', i)
  }

  lemma TwinReads(ring: seq<Slot>, ring': seq<Slot>, i: nat)
    requires Twin(ring, ring', i)
    ensures Accept(ring, i) <==> Accept(ring', i + 1)
    ensures IsSession(ring, i) <==> IsSession(ring', i + 1)
    ensures Count(ring, i) == Count(ring', i + 1)
  {
  }

  lemma MiniSlotWithin(ring: seq<Slot>, n: nat, limit: nat, j: nat)
    requires |ring| > 0 && SessionWithin(ring, n, limit) && j < Count(ring, n)
    ensures n < MiniSlot(n, j) < limit && MiniSlot(n + 1, j) == MiniSlot(n, j) + 1
    ensures MiniAt(ring, n, j) == MiniOf(Title(ring, MiniSlot(n, j)), j % 8)
  {
  }

  /** Slots that differ in the owner bit alone hold the same mini entries but for the eighth. */
  lemma MinisOfTwins(s: Slot, s': Slot, j: nat)
    requires Payload(s) == Payload(s') && j < 8
    ensures j < 7 || s.owner == s'.owner ==> MiniOf(s, j) == MiniOf(s', j)
    ensures j == 7 && s.owner != s'.owner ==> MiniOf(s, j).byteCnt != MiniOf(s', j).byteCnt
  {
  }

  lemma MiniTwins(ring: seq<Slot>, n: nat, m: nat, ring': seq<Slot>, j: nat)
    requires Twins(ring, n, m, ring') && SessionWithin(ring, n, n + m) && j < Count(ring, n)
    requires Count(ring', n + 1) == Count(ring, n)
    ensures var at := MiniSlot(n, j);
            && (j % 8 == 7 ==> Parity(at, |ring|) == Parity(at + 1, |ring'|)) ==>
                 MiniAt(ring', n + 1, j) == MiniAt(ring, n, j)
    ensures var at := MiniSlot(n, j);
            && j % 8 == 7 && Parity(at, |ring|) != Parity(at + 1, |ring'|) ==>
                 MiniAt(ring', n + 1, j).byteCnt != MiniAt(ring, n, j).byteCnt
  {
    var at := MiniSlot(n, j);
    MiniSlotWithin(ring, n, n + m, j);
    assert MiniAt(ring', n + 1, j) == MiniOf(Title(ring', at + 1), j % 8);
    assert Twin(ring, ring', at);
    MinisOfTwins(Title(ring, at), Title(ring', at + 1), j % 8);
  }

  // ---------------------------------------------------------------------------
  // Expanding a session in both
  // ---------------------------------------------------------------------------

  lemma {:induction false} CtrTwins(s: Session, s': Session, j: nat)
    requires Payload(s.title) == Payload(s'.title) && s.minis == s'.minis && s.mpRq == s'.mpRq && j <= |s.minis|
    ensures CtrAt(s, j) == CtrAt(s', j)
  {
    if j > 0 { CtrTwins(s, s', j - 1); }
  }

  lemma EntryTwins(s: Session, s': Session, idx: nat, size: nat, size': nat, j: nat)
    requires Payload(s.title) == Payload(s'.title) && s.minis == s'.minis && s.mpRq == s'.mpRq && j < |s.minis|
    requires size > 0 && size' > 0
    ensures Payload(EntryOf(s, idx, size, j)) == Payload(EntryOf(s', idx + 1, size', j))
    ensures EntryOf(s, idx, size, j).owner == Parity(idx + j, size)
    ensures EntryOf(s', idx + 1, size', j).owner == Parity(idx + 1 + j, size')
  {
    CtrTwins(s, s', j);
  }

  lemma {:induction false} SessionMinis(ring: seq<Slot>, n: nat, ring': seq<Slot>, c: nat)
    requires |ring| > 0 && |ring'| > 0
    requires forall j: nat {:trigger MiniAt(ring, n, j)} :: j < c ==> MiniAt(ring', n + 1, j) == MiniAt(ring, n, j)
    ensures Minis(ring', n + 1, c) == Minis(ring, n, c)
  {
    if c > 0 {
      SessionMinis(ring, n, ring', c - 1);
      assert MiniAt(ring', n + 1, c - 1) == MiniAt(ring, n, c - 1);
    }
  }

  lemma ExpandedTwin(ring: seq<Slot>, n: nat, ring': seq<Slot>, mpRq: bool, t: nat)
    requires Twin(ring, ring', n) && t < Count(ring, n) <= |ring| && Count(ring, n) <= |ring'|
    requires Minis(ring', n + 1, Count(ring, n)) == Minis(ring, n, Count(ring, n))
    ensures Twin(Expand(ring, n, mpRq), Expand(ring', n + 1, mpRq), n + t)
  {
    TwinReads(ring, ring', n);
    ExpandedAt(ring, n, mpRq, t);
    ExpandedAt(ring', n + 1, mpRq, t);
    EntryTwins(SessionAt(ring, n, mpRq), SessionAt(ring', n + 1, mpRq), n, |ring|, |ring'|, t);
  }

  lemma UntouchedTwin(ring: seq<Slot>, n: nat, ring': seq<Slot>, mpRq: bool, t: nat)
    requires Twin(ring, ring', n) && Twin(ring, ring', n + t) && Count(ring, n) <= t < |ring| && t < |ring'|
    ensures Twin(Expand(ring, n, mpRq), Expand(ring', n + 1, mpRq), n + t)
  {
    TwinReads(ring, ring', n);
    ExpandedElsewhere(ring, n, mpRq, t);
    ExpandedElsewhere(ring', n + 1, mpRq, t);
  }

  /** With the eighth mini entries unharmed, the two rings stay alike when a session is expanded. */
  lemma PrepareTwins(ring: seq<Slot>, n: nat, m: nat, ring': seq<Slot>, mp: IsMpRq)
    requires Twins(ring, n, m, ring') && m > 0
    requires IsSession(ring, n) ==> SessionWithin(ring, n, n + m) && SameEighths(n, Count(ring, n), |ring|, |ring'|)
    ensures Twins(Prepare(ring, n, mp), n, m, Prepare(ring', n + 1, mp))
  {
    assert Twin(ring, ring', n);
    TwinReads(ring, ring', n);
    if IsSession(ring, n) {
      MinisTwins(ring, n, m, ring');
      ExpandTwins(ring, n, m, ring', mp(Payload(Title(ring, n))));
    }
  }

  lemma MinisTwins(ring: seq<Slot>, n: nat, m: nat, ring': seq<Slot>)
    requires Twins(ring, n, m, ring') && SessionWithin(ring, n, n + m) && Count(ring', n + 1) == Count(ring, n)
    requires SameEighths(n, Count(ring, n), |ring|, |ring'|)
    ensures Minis(ring', n + 1, Count(ring, n)) == Minis(ring, n, Count(ring, n))
  {
    forall j: nat | j < Count(ring, n) ensures MiniAt(ring', n + 1, j) == MiniAt(ring, n, j) {
      assert j % 8 == 7 ==> Parity(MiniSlot(n, j), |ring|) == Parity(MiniSlot(n, j) + 1, |ring'|);
      MiniTwins(ring, n, m, ring', j);
    }
    SessionMinis(ring, n, ring', Count(ring, n));
  }

  lemma ExpandTwins(ring: seq<Slot>, n: nat, m: nat, ring': seq<Slot>, mpRq: bool)
    requires Twins(ring, n, m, ring') && 1 <= Count(ring, n) <= m
    requires Minis(ring', n + 1, Count(ring, n)) == Minis(ring, n, Count(ring, n))
    ensures Twins(Expand(ring, n, mpRq), n, m, Expand(ring', n + 1, mpRq))
  {
    var r, r' := Expand(ring, n, mpRq), Expand(ring', n + 1, mpRq);
    forall i: nat | n <= i < n + m ensures Twin(r, r', i) {
      assert Twin(ring, ring', n) && Twin(ring, ring', i);
      if i - n < Count(ring, n) {
        ExpandedTwin(ring, n, ring', mpRq, i - n);
      } else {
        UntouchedTwin(ring, n, ring', mpRq, i - n);
      }
    }
  }

  // ---------------------------------------------------------------------------
  // Polling both
  // ---------------------------------------------------------------------------

  /** Polling one entry leaves an entry that was not there, up to a lap on, not there. */
  lemma StaysClosed(ring: seq<Slot>, n: nat, e: nat, mp: IsMpRq)
    requires |ring| > 0 && n < e <= n + |ring| && Accept(ring, n) && !Accept(ring, e)
    requires IsSession(ring, n) ==> 1 <= Count(ring, n) && n + Count(ring, n) <= e
    ensures !Accept(Prepare(ring, n, mp), e)
  {
    if IsSession(ring, n) {
      var mpRq := mp(Payload(Title(ring, n)));
      if e < n + |ring| {
        ExpandedElsewhere(ring, n, mpRq, e - n);
      } else {
        ExpandedAt(ring, n, mpRq, 0);
        LapEnd(n, e, |ring|);
      }
    }
  }

  lemma {:induction false} PayloadsAt(es: seq<Slot>, j: nat)
    requires j < |es|
    ensures Payloads(es)[j] == Payload(es[j])
  {
    if j > 0 { PayloadsAt(es[1..], j - 1); }
  }

  ghost predicate PlainAt(ring: seq<Slot>, i: nat) {
    |ring| > 0 && Accept(ring, i) && !IsSession(ring, i)
  }

  ghost predicate PlainRun(ring: seq<Slot>, n: nat, end: nat)
    decreases end - n
  {
    n >= end || (PlainAt(ring, n) && PlainRun(ring, n + 1, end))
  }

  lemma {:induction false} PlainRunFrom(ring: seq<Slot>, n: nat, end: nat)
    requires forall i: nat {:trigger PlainAt(ring, i)} :: n <= i < end ==> PlainAt(ring, i)
    ensures PlainRun(ring, n, end)
    decreases end - n
  {
    if n < end {
      assert PlainAt(ring, n);
      PlainRunFrom(ring, n + 1, end);
    }
  }

  /** Plain entries in a row are polled as they stand. */
  lemma {:induction false} PendingOfRun(ring: seq<Slot>, n: nat, fuel: nat, mp: IsMpRq, end: nat, i: nat)
    requires |ring| > 0 && n <= i < end <= n + fuel && PlainRun(ring, n, end)
    ensures i - n < |Pending(ring, n, fuel, mp)| && Pending(ring, n, fuel, mp)[i - n] == Title(ring, i)
    decreases fuel
  {
    PendingPlainHead(ring, n, fuel, mp);
    if i > n { PendingOfRun(ring, n + 1, fuel - 1, mp, end, i); }
  }

  lemma PendingPlainHead(ring: seq<Slot>, n: nat, fuel: nat, mp: IsMpRq)
    requires fuel > 0 && PlainAt(ring, n)
    ensures Pending(ring, n, fuel, mp) == [Title(ring, n)] + Pending(ring, n + 1, fuel - 1, mp)
  {
  }

  /** Polling a session is polling its expansion. */
  lemma SessionRun(ring: seq<Slot>, n: nat, fuel: nat, mp: IsMpRq) returns (r: seq<Slot>)
    requires |ring| > 0 && Accept(ring, n) && IsSession(ring, n) && 1 <= Count(ring, n) <= |ring| && fuel > 0
    ensures r == Prepare(ring, n, mp) && PlainRun(r, n, n + Count(ring, n))
    ensures Pending(ring, n, fuel, mp) == Pending(r, n, fuel, mp)
  {
    var c := Count(ring, n);
    r := Prepare(ring, n, mp);
    forall i: nat | n <= i < n + c ensures PlainAt(r, i) {
      ExpandedAt(ring, n, mp(Payload(Title(ring, n))), i - n);
    }
    PlainRunFrom(r, n, n + c);
    assert PlainAt(r, n);
  }

  /** Of a session at the head, entry `j` is polled as expanded. */
  lemma PendingOfSession(ring: seq<Slot>, n: nat, fuel: nat, mp: IsMpRq, j: nat)
    requires |ring| > 0 && Accept(ring, n) && IsSession(ring, n)
    requires j < Count(ring, n) <= |ring| && Count(ring, n) <= fuel
    ensures j < |Pending(ring, n, fuel, mp)|
    ensures Pending(ring, n, fuel, mp)[j] == EntryOf(SessionAt(ring, n, mp(Payload(Title(ring, n)))), n, |ring|, j)
    ensures Pending(ring, n, fuel, mp)[j].byteCnt == MiniAt(ring, n, j).byteCnt
  {
    var r := SessionRun(ring, n, fuel, mp);
    PendingOfRun(r, n, fuel, mp, n + Count(ring, n), n + j);
    ExpandedAt(ring, n, mp(Payload(Title(ring, n))), j);
  }

  /** An eighth mini entry whose owner bit changes shows. */
  lemma EighthShows(ring: seq<Slot>, n: nat, m: nat, ring': seq<Slot>, fuel: nat, fuel': nat, mp: IsMpRq)
    requires Twins(ring, n, m, ring') && Accept(ring, n) && IsSession(ring, n) && SessionWithin(ring, n, n + m)
    requires !SameEighths(n, Count(ring, n), |ring|, |ring'|) && Count(ring, n) <= fuel && Count(ring, n) <= fuel'
    ensures Payloads(Pending(ring', n + 1, fuel', mp)) != Payloads(Pending(ring, n, fuel, mp))
  {
    var j: nat :| j < Count(ring, n) && j % 8 == 7
                  && Parity(MiniSlot(n, j), |ring|) != Parity(MiniSlot(n, j) + 1, |ring'|);
    assert Twin(ring, ring', n);
    TwinReads(ring, ring', n);
    MiniTwins(ring, n, m, ring', j);
    PendingOfSession(ring, n, fuel, mp, j);
    PendingOfSession(ring', n + 1, fuel', mp, j);
    PayloadsAt(Pending(ring, n, fuel, mp), j);
    PayloadsAt(Pending(ring', n + 1, fuel', mp), j);
  }

  /** Polling the other ring to the end yields the same entries exactly when every used eighth
      mini entry keeps its owner bit. */
  lemma {:induction false} MoveIff(ring: seq<Slot>, n: nat, m: nat, ring': seq<Slot>, n': nat, fuel: nat, mp: IsMpRq)
    requires n' == n + 1 && Twins(ring, n, m, ring') && m <= fuel && !Accept(ring', n' + m)
    requires Contained(ring, n, m, n + m, mp)
    ensures Payloads(Pending(ring', n', fuel, mp)) == Payloads(Pending(ring, n, m, mp)) <==>
            EighthsAgree(ring, n, m, mp, |ring'|)
    decreases m
  {
    if Goes(ring, n, m, |ring'|) {
      var r, i, k, r', i', k' := MoveStep(ring, n, m, ring', n', fuel, mp);
      MoveIff(r, i, k, r', i', k', mp);
    } else {
      MoveStops(ring, n, m, ring', n', fuel, mp);
    }
  }

  /** The entry at `n` can be polled, and comes out the same. */
  ghost predicate Goes(ring: seq<Slot>, n: nat, m: nat, size': nat)
    requires |ring| > 0 && size' > 0
  {
    m > 0 && Accept(ring, n) && (IsSession(ring, n) ==> SameEighths(n, Count(ring, n), |ring|, size'))
  }

  lemma MoveStops(ring: seq<Slot>, n: nat, m: nat, ring': seq<Slot>, n': nat, fuel: nat, mp: IsMpRq)
    requires n' == n + 1 && Twins(ring, n, m, ring') && m <= fuel && !Accept(ring', n' + m)
    requires Contained(ring, n, m, n + m, mp) && !Goes(ring, n, m, |ring'|)
    ensures Payloads(Pending(ring', n', fuel, mp)) == Payloads(Pending(ring, n, m, mp)) <==>
            EighthsAgree(ring, n, m, mp, |ring'|)
  {
    if m == 0 || !Accept(ring, n) {
      if m > 0 {
        assert Twin(ring, ring', n);
        TwinReads(ring, ring', n);
      }
    } else {
      EighthShows(ring, n, m, ring', m, fuel, mp);
    }
  }

  lemma WalkStep(ring: seq<Slot>, n: nat, m: nat, limit: nat, mp: IsMpRq, size': nat)
    requires |ring| > 0 && size' > 0 && Goes(ring, n, m, size') && Contained(ring, n, m, limit, mp)
    ensures IsSession(ring, n) ==> SessionWithin(ring, n, limit)
    ensures Contained(Prepare(ring, n, mp), n + 1, m - 1, limit, mp)
    ensures EighthsAgree(ring, n, m, mp, size') <==> EighthsAgree(Prepare(ring, n, mp), n + 1, m - 1, mp, size')
  {
  }

  /** One entry polled from both: the question is the same for what is left. */
  lemma MoveStep(ring: seq<Slot>, n: nat, m: nat, ring': seq<Slot>, n': nat, fuel: nat, mp: IsMpRq)
    returns (r: seq<Slot>, i: nat, k: nat, r': seq<Slot>, i': nat, k': nat)
    requires n' == n + 1 && Twins(ring, n, m, ring') && m <= fuel && !Accept(ring', n' + m)
    requires Contained(ring, n, m, n + m, mp) && Goes(ring, n, m, |ring'|)
    ensures i' == i + 1 && k <= k' && k < m && |r'| == |ring'| && Twins(r, i, k, r') && !Accept(r', i' + k)
    ensures Contained(r, i, k, i + k, mp)
    ensures Payloads(Pending(ring', n', fuel, mp)) == Payloads(Pending(ring, n, m, mp)) <==>
            Payloads(Pending(r', i', k', mp)) == Payloads(Pending(r, i, k, mp))
    ensures EighthsAgree(ring, n, m, mp, |ring'|) <==> EighthsAgree(r, i, k, mp, |ring'|)
  {
    r, i, k := Prepare(ring, n, mp), n + 1, m - 1;
    r', i', k' := Prepare(ring', n', mp), n' + 1, fuel - 1;
    WalkStep(ring, n, m, n + m, mp, |ring'|);
    StepTwins(ring, n, m, ring', n', mp);
    PendingHeads(ring, n, m, mp);
    PendingHeads(ring', n', fuel, mp);
    SameHeads(Payload(Title(r, n)), Payloads(Pending(r, n + 1, m - 1, mp)),
              Payloads(Pending(r', n' + 1, fuel - 1, mp)));
  }

  lemma StepTwins(ring: seq<Slot>, n: nat, m: nat, ring': seq<Slot>, n': nat, mp: IsMpRq)
    requires n' == n + 1 && Twins(ring, n, m, ring') && !Accept(ring', n' + m) && Goes(ring, n, m, |ring'|)
    requires IsSession(ring, n) ==> SessionWithin(ring, n, n + m)
    ensures var r, r' := Prepare(ring, n, mp), Prepare(ring', n', mp);
            && Accept(ring', n') && Twins(r, n + 1, m - 1, r') && !Accept(r', n' + m)
            && Payload(Title(r, n)) == Payload(Title(r', n'))
  {
    assert Twin(ring, ring', n);
    TwinReads(ring, ring', n);
    PrepareTwins(ring, n, m, ring', mp);
    assert Twin(Prepare(ring, n, mp), Prepare(ring', n', mp), n);
    StaysClosed(ring', n', n' + m, mp);
  }

  lemma SameHeads(e: Slot, a: seq<Slot>, b: seq<Slot>)
    ensures [e] + a == [e] + b <==> a == b
  {
    if [e] + a == [e] + b {
      assert a == ([e] + a)[1..] && b == ([e] + b)[1..];
    }
  }

  lemma PendingHeads(ring: seq<Slot>, n: nat, fuel: nat, mp: IsMpRq)
    requires |ring| > 0 && fuel > 0 && Accept(ring, n)
    ensures var r := Prepare(ring, n, mp);
            Payloads(Pending(ring, n, fuel, mp)) ==
            [Payload(Title(r, n))] + Payloads(Pending(r, n + 1, fuel - 1, mp))
  {
    var r := Prepare(ring, n, mp);
    var p := Pending(r, n + 1, fuel - 1, mp);
    assert ([Title(r, n)] + p)[1..] == p;
  }

  // ---------------------------------------------------------------------------
  // The copied ring
  // ---------------------------------------------------------------------------

  lemma {:induction false} BeforeAt(ring: seq<Slot>, cons: nat, k: nat, j: nat)
    requires |ring| > 0 && j < k
    ensures Before(ring, cons, k)[j] == Title(ring, cons + j)
  {
    if j < k - 1 { BeforeAt(ring, cons, k - 1, j); }
  }

  /** The copy makes twins of the entries before the marker, when they fit. */
  lemma CopiedTwin(blank: seq<Slot>, ring: seq<Slot>, cons: nat, k: nat, j: nat)
    requires |blank| > 0 && j < k <= |blank| && |ring| > 0 && SoftwareTo(ring, cons, k)
    ensures Twin(ring, Copied(blank, cons, Before(ring, cons, k)), cons + j)
  {
    var es, i := Before(ring, cons, k), cons + j;
    BeforeAt(ring, cons, k, j);
    SoftwareBefore(ring, cons, k, j);
    CopiedAt(blank, cons, es, j);
    assert Title(Copied(blank, cons, es), i + 1) == Title(ring, i).(owner := Parity(i + 1, |blank|));
  }

  lemma CopiedAt(blank: seq<Slot>, cons: nat, es: seq<Slot>, j: nat)
    requires |blank| > 0 && j < |es| <= |blank|
    ensures Title(Copied(blank, cons, es), cons + 1 + j) == es[j].(owner := Parity(cons + 1 + j, |blank|))
  {
    WriteAt(blank, cons + 1, Retagged(es, cons + 1, |blank|), |es|, j);
    RetaggedAt(es, cons + 1, |blank|, j);
  }

  lemma CopiedTwins(blank: seq<Slot>, ring: seq<Slot>, cons: nat, k: nat)
    requires |blank| > 0 && k <= |blank| && k < |ring| && SoftwareTo(ring, cons, k)
    ensures Twins(ring, cons, k, Copied(blank, cons, Before(ring, cons, k)))
  {
    var moved := Copied(blank, cons, Before(ring, cons, k));
    forall i: nat | cons <= i < cons + k ensures Twin(ring, moved, i) {
      CopiedTwin(blank, ring, cons, k, i - cons);
    }
  }

  /** Past the copied entries there is nothing to read. */
  lemma CopiedCloses(blank: seq<Slot>, cons: nat, es: seq<Slot>)
    requires |blank| > 0 && Fresh(blank) && |es| <= |blank|
    ensures !Accept(Copied(blank, cons, es), cons + 1 + |es|)
  {
    var tags := Retagged(es, cons + 1, |blank|);
    if |es| < |blank| {
      WriteAt(blank, cons + 1, tags, |es|, |es|);
    } else {
      WriteAt(blank, cons + 1, tags, |es|, 0);
      RetaggedAt(es, cons + 1, |blank|, 0);
      LapEnd(cons + 1, cons + 1 + |es|, |blank|);
    }
  }

  // ---------------------------------------------------------------------------
  // When the entries do not fit
  // ---------------------------------------------------------------------------

  /** Every session met fits into the ring, so that expanding it in place is defined. */
  ghost predicate Pollable(ring: seq<Slot>, n: nat, fuel: nat, mp: IsMpRq)
    requires |ring| > 0
    decreases fuel
  {
    fuel == 0 || !Accept(ring, n) ||
    (&& (IsSession(ring, n) ==> Count(ring, n) <= |ring|)
     && Pollable(Prepare(ring, n, mp), n + 1, fuel - 1, mp))
  }

  /** Polling began at `n0` and has come to `n`. Of the second lap, indices before `f` hold expanded
      entries; those from `f` on, as far as polling has passed their slots, hold what was polled. */
  ghost predicate Passed(ring: seq<Slot>, n0: nat, n: nat, f: nat) {
    && |ring| > 0 && n0 <= n <= f && n0 + |ring| <= f < n0 + 2 * |ring|
    && forall i: nat {:trigger PassedAt(ring, f, i)} :: n0 + |ring| <= i < n + |ring| || n0 + |ring| <= i < f ==>
         PassedAt(ring, f, i)
  }

  ghost predicate PassedAt(ring: seq<Slot>, f: nat, i: nat) {
    && |ring| > 0 && i >= |ring|
    && (if i < f then Title(ring, i).owner == Parity(i, |ring|) && !IsSession(ring, i)
        else Title(ring, i).owner == Parity(i - |ring|, |ring|))
  }

  /** A slot polled on the first lap was not written for the second. */
  lemma NotAhead(ring: seq<Slot>, n0: nat, n: nat, f: nat)
    requires Passed(ring, n0, n, f) && Accept(ring, n)
    ensures n < n0 + |ring| ==> f <= n + |ring|
    ensures n < f
    ensures n >= n0 + |ring| ==> !IsSession(ring, n)
  {
    var size := |ring|;
    LapEnd(n, n + size, size);
    if n < n0 + size {
      assert n + size < f ==> PassedAt(ring, f, n + size);
    } else {
      assert PassedAt(ring, f, n);
      LapEnd(n - size, n, size);
    }
  }

  lemma PassedPlain(ring: seq<Slot>, n0: nat, n: nat, f: nat)
    requires Passed(ring, n0, n, f) && Accept(ring, n) && !IsSession(ring, n)
    ensures Passed(ring, n0, n + 1, f)
  {
    NotAhead(ring, n0, n, f);
    LapEnd(n, n + |ring|, |ring|);
    forall i: nat | n0 + |ring| <= i < n + 1 + |ring| || n0 + |ring| <= i < f ensures PassedAt(ring, f, i) {
      if i != n + |ring| { assert PassedAt(ring, f, i); }
    }
  }

  lemma PassedSessionAt(ring: seq<Slot>, n0: nat, n: nat, f: nat, mpRq: bool, f': nat, i: nat)
    requires Passed(ring, n0, n, f) && Accept(ring, n) && n < n0 + |ring| && f <= n + |ring|
    requires Count(ring, n) <= |ring| && f' == if f < n + Count(ring, n) then n + Count(ring, n) else f
    requires n0 + |ring| <= i <= n + |ring|
    ensures PassedAt(Expand(ring, n, mpRq), f', i)
  {
    var size, c := |ring|, Count(ring, n);
    if i < n + c {
      if i < n + size { ExpandedAt(ring, n, mpRq, i - n); }
    } else if i < n + size {
      ExpandedElsewhere(ring, n, mpRq, i - n);
      assert PassedAt(ring, f, i);
    }
    if i == n + size {
      LapEnd(n, i, size);
      if c > 0 { ExpandedAt(ring, n, mpRq, 0); }
    }
  }

  lemma PassedSession(ring: seq<Slot>, n0: nat, n: nat, f: nat, mpRq: bool) returns (f': nat)
    requires Passed(ring, n0, n, f) && Accept(ring, n) && IsSession(ring, n) && Count(ring, n) <= |ring|
    ensures Passed(Expand(ring, n, mpRq), n0, n + 1, f')
  {
    NotAhead(ring, n0, n, f);
    f' := if f < n + Count(ring, n) then n + Count(ring, n) else f;
    var r := Expand(ring, n, mpRq);
    forall i: nat | n0 + |r| <= i < n + 1 + |r| || n0 + |r| <= i < f' ensures PassedAt(r, f', i) {
      PassedSessionAt(ring, n0, n, f, mpRq, f', i);
    }
  }

  /** Polling that began at `n0` has come to `n` and has `left` entries before it. */
  ghost predicate Lapping(ring: seq<Slot>, n0: nat, n: nat, f: nat, fuel: nat, mp: IsMpRq, left: nat) {
    Passed(ring, n0, n, f) && Pollable(ring, n, fuel, mp) && left == |Pending(ring, n, fuel, mp)|
  }

  lemma PassedStep(ring: seq<Slot>, n0: nat, n: nat, f: nat, fuel: nat, mp: IsMpRq, left: nat)
    returns (r: seq<Slot>, f': nat)
    requires Lapping(ring, n0, n, f, fuel, mp, left) && left > 0
    ensures |r| == |ring| && fuel > 0 && n + 1 < n0 + 2 * |ring| && Lapping(r, n0, n + 1, f', fuel - 1, mp, left - 1)
  {
    r := Prepare(ring, n, mp);
    if IsSession(ring, n) {
      f' := PassedSession(ring, n0, n, f, mp(Payload(Title(ring, n))));
    } else {
      PassedPlain(ring, n0, n, f);
      f' := f;
    }
  }

  /** Polling ends before it has gone round twice. */
  lemma {:induction false} LessThanTwoLaps(ring: seq<Slot>, n0: nat, n: nat, f: nat, fuel: nat, mp: IsMpRq, left: nat)
    requires Lapping(ring, n0, n, f, fuel, mp, left)
    ensures n + left < n0 + 2 * |ring|
    decreases left
  {
    if left > 0 {
      var r, f' := PassedStep(ring, n0, n, f, fuel, mp, left);
      LessThanTwoLaps(r, n0, n + 1, f', fuel - 1, mp, left - 1);
    }
  }

  lemma {:induction false} WriteLast(ring: seq<Slot>, idx: nat, es: seq<Slot>, n: nat, j: nat)
    requires |ring| > 0 && j < n <= |es| && n <= j + |ring|
    ensures Write(ring, idx, es, n)[Pos(idx + j, |ring|)] == es[j]
  {
    if j < n - 1 {
      WriteLast(ring, idx, es, n - 1, j);
      PosDiffer(idx + j, idx + n - 1, |ring|);
    }
  }

  /** Copied over one lap but not two, the first slot's owner bit no longer fits. */
  lemma SecondLapCloses(blank: seq<Slot>, cons: nat, es: seq<Slot>)
    requires |blank| > 0 && |blank| < |es| <= 2 * |blank|
    ensures !Accept(Copied(blank, cons, es), cons + 1)
  {
    var size := |blank|;
    WriteLast(blank, cons + 1, Retagged(es, cons + 1, size), |es|, size);
    RetaggedAt(es, cons + 1, size, size);
    LapEnd(cons + 1, cons + 1 + size, size);
  }

  /** Entries that do not fit cannot all be polled afterwards. */
  lemma TooManyLost(blank: seq<Slot>, cons: nat, es: seq<Slot>, fuel: nat, mp: IsMpRq)
    requires |blank| > 0 && |es| > |blank| && Pollable(Copied(blank, cons, es), cons + 1, fuel, mp)
    ensures |Pending(Copied(blank, cons, es), cons + 1, fuel, mp)| < |es|
  {
    var r, n := Copied(blank, cons, es), cons + 1;
    if |es| <= 2 * |blank| {
      SecondLapCloses(blank, cons, es);
    } else {
      LessThanTwoLaps(r, n, n, n + |r|, fuel, mp, |Pending(r, n, fuel, mp)|);
    }
  }

  // ---------------------------------------------------------------------------
  // The theorem
  // ---------------------------------------------------------------------------

  /** Polling the ring the entries were moved to from `cons'` on, to the end, yields what polling the
      old one from `cons` on, `k` entries long, would have, and nothing more. */
  ghost predicate Preserved(ring: seq<Slot>, cons: nat, k: nat, moved: seq<Slot>, cons': nat, fuel: nat, mp: IsMpRq)
    requires |ring| > 0 && |moved| > 0
  {
    Payloads(Pending(moved, cons', fuel, mp)) == Payloads(Pending(ring, cons, k, mp))
  }

  /** Sessions end before the marker, and when the entries do not fit, polling the new ring is
      defined. */
  ghost predicate MoveOk(ring: seq<Slot>, cons: nat, k: nat, moved: seq<Slot>, fuel: nat, mp: IsMpRq)
    requires |ring| > 0 && |moved| > 0
  {
    && Contained(ring, cons, k, cons + k, mp)
    && (k > |moved| ==> |Pending(ring, cons, k, mp)| == k && Pollable(moved, cons + 1, fuel, mp))
  }

  /** A copy that comes to the marker preserves what was pending exactly when the entries fit and no
      used eighth mini entry changes its owner bit. */
  lemma CopyPreservesIff(blank: seq<Slot>, ring: seq<Slot>, cons: nat, k: nat, moved: seq<Slot>, fuel: nat, mp: IsMpRq)
    requires |blank| > 0 && Fresh(blank) && MarkedAt(ring, cons, k) && k <= fuel
    requires moved == Copied(blank, cons, Before(ring, cons, k)) && MoveOk(ring, cons, k, moved, fuel, mp)
    ensures Preserved(ring, cons, k, moved, cons + 1, fuel, mp) <==>
            k <= |blank| && EighthsAgree(ring, cons, k, mp, |blank|)
  {
    if k <= |blank| {
      CopiedTwins(blank, ring, cons, k);
      CopiedCloses(blank, cons, Before(ring, cons, k));
      MoveIff(ring, cons, k, moved, cons + 1, fuel, mp);
    } else {
      TooManyLost(blank, cons, Before(ring, cons, k), fuel, mp);
    }
  }
}
