/** Exactly when a resize keeps what is pending, wherever the copy stops
    (drivers/libmlx5-1.0.2mlnx1/src/cq.c:1131-1176). */
module CqKept {

  import opened IndexMath
  import opened CqRing
  import opened CqDecompress
  import opened CqPending
  import opened CqResize
  import opened CqMove
  import opened CqStop

  // ---------------------------------------------------------------------------
  // Mini entries that expand alike
  // ---------------------------------------------------------------------------

  /** Two mini entries from which a title with this opcode expands to the same entry. */
  ghost predicate Alike(opcode: nat, a: Mini, b: Mini) {
    && a.byteCnt == b.byteCnt
    && if IsRequestor(opcode) then
         a.first / 0x1_0000 == b.first / 0x1_0000 && a.first / 0x100 % 0x100 == b.first / 0x100 % 0x100
       else
         a.first == b.first
  }

  /** Two sessions whose titles differ in the owner bit alone. */
  ghost predicate SameTitle(s: Session, s': Session) {
    Payload(s.title) == Payload(s'.title) && s.mpRq == s'.mpRq && |s.minis| == |s'.minis|
  }

  ghost predicate AlikeAt(s: Session, s': Session, j: nat)
    requires j < |s.minis| && j < |s'.minis|
  {
    Alike(s.title.opcode, s.minis[j], s'.minis[j])
  }

  lemma {:induction false} CtrAlike(s: Session, s': Session, j: nat)
    requires SameTitle(s, s') && j <= |s.minis|
    requires forall i: nat {:trigger AlikeAt(s, s', i)} :: i < j ==> AlikeAt(s, s', i)
    ensures CtrAt(s, j) == CtrAt(s', j)
  {
    if j > 0 {
      CtrAlike(s, s', j - 1);
      assert AlikeAt(s, s', j - 1);
    }
  }

  ghost predicate SameEntry(s: Session, s': Session, idx: nat, size: nat, size': nat, j: nat)
    requires size > 0 && size' > 0 && j < |s.minis| && j < |s'.minis|
  {
    Payload(EntryOf(s, idx, size, j)) == Payload(EntryOf(s', idx + 1, size', j))
  }

  lemma EntryAlike(s: Session, s': Session, idx: nat, size: nat, size': nat, j: nat)
    requires SameTitle(s, s') && size > 0 && size' > 0 && j < |s.minis|
    ensures SameEntry(s, s', idx, size, size', j) ==> AlikeAt(s, s', j)
    ensures AlikeAt(s, s', j) && CtrAt(s, j) == CtrAt(s', j) ==> SameEntry(s, s', idx, size, size', j)
  {
  }

  /** They expand to the same entries exactly when their mini entries are alike. */
  lemma EntriesAlike(s: Session, s': Session, idx: nat, size: nat, size': nat)
    requires SameTitle(s, s') && size > 0 && size' > 0
    ensures (forall j: nat {:trigger SameEntry(s, s', idx, size, size', j)} ::
               j < |s.minis| ==> SameEntry(s, s', idx, size, size', j)) <==>
            (forall j: nat {:trigger AlikeAt(s, s', j)} :: j < |s.minis| ==> AlikeAt(s, s', j))
  {
    if forall j: nat {:trigger AlikeAt(s, s', j)} :: j < |s.minis| ==> AlikeAt(s, s', j) {
      forall j: nat | j < |s.minis| ensures SameEntry(s, s', idx, size, size', j) {
        CtrAlike(s, s', j);
        EntryAlike(s, s', idx, size, size', j);
        assert AlikeAt(s, s', j);
      }
    }
    if forall j: nat {:trigger SameEntry(s, s', idx, size, size', j)} ::
         j < |s.minis| ==> SameEntry(s, s', idx, size, size', j) {
      forall j: nat | j < |s.minis| ensures AlikeAt(s, s', j) {
        assert SameEntry(s, s', idx, size, size', j);
        EntryAlike(s, s', idx, size, size', j);
      }
    }
  }

  // ---------------------------------------------------------------------------
  // Two sessions with nothing after them
  // ---------------------------------------------------------------------------

  lemma {:induction false} PayloadsEqual(a: seq<Slot>, b: seq<Slot>)
    requires |a| == |b| && forall j {:trigger a[j]} :: 0 <= j < |a| ==> Payload(a[j]) == Payload(b[j])
    ensures Payloads(a) == Payloads(b)
  {
    if a != [] {
      assert forall j {:trigger a[1..][j]} :: 0 <= j < |a| - 1 ==> a[1..][j] == a[j + 1] && b[1..][j] == b[j + 1];
      PayloadsEqual(a[1..], b[1..]);
    }
  }

  /** Polled entries that are those of two sessions are the same exactly when the sessions' are. */
  lemma PolledAlike(p: seq<Slot>, p': seq<Slot>, s: Session, s': Session, idx: nat, size: nat, size': nat)
    requires size > 0 && size' > 0 && |p| == |p'| == |s.minis| == |s'.minis|
    requires forall j: nat {:trigger p[j]} :: j < |p| ==>
               p[j] == EntryOf(s, idx, size, j) && p'[j] == EntryOf(s', idx + 1, size', j)
    ensures Payloads(p) == Payloads(p') <==>
            forall j: nat {:trigger SameEntry(s, s', idx, size, size', j)} ::
              j < |s.minis| ==> SameEntry(s, s', idx, size, size', j)
  {
    if Payloads(p) == Payloads(p') {
      forall j: nat | j < |p| ensures SameEntry(s, s', idx, size, size', j) {
        PayloadsAt(p, j);
        PayloadsAt(p', j);
        assert p[j] == EntryOf(s, idx, size, j);
      }
    }
    if forall j: nat {:trigger SameEntry(s, s', idx, size, size', j)} ::
         j < |s.minis| ==> SameEntry(s, s', idx, size, size', j) {
      forall j | 0 <= j < |p| ensures Payload(p[j]) == Payload(p'[j]) {
        assert SameEntry(s, s', idx, size, size', j);
      }
      PayloadsEqual(p, p');
    }
  }

  /** `p` are the entries of session `s`, which is the one at `n`. */
  ghost predicate PolledBy(ring: seq<Slot>, n: nat, c: nat, p: seq<Slot>, s: Session) {
    && |ring| > 0 && |p| == |s.minis| == c && s.title == Title(ring, n)
    && (forall j: nat {:trigger p[j]} :: j < c ==> p[j] == EntryOf(s, n, |ring|, j))
    && (forall j: nat {:trigger s.minis[j]} :: j < c ==> s.minis[j] == MiniAt(ring, n, j))
  }

  /** There is a session of `c` entries at `n`, and nothing after it or nothing asked for after it. */
  ghost predicate Lone(ring: seq<Slot>, n: nat, c: nat, fuel: nat) {
    && |ring| > 0 && Accept(ring, n) && IsSession(ring, n) && Count(ring, n) == c
    && 1 <= c <= |ring| && c <= fuel && (c == fuel || !Accept(ring, n + c))
  }

  lemma PolledAs(ring: seq<Slot>, n: nat, c: nat, fuel: nat, mp: IsMpRq, p: seq<Slot>) returns (s: Session)
    requires Lone(ring, n, c, fuel) && p == Pending(ring, n, fuel, mp)
    ensures PolledBy(ring, n, c, p, s) && s.mpRq == mp(Payload(s.title))
  {
    s := SessionAt(ring, n, mp(Payload(Title(ring, n))));
    if c < fuel { SessionEnds(ring, n, c, fuel, mp); } else { PendingOfSession(ring, n, fuel, mp, c - 1); }
    forall j: nat | j < c ensures p[j] == EntryOf(s, n, |ring|, j) && s.minis[j] == MiniAt(ring, n, j) {
      PendingOfSession(ring, n, fuel, mp, j);
      MinisIndex(ring, n, c, j);
    }
  }

  /** Mini entry `j` of the session at `n` reads alike in the other ring. */
  ghost predicate MiniKept(ring: seq<Slot>, n: nat, ring': seq<Slot>, j: nat)
    requires |ring| > 0 && |ring'| > 0
  {
    Alike(Title(ring, n).opcode, MiniAt(ring, n, j), MiniAt(ring', n + 1, j))
  }

  /** Sessions with the same title are polled alike exactly when their mini entries are. */
  lemma PolledIff(ring: seq<Slot>, n: nat, c: nat, ring': seq<Slot>, p: seq<Slot>, s: Session, p': seq<Slot>,
                  s': Session)
    requires PolledBy(ring, n, c, p, s) && PolledBy(ring', n + 1, c, p', s') && SameTitle(s, s')
    ensures Payloads(p) == Payloads(p') <==>
            forall j: nat {:trigger MiniKept(ring, n, ring', j)} :: j < c ==> MiniKept(ring, n, ring', j)
  {
    BothPolled(p, s, p', s', n, |ring|, |ring'|);
    KeptIsAlike(ring, n, c, ring', s, s');
  }

  lemma KeptIsAlike(ring: seq<Slot>, n: nat, c: nat, ring': seq<Slot>, s: Session, s': Session)
    requires |ring| > 0 && |ring'| > 0 && |s.minis| == |s'.minis| == c && s.title == Title(ring, n)
    requires forall j: nat {:trigger s.minis[j]} :: j < c ==> s.minis[j] == MiniAt(ring, n, j)
    requires forall j: nat {:trigger s'.minis[j]} :: j < c ==> s'.minis[j] == MiniAt(ring', n + 1, j)
    ensures (forall j: nat {:trigger MiniKept(ring, n, ring', j)} :: j < c ==> MiniKept(ring, n, ring', j)) <==>
            (forall j: nat {:trigger AlikeAt(s, s', j)} :: j < c ==> AlikeAt(s, s', j))
  {
    forall j: nat | j < c ensures MiniKept(ring, n, ring', j) <==> AlikeAt(s, s', j) {
      assert s.minis[j] == MiniAt(ring, n, j) && s'.minis[j] == MiniAt(ring', n + 1, j);
    }
    if forall j: nat {:trigger AlikeAt(s, s', j)} :: j < c ==> AlikeAt(s, s', j) {
      forall j: nat | j < c ensures MiniKept(ring, n, ring', j) { assert AlikeAt(s, s', j); }
    }
    if forall j: nat {:trigger MiniKept(ring, n, ring', j)} :: j < c ==> MiniKept(ring, n, ring', j) {
      forall j: nat | j < c ensures AlikeAt(s, s', j) { assert MiniKept(ring, n, ring', j); }
    }
  }

  lemma BothPolled(p: seq<Slot>, s: Session, p': seq<Slot>, s': Session, n: nat, size: nat, size': nat)
    requires size > 0 && size' > 0 && SameTitle(s, s') && |p| == |p'| == |s.minis|
    requires forall j: nat {:trigger p[j]} :: j < |p| ==> p[j] == EntryOf(s, n, size, j)
    requires forall j: nat {:trigger p'[j]} :: j < |p'| ==> p'[j] == EntryOf(s', n + 1, size', j)
    ensures Payloads(p) == Payloads(p') <==>
            forall j: nat {:trigger AlikeAt(s, s', j)} :: j < |p| ==> AlikeAt(s, s', j)
  {
    forall j: nat | j < |p| ensures p[j] == EntryOf(s, n, size, j) && p'[j] == EntryOf(s', n + 1, size', j) {}
    PolledAlike(p, p', s, s', n, size, size');
    EntriesAlike(s, s', n, size, size');
  }

  // ---------------------------------------------------------------------------
  // A stop before hardware's marker
  // ---------------------------------------------------------------------------

  /** Mini entry `j` of a session at `n` survives a stop at index `stop`: its slot was copied and, if it
      is the eighth, keeps its owner bit; or it is like that of a slot never written. */
  ghost predicate Survives(ring: seq<Slot>, n: nat, stop: nat, size': nat, j: nat)
    requires |ring| > 0 && size' > 0
  {
    if MiniSlot(n, j) < stop then
      j % 8 == 7 ==> Parity(MiniSlot(n, j), |ring|) == Parity(MiniSlot(n, j) + 1, size')
    else
      Alike(Title(ring, n).opcode, MiniAt(ring, n, j), MiniOf(InvalidSlot(), j % 8))
  }

  /** The session the copy stops in is the last before the marker, at index `limit`, all its mini
      entries survive the stop, and no used eighth mini entry of a session before changes its owner
      bit. */
  ghost predicate Kept(ring: seq<Slot>, n: nat, stop: nat, limit: nat, mp: IsMpRq, size': nat)
    requires |ring| > 0 && size' > 0
    decreases stop - n
  {
    && n < stop
    && if CutHere(ring, n, stop) then
         && n + Count(ring, n) == limit
         && forall j: nat {:trigger Survives(ring, n, stop, size', j)} ::
              j < Count(ring, n) ==> Survives(ring, n, stop, size', j)
       else
         && (IsSession(ring, n) ==> SameEighths(n, Count(ring, n), |ring|, size'))
         && Kept(Prepare(ring, n, mp), n + 1, stop, limit, mp, size')
  }

  ghost predicate BlankAt(ring: seq<Slot>, e: nat) {
    |ring| > 0 && Title(ring, e) == InvalidSlot()
  }

  /** The two rings are alike up to the stop; behind it the new one has not been written, up to
      where the marker would be, and cannot be read. */
  ghost predicate Blanked(ring: seq<Slot>, n: nat, m: nat, ring': seq<Slot>, stop: nat, limit: nat) {
    && Twins(ring, n, m, ring') && m < |ring| && stop == n + m && limit <= n + |ring| && limit <= n + |ring'|
    && ClosedFrom(ring', stop + 1)
    && forall e: nat {:trigger BlankAt(ring', e)} :: stop < e <= limit ==> BlankAt(ring', e)
  }

  /** A mini entry reads alike in both rings exactly when it survives. */
  lemma SurvivesIff(ring: seq<Slot>, n: nat, m: nat, ring': seq<Slot>, stop: nat, limit: nat, j: nat)
    requires Blanked(ring, n, m, ring', stop, limit) && j < Count(ring, n) && n < stop < limit == n + Count(ring, n)
    ensures MiniKept(ring, n, ring', j) <==> Survives(ring, n, stop, |ring'|, j)
  {
    var at := MiniSlot(n, j);
    assert MiniAt(ring, n, j) == MiniOf(Title(ring, at), j % 8);
    assert MiniAt(ring', n + 1, j) == MiniOf(Title(ring', at + 1), j % 8);
    if at < stop {
      assert Twin(ring, ring', at);
      MinisOfTwins(Title(ring, at), Title(ring', at + 1), j % 8);
    } else {
      assert BlankAt(ring', at + 1);
    }
  }

  lemma LastIff(ring: seq<Slot>, n: nat, m: nat, ring': seq<Slot>, stop: nat, limit: nat, c: nat, p: seq<Slot>,
                s: Session,
                p': seq<Slot>, s': Session)
    requires Blanked(ring, n, m, ring', stop, limit) && n < stop < limit == n + c && c == Count(ring, n)
    requires PolledBy(ring, n, c, p, s) && PolledBy(ring', n + 1, c, p', s') && SameTitle(s, s')
    ensures Payloads(p) == Payloads(p') <==>
            forall j: nat {:trigger Survives(ring, n, stop, |ring'|, j)} ::
              j < c ==> Survives(ring, n, stop, |ring'|, j)
  {
    PolledIff(ring, n, c, ring', p, s, p', s');
    forall j: nat | j < c ensures MiniKept(ring, n, ring', j) <==> Survives(ring, n, stop, |ring'|, j) {
      SurvivesIff(ring, n, m, ring', stop, limit, j);
    }
    AllSurvive(ring, n, c, ring', stop);
  }

  /** The new ring has the session, too, and nothing after it. */
  lemma CutLone(ring: seq<Slot>, n: nat, m: nat, ring': seq<Slot>, stop: nat, limit: nat, fuel: nat, mp: IsMpRq)
    requires Blanked(ring, n, m, ring', stop, limit) && Walks(ring, n, stop, limit, mp) && CutHere(ring, n, stop)
    requires limit <= n + fuel
    ensures Twin(ring, ring', n) && Lone(ring', n + 1, Count(ring, n), fuel) && !Accept(ring', n + 1 + Count(ring, n))
    ensures n + Count(ring, n) == limit ==> Lone(ring, n, Count(ring, n), Count(ring, n))
  {
    assert Twin(ring, ring', n) && ClosedAt(ring', n + 1 + Count(ring, n));
    TwinReads(ring, ring', n);
  }

  lemma CutLastIff(ring: seq<Slot>, n: nat, m: nat, ring': seq<Slot>, stop: nat, limit: nat, c: nat, fuel: nat,
                   mp: IsMpRq,
                   p: seq<Slot>, p': seq<Slot>)
    requires Blanked(ring, n, m, ring', stop, limit) && n < stop < limit == n + c && Twin(ring, ring', n)
    requires Lone(ring, n, c, c) && Lone(ring', n + 1, c, fuel)
    requires p == Pending(ring, n, c, mp) && p' == Pending(ring', n + 1, fuel, mp)
    ensures Payloads(p) == Payloads(p') <==>
            forall j: nat {:trigger Survives(ring, n, stop, |ring'|, j)} ::
              j < c ==> Survives(ring, n, stop, |ring'|, j)
  {
    var s := PolledAs(ring, n, c, c, mp, p);
    var s' := PolledAs(ring', n + 1, c, fuel, mp, p');
    LastIff(ring, n, m, ring', stop, limit, c, p, s, p', s');
  }

  /** The copy stops in the session at `n`: it is polled alike exactly when it is kept. */
  lemma CutIff(ring: seq<Slot>, n: nat, m: nat, ring': seq<Slot>, stop: nat, limit: nat, room: nat, fuel: nat,
               mp: IsMpRq,
               p: seq<Slot>, p': seq<Slot>)
    requires Blanked(ring, n, m, ring', stop, limit) && Walks(ring, n, stop, limit, mp) && CutHere(ring, n, stop)
    requires limit == n + room && room <= fuel
    requires p == Pending(ring, n, room, mp) && p' == Pending(ring', n + 1, fuel, mp)
    ensures Payloads(p) == Payloads(p') <==> Kept(ring, n, stop, limit, mp, |ring'|)
  {
    CutLone(ring, n, m, ring', stop, limit, fuel, mp);
    if Count(ring, n) == room {
      CutLastIff(ring, n, m, ring', stop, limit, room, fuel, mp, p, p');
    } else {
      CutTail(ring, n, ring', room, fuel, mp);
    }
  }

  lemma AllSurvive(ring: seq<Slot>, n: nat, c: nat, ring': seq<Slot>, stop: nat)
    requires |ring| > 0 && |ring'| > 0
    requires forall j: nat {:trigger MiniKept(ring, n, ring', j)} {:trigger Survives(ring, n, stop, |ring'|, j)} ::
               j < c ==> (MiniKept(ring, n, ring', j) <==> Survives(ring, n, stop, |ring'|, j))
    ensures (forall j: nat {:trigger MiniKept(ring, n, ring', j)} :: j < c ==> MiniKept(ring, n, ring', j)) <==>
            (forall j: nat {:trigger Survives(ring, n, stop, |ring'|, j)} ::
               j < c ==> Survives(ring, n, stop, |ring'|, j))
  {
    if forall j: nat {:trigger MiniKept(ring, n, ring', j)} :: j < c ==> MiniKept(ring, n, ring', j) {
      forall j: nat | j < c ensures Survives(ring, n, stop, |ring'|, j) { assert MiniKept(ring, n, ring', j); }
    }
    if forall j: nat {:trigger Survives(ring, n, stop, |ring'|, j)} :: j < c ==> Survives(ring, n, stop, |ring'|, j) {
      forall j: nat | j < c ensures MiniKept(ring, n, ring', j) { assert Survives(ring, n, stop, |ring'|, j); }
    }
  }

  /** Nothing is written behind the stop when a session before it is expanded. */
  lemma BlankStays(ring: seq<Slot>, n: nat, stop: nat, limit: nat, mp: IsMpRq) returns (r: seq<Slot>)
    requires |ring| > 0 && n <= stop < limit < n + |ring| && ClosedFrom(ring, stop + 1)
    requires IsSession(ring, n) ==> n + Count(ring, n) <= stop + 1
    requires forall e: nat {:trigger BlankAt(ring, e)} :: stop < e <= limit ==> BlankAt(ring, e)
    ensures r == Prepare(ring, n, mp) && ClosedFrom(r, stop + 1)
    ensures forall e: nat {:trigger BlankAt(r, e)} :: stop < e <= limit ==> BlankAt(r, e)
  {
    r := Prepare(ring, n, mp);
    ClosedKeeps(ring, n, stop + 1, mp);
    forall e: nat | stop < e <= limit ensures BlankAt(r, e) {
      assert BlankAt(ring, e);
      PrepareLeaves(ring, n, e, mp);
    }
  }

  /** What stands before it stays alike. */
  lemma AlikeStays(ring: seq<Slot>, n: nat, m: nat, ring': seq<Slot>, stop: nat, limit: nat, mp: IsMpRq)
    returns (r: seq<Slot>, r': seq<Slot>)
    requires Blanked(ring, n, m, ring', stop, limit) && Goes(ring, n, m, |ring'|)
    requires IsSession(ring, n) ==> SessionWithin(ring, n, stop)
    ensures r == Prepare(ring, n, mp) && r' == Prepare(ring', n + 1, mp) && Accept(ring', n + 1)
    ensures Twins(r, n + 1, m - 1, r') && Payload(Title(r, n)) == Payload(Title(r', n + 1))
  {
    assert ClosedAt(ring', stop + 1);
    StepTwins(ring, n, m, ring', n + 1, mp);
    r, r' := Prepare(ring, n, mp), Prepare(ring', n + 1, mp);
  }

  lemma RestStays(ring: seq<Slot>, n: nat, m: nat, ring': seq<Slot>, stop: nat, limit: nat, mp: IsMpRq)
    returns (r': seq<Slot>)
    requires Blanked(ring, n, m, ring', stop, limit) && m > 0 && stop < limit
    requires IsSession(ring, n) ==> SessionWithin(ring, n, stop)
    ensures r' == Prepare(ring', n + 1, mp) && ClosedFrom(r', stop + 1)
    ensures forall e: nat {:trigger BlankAt(r', e)} :: stop < e <= limit ==> BlankAt(r', e)
  {
    assert Twin(ring, ring', n);
    TwinReads(ring, ring', n);
    r' := BlankStays(ring', n + 1, stop, limit, mp);
  }

  /** One entry polled from both rings, which stay alike. */
  lemma BlankedStep(ring: seq<Slot>, n: nat, m: nat, ring': seq<Slot>, stop: nat, limit: nat, mp: IsMpRq)
    returns (r: seq<Slot>, r': seq<Slot>)
    requires Blanked(ring, n, m, ring', stop, limit) && stop < limit && Goes(ring, n, m, |ring'|)
    requires IsSession(ring, n) ==> SessionWithin(ring, n, stop)
    ensures r == Prepare(ring, n, mp) && r' == Prepare(ring', n + 1, mp) && Accept(ring', n + 1)
    ensures Payload(Title(r, n)) == Payload(Title(r', n + 1)) && Blanked(r, n + 1, m - 1, r', stop, limit)
  {
    r, r' := AlikeStays(ring, n, m, ring', stop, limit, mp);
    var b := RestStays(ring, n, m, ring', stop, limit, mp);
  }

  /** `p` is still to be polled from the old ring, `p'` from the new one; `kept` says whether what
      is left is kept. */
  ghost predicate Keeping(ring: seq<Slot>, n: nat, m: nat, ring': seq<Slot>, stop: nat, limit: nat, room: nat,
                          fuel: nat,
                          mp: IsMpRq, p: seq<Slot>, p': seq<Slot>, kept: bool) {
    && Blanked(ring, n, m, ring', stop, limit) && Walks(ring, n, stop, limit, mp) && limit == n + room && room <= fuel
    && p == Payloads(Pending(ring, n, room, mp)) && p' == Payloads(Pending(ring', n + 1, fuel, mp))
    && kept == Kept(ring, n, stop, limit, mp, |ring'|)
  }

  /** Polling one entry from both leaves the question as it was. */
  lemma KeepOn(ring: seq<Slot>, n: nat, m: nat, ring': seq<Slot>, stop: nat, limit: nat, room: nat, fuel: nat,
                 mp: IsMpRq, p: seq<Slot>, p': seq<Slot>, kept: bool)
    returns (r: seq<Slot>, r': seq<Slot>, q: seq<Slot>, q': seq<Slot>)
    requires Keeping(ring, n, m, ring', stop, limit, room, fuel, mp, p, p', kept)
    requires !CutHere(ring, n, stop) && Goes(ring, n, m, |ring'|)
    ensures m > 0 && room > 0 && (q == q' <==> p == p')
    ensures Keeping(r, n + 1, m - 1, r', stop, limit, room - 1, fuel - 1, mp, q, q', kept)
  {
    r, r' := BlankedStep(ring, n, m, ring', stop, limit, mp);
    q, q' := Payloads(Pending(r, n + 1, room - 1, mp)), Payloads(Pending(r', n + 2, fuel - 1, mp));
    PendingHeads(ring, n, room, mp);
    PendingHeads(ring', n + 1, fuel, mp);
    SameHeads(Payload(Title(r, n)), q, q');
  }

  lemma KeepHere(ring: seq<Slot>, n: nat, m: nat, ring': seq<Slot>, stop: nat, limit: nat, room: nat, fuel: nat,
                 mp: IsMpRq, p: seq<Slot>, p': seq<Slot>, kept: bool)
    requires Keeping(ring, n, m, ring', stop, limit, room, fuel, mp, p, p', kept)
    requires CutHere(ring, n, stop) || !Goes(ring, n, m, |ring'|)
    ensures p == p' <==> kept
  {
    if CutHere(ring, n, stop) {
      CutIff(ring, n, m, ring', stop, limit, room, fuel, mp, Pending(ring, n, room, mp),
             Pending(ring', n + 1, fuel, mp));
    } else {
      EighthShows(ring, n, m, ring', room, fuel, mp);
    }
  }

  lemma KeepNext(ring: seq<Slot>, n: nat, m: nat, ring': seq<Slot>, stop: nat, limit: nat, room: nat, fuel: nat,
                 mp: IsMpRq, p: seq<Slot>, p': seq<Slot>, kept: bool)
    returns (done: bool, r: seq<Slot>, r': seq<Slot>, q: seq<Slot>, q': seq<Slot>)
    requires Keeping(ring, n, m, ring', stop, limit, room, fuel, mp, p, p', kept)
    ensures m > 0 && room > 0 && (done ==> (p == p' <==> kept))
    ensures !done ==> && (q == q' <==> p == p')
                      && Keeping(r, n + 1, m - 1, r', stop, limit, room - 1, fuel - 1, mp, q, q', kept)
  {
    done, r, r', q, q' := CutHere(ring, n, stop) || !Goes(ring, n, m, |ring'|), ring, ring', p, p';
    if done {
      KeepHere(ring, n, m, ring', stop, limit, room, fuel, mp, p, p', kept);
    } else {
      r, r', q, q' := KeepOn(ring, n, m, ring', stop, limit, room, fuel, mp, p, p', kept);
    }
  }

  /** A stop before hardware's marker loses nothing exactly when everything is kept. */
  lemma {:induction false} KeepIff(ring: seq<Slot>, n: nat, m: nat, ring': seq<Slot>, stop: nat, limit: nat, room: nat,
                                   fuel: nat, mp: IsMpRq, p: seq<Slot>, p': seq<Slot>, kept: bool)
    requires Keeping(ring, n, m, ring', stop, limit, room, fuel, mp, p, p', kept)
    ensures p == p' <==> kept
    decreases m
  {
    var done, r, r', q, q' := KeepNext(ring, n, m, ring', stop, limit, room, fuel, mp, p, p', kept);
    if !done { KeepIff(r, n + 1, m - 1, r', stop, limit, room - 1, fuel - 1, mp, q, q', kept); }
  }

  lemma CopiedBlanked(blank: seq<Slot>, ring: seq<Slot>, cons: nat, k: nat, hw: nat, moved: seq<Slot>)
    requires |blank| > 0 && Fresh(blank) && MarkedAt(ring, cons, k) && k < hw <= |blank| && hw <= |ring|
    requires moved == Copied(blank, cons, Before(ring, cons, k))
    ensures Blanked(ring, cons, k, moved, cons + k, cons + hw)
  {
    var es := Before(ring, cons, k);
    CopiedTwins(blank, ring, cons, k);
    forall e: nat | cons + k + 1 <= e < cons + k + 1 + |moved| ensures ClosedAt(moved, e) {
      CopiedClosesAt(blank, cons, es, e);
    }
    forall e: nat | cons + k < e <= cons + hw ensures BlankAt(moved, e) {
      WriteAt(blank, cons + 1, Retagged(es, cons + 1, |blank|), k, e - cons - 1);
    }
  }

  lemma BlankedIff(ring: seq<Slot>, n: nat, m: nat, ring': seq<Slot>, stop: nat, limit: nat, room: nat, fuel: nat,
                   mp: IsMpRq)
    requires Blanked(ring, n, m, ring', stop, limit) && Walks(ring, n, stop, limit, mp)
    requires limit == n + room && room <= fuel
    ensures Preserved(ring, n, room, ring', n + 1, fuel, mp) <==> Kept(ring, n, stop, limit, mp, |ring'|)
  {
    KeepIff(ring, n, m, ring', stop, limit, room, fuel, mp, Payloads(Pending(ring, n, room, mp)),
            Payloads(Pending(ring', n + 1, fuel, mp)), Kept(ring, n, stop, limit, mp, |ring'|));
  }

  /** A copy that takes a slot for the marker before hardware's keeps what is pending exactly when the
      session it stops in is the last and what it leaves behind there is like slots never written. */
  lemma EarlyStopIff(blank: seq<Slot>, ring: seq<Slot>, cons: nat, k: nat, hw: nat, moved: seq<Slot>, fuel: nat,
                     mp: IsMpRq, stop: nat, limit: nat)
    requires |blank| > 0 && Fresh(blank) && MarkedAt(ring, cons, k) && k < hw <= fuel && hw <= |blank| && hw <= |ring|
    requires moved == Copied(blank, cons, Before(ring, cons, k)) && stop == cons + k && limit == cons + hw
    requires Walks(ring, cons, stop, limit, mp)
    ensures Preserved(ring, cons, hw, moved, cons + 1, fuel, mp) <==> Kept(ring, cons, stop, limit, mp, |blank|)
  {
    CopiedBlanked(blank, ring, cons, k, hw, moved);
    BlankedIff(ring, cons, k, moved, stop, limit, hw, fuel, mp);
  }

  // ---------------------------------------------------------------------------
  // The theorem
  // ---------------------------------------------------------------------------

  /** What is assumed of a resize: hardware's promise up to its marker, which stands `hw` entries on.
      Where entries do not fit or the copy gave up, polling the new ring is defined; where they do not
      fit and the copy stopped early, it does harm. */
  ghost predicate ResizeOk(ring: seq<Slot>, cons: nat, k: nat, ok: bool, hw: nat, moved: seq<Slot>, cons': nat,
                           fuel: nat, mp: IsMpRq)
    requires |moved| > 0
  {
    && HardwareMarked(ring, cons, hw, mp) && hw <= fuel
    && (hw > |moved| || !ok ==> Pollable(moved, cons', fuel, mp))
    && (hw > |moved| && ok && k < hw ==> !MayHarmNothing(ring, cons, cons + k, cons + hw, mp))
  }

  /** When what was pending is kept. */
  ghost predicate AllKept(ring: seq<Slot>, cons: nat, k: nat, ok: bool, hw: nat, size': nat, mp: IsMpRq)
    requires |ring| > 0 && size' > 0
  {
    && ok && hw <= size'
    && if k == hw then EighthsAgree(ring, cons, hw, mp, size') else Kept(ring, cons, cons + k, cons + hw, mp, size')
  }

  lemma StoppedEarly(blank: seq<Slot>, ring: seq<Slot>, cons: nat, k: nat, hw: nat, moved: seq<Slot>, fuel: nat,
                     mp: IsMpRq)
    requires |blank| > 0 && Fresh(blank) && MarkedAt(ring, cons, k) && k < hw
    requires moved == Copied(blank, cons, Before(ring, cons, k))
    requires ResizeOk(ring, cons, k, true, hw, moved, cons + 1, fuel, mp)
    ensures Preserved(ring, cons, hw, moved, cons + 1, fuel, mp) <==> AllKept(ring, cons, k, true, hw, |blank|, mp)
  {
    if hw <= |blank| {
      HardwareWalks(ring, cons, k, hw, mp);
      EarlyStopIff(blank, ring, cons, k, hw, moved, fuel, mp, cons + k, cons + hw);
    } else {
      CutSessionLost(blank, ring, cons, k, hw, moved, fuel, mp);
    }
  }

  /** A resize keeps what is pending exactly when the copy does not give up, the entries fit, and: it
      comes to hardware's marker and no used eighth mini entry changes its owner bit; or the slot it takes
      for the marker is in the last session, none of whose mini entries it leaves behind matters. */
  lemma ResizePreservesIff(blank: seq<Slot>, ring: seq<Slot>, cons: nat, k: nat, ok: bool, hw: nat, moved: seq<Slot>,
                           cons': nat, fuel: nat, mp: IsMpRq)
    requires |blank| > 0 && Fresh(blank) && StopsAt(ring, cons, k, ok) && cons' == cons + (if ok then 1 else 0)
    requires moved == Copied(blank, cons, Before(ring, cons, k))
    requires ResizeOk(ring, cons, k, ok, hw, moved, cons', fuel, mp)
    ensures Preserved(ring, cons, hw, moved, cons', fuel, mp) <==> AllKept(ring, cons, k, ok, hw, |blank|, mp)
    ensures (ok && k == hw) <==> SoftwareTo(ring, cons, hw)
  {
    StopsBefore(ring, cons, k, ok, hw, mp);
    if k == hw {
      MarkerReached(blank, ring, cons, hw, moved, fuel, mp);
    } else if !ok {
      GiveUpLoses(blank, ring, cons, k, hw, moved, fuel, mp);
    } else {
      StoppedEarly(blank, ring, cons, k, hw, moved, fuel, mp);
    }
  }

  /** What polling yields after a resize: nothing if the copy gave up, and exactly when what was
      pending. */
  ghost predicate ResizeExact(ring: seq<Slot>, cons: nat, k: nat, ok: bool, hw: nat, moved: seq<Slot>, cons': nat,
                              fuel: nat, mp: IsMpRq)
    requires |ring| > 0 && |moved| > 0
  {
    && (!ok && k < 2 * |moved| ==> Pending(moved, cons', fuel, mp) == [])
    && (ResizeOk(ring, cons, k, ok, hw, moved, cons', fuel, mp) ==>
          (Preserved(ring, cons, hw, moved, cons', fuel, mp) <==> AllKept(ring, cons, k, ok, hw, |moved|, mp)))
  }

  lemma MovedReads(blank: seq<Slot>, ring: seq<Slot>, cons: nat, k: nat, ok: bool, hw: nat, moved: seq<Slot>,
                   cons': nat, fuel: nat, mp: IsMpRq)
    requires |blank| > 0 && Fresh(blank) && StopsAt(ring, cons, k, ok) && cons' == cons + (if ok then 1 else 0)
    requires moved == Copied(blank, cons, Before(ring, cons, k))
    ensures ResizeExact(ring, cons, k, ok, hw, moved, cons', fuel, mp)
  {
    if !ok && k < 2 * |blank| { GiveUpCloses(blank, cons, Before(ring, cons, k)); }
    if ResizeOk(ring, cons, k, ok, hw, moved, cons', fuel, mp) {
      ResizePreservesIff(blank, ring, cons, k, ok, hw, moved, cons', fuel, mp);
    }
  }
}
