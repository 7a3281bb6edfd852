/** What polling a completion queue to the end yields, compressed sessions included, and
    what removing one resource's entries makes of it. */
module CqPending {

  import opened IndexMath
  import opened CqRing
  import opened CqDecompress

  /** Whether the resource an entry belongs to is a multi-packet receive queue; the lookup
      itself is a parameter. It does not look at the owner bit. */
  type IsMpRq = Slot -> bool

  ghost predicate IsSession(ring: seq<Slot>, n: nat)
    requires |ring| > 0
  {
    Title(ring, n).format == COMPRESSED
  }

  /** The ring once the entry at `n` is plain. */
  ghost function Prepare(ring: seq<Slot>, n: nat, mp: IsMpRq): (r: seq<Slot>)
    requires |ring| > 0
    ensures |r| == |ring|
  {
    if IsSession(ring, n) then Expand(ring, n, mp(Payload(Title(ring, n)))) else ring
  }

  /** Polling up to `fuel` entries from index `n`: expand when needed, take the entry, move on. */
  ghost function Pending(ring: seq<Slot>, n: nat, fuel: nat, mp: IsMpRq): (es: seq<Slot>)
    requires |ring| > 0
    ensures |es| <= fuel
    decreases fuel
  {
    if fuel == 0 || !Accept(ring, n) then []
    else
      var r := Prepare(ring, n, mp);
      [Title(r, n)] + Pending(r, n + 1, fuel - 1, mp)
  }

  /** The ring after that polling. */
  ghost function Settle(ring: seq<Slot>, n: nat, fuel: nat, mp: IsMpRq): (r: seq<Slot>)
    requires |ring| > 0
    ensures |r| == |ring|
    decreases fuel
  {
    if fuel == 0 || !Accept(ring, n) then ring
    else Settle(Prepare(ring, n, mp), n + 1, fuel - 1, mp)
  }

  /** Hardware's promise: every session met has an entry and ends before index `limit`. */
  ghost predicate Fits(ring: seq<Slot>, n: nat, fuel: nat, limit: nat, mp: IsMpRq)
    requires |ring| > 0
    decreases fuel
  {
    fuel == 0 || !Accept(ring, n) ||
    (&& (IsSession(ring, n) ==> 1 <= Count(ring, n) && n + Count(ring, n) <= limit)
     && Fits(Prepare(ring, n, mp), n + 1, fuel - 1, limit, mp))
  }

  lemma PrepareElsewhere(ring: seq<Slot>, n: nat, limit: nat, mp: IsMpRq, i: nat)
    requires |ring| > 0 && limit <= i + |ring| && i < n < limit
    requires IsSession(ring, n) ==> n + Count(ring, n) <= limit
    ensures Prepare(ring, n, mp)[Pos(i, |ring|)] == ring[Pos(i, |ring|)]
  {
    if IsSession(ring, n) {
      var j := i + |ring| - n;
      ExpandedElsewhere(ring, n, mp(Payload(Title(ring, n))), j);
      assert Pos(n + j, |ring|) == Pos(i, |ring|);
    }
  }

  /** Polling leaves the slots already passed alone. */
  lemma {:induction false} SettleElsewhere(ring: seq<Slot>, n: nat, fuel: nat, limit: nat, mp: IsMpRq, i: nat)
    requires |ring| > 0 && Fits(ring, n, fuel, limit, mp) && limit <= i + |ring| && i < n && n + fuel <= limit
    ensures Settle(ring, n, fuel, mp)[Pos(i, |ring|)] == ring[Pos(i, |ring|)]
    decreases fuel
  {
    if fuel > 0 && Accept(ring, n) {
      PrepareElsewhere(ring, n, limit, mp, i);
      SettleElsewhere(Prepare(ring, n, mp), n + 1, fuel - 1, limit, mp, i);
    }
  }

  /** After preparing, the entry at `n` is plain and still accepted. */
  lemma PreparedPlain(ring: seq<Slot>, n: nat, mp: IsMpRq)
    requires |ring| > 0 && Accept(ring, n)
    requires IsSession(ring, n) ==> 1 <= Count(ring, n) <= |ring|
    ensures Accept(Prepare(ring, n, mp), n) && !IsSession(Prepare(ring, n, mp), n)
  {
    if IsSession(ring, n) {
      ExpandedAt(ring, n, mp(Payload(Title(ring, n))), 0);
    }
  }

  /** Index `i` of the ring holds the plain entry `e`. */
  ghost predicate ReadsAt(ring: seq<Slot>, i: nat, e: Slot)
    requires |ring| > 0
  {
    Title(ring, i) == e && Accept(ring, i) && !IsSession(ring, i)
  }

  /** After polling, what was polled can be read off the ring. */
  lemma {:induction false} SettledHolds(ring: seq<Slot>, n: nat, fuel: nat, limit: nat, mp: IsMpRq, i: nat)
    requires |ring| > 0 && Fits(ring, n, fuel, limit, mp) && limit <= n + |ring| && n + fuel <= limit
    requires n <= i < n + |Pending(ring, n, fuel, mp)|
    ensures ReadsAt(Settle(ring, n, fuel, mp), i, Pending(ring, n, fuel, mp)[i - n])
    decreases fuel
  {
    if i > n {
      FitsStep(ring, n, fuel, limit, mp);
      PendingStep(ring, n, fuel, mp, i);
      SettledHolds(Prepare(ring, n, mp), n + 1, fuel - 1, limit, mp, i);
    } else {
      SettledHead(ring, n, fuel, limit, mp);
    }
  }

  lemma FitsStep(ring: seq<Slot>, n: nat, fuel: nat, limit: nat, mp: IsMpRq)
    requires |ring| > 0 && Fits(ring, n, fuel, limit, mp) && Pending(ring, n, fuel, mp) != []
    ensures fuel > 0 && Accept(ring, n) && Fits(Prepare(ring, n, mp), n + 1, fuel - 1, limit, mp)
  {
  }

  lemma PendingStep(ring: seq<Slot>, n: nat, fuel: nat, mp: IsMpRq, i: nat)
    requires |ring| > 0 && fuel > 0 && n < i < n + |Pending(ring, n, fuel, mp)|
    ensures var r := Prepare(ring, n, mp);
            var rest := Pending(r, n + 1, fuel - 1, mp);
            && Settle(ring, n, fuel, mp) == Settle(r, n + 1, fuel - 1, mp)
            && i - n <= |rest|
            && Pending(ring, n, fuel, mp)[i - n] == rest[i - (n + 1)]
  {
  }

  lemma SettledHead(ring: seq<Slot>, n: nat, fuel: nat, limit: nat, mp: IsMpRq)
    requires |ring| > 0 && Pending(ring, n, fuel, mp) != []
    requires Fits(ring, n, fuel, limit, mp) && limit <= n + |ring| && n + fuel <= limit
    ensures ReadsAt(Settle(ring, n, fuel, mp), n, Pending(ring, n, fuel, mp)[0])
  {
    PreparedPlain(ring, n, mp);
    SettleElsewhere(Prepare(ring, n, mp), n + 1, fuel - 1, limit, mp, n);
  }

  /** Polling stops early only at an entry that is not there. */
  lemma {:induction false} SettledEnds(ring: seq<Slot>, n: nat, fuel: nat, mp: IsMpRq)
    requires |ring| > 0
    ensures var k := |Pending(ring, n, fuel, mp)|;
            k < fuel ==> !Accept(Settle(ring, n, fuel, mp), n + k)
    decreases fuel
  {
    if fuel > 0 && Accept(ring, n) {
      SettledEnds(Prepare(ring, n, mp), n + 1, fuel - 1, mp);
    }
  }

  // ---------------------------------------------------------------------------
  // Reading a ring without sessions
  // ---------------------------------------------------------------------------

  /** Indices `n` .. `n + |es|` hold the plain entries `es`, up to owner bits that fit. */
  ghost predicate HoldsPlain(ring: seq<Slot>, n: nat, es: seq<Slot>)
    requires |ring| > 0
  {
    forall j {:trigger es[j]} :: 0 <= j < |es| ==> HoldsAt(ring, n + j, es[j])
  }

  ghost predicate HoldsAt(ring: seq<Slot>, i: nat, e: Slot)
    requires |ring| > 0
  {
    Payload(Title(ring, i)) == Payload(e) && Accept(ring, i) && !IsSession(ring, i)
  }

  lemma {:induction false} PendingOfPlain(ring: seq<Slot>, n: nat, fuel: nat, mp: IsMpRq, es: seq<Slot>)
    requires |ring| > 0 && HoldsPlain(ring, n, es) && |es| <= fuel
    requires |es| < fuel ==> !Accept(ring, n + |es|)
    ensures |Pending(ring, n, fuel, mp)| == |es|
    ensures Payloads(Pending(ring, n, fuel, mp)) == Payloads(es)
    decreases fuel
  {
    if es != [] {
      assert HoldsAt(ring, n, es[0]);
      HoldsTail(ring, n, es);
      PendingOfPlain(ring, n + 1, fuel - 1, mp, es[1..]);
      PendingHead(ring, n, fuel, mp);
    }
  }

  lemma HoldsTail(ring: seq<Slot>, n: nat, es: seq<Slot>)
    requires |ring| > 0 && es != [] && HoldsPlain(ring, n, es)
    ensures HoldsPlain(ring, n + 1, es[1..])
  {
    var rest := es[1..];
    forall j | 0 <= j < |rest| ensures HoldsAt(ring, n + 1 + j, rest[j]) {
      assert rest[j] == es[j + 1];
    }
  }

  /** A plain entry is read and leaves the ring as it is. */
  lemma PendingHead(ring: seq<Slot>, n: nat, fuel: nat, mp: IsMpRq)
    requires |ring| > 0 && fuel > 0 && Accept(ring, n) && !IsSession(ring, n)
    ensures var p := Pending(ring, n + 1, fuel - 1, mp);
            && |Pending(ring, n, fuel, mp)| == 1 + |p|
            && Payloads(Pending(ring, n, fuel, mp)) == [Payload(Title(ring, n))] + Payloads(p)
  {
    var p := Pending(ring, n + 1, fuel - 1, mp);
    assert Pending(ring, n, fuel, mp) == [Title(ring, n)] + p;
    assert ([Title(ring, n)] + p)[1..] == p;
  }

  // ---------------------------------------------------------------------------
  // Removing a resource's entries
  // ---------------------------------------------------------------------------

  /** Which entries to drop: by resource number or, from version 1 on, by user index. */
  datatype Target = Target(version: nat, id: nat)

  predicate Matches(t: Target, e: Slot) {
    if t.version != 0 then e.srqnUidx % 0x100_0000 == t.id else e.qpn == t.id
  }

  /** Whether dropping the entry gives a receive entry back to the shared receive queue. */
  predicate ReturnsWqe(t: Target, e: Slot) {
    if t.version != 0 then IsResponder(e.opcode) else e.srqnUidx % 0x100_0000 != 0
  }

  ghost function Keep(t: Target, es: seq<Slot>): (r: seq<Slot>)
    ensures |r| <= |es|
  {
    if es == [] then []
    else if Matches(t, es[0]) then Keep(t, es[1..])
    else [es[0]] + Keep(t, es[1..])
  }

  /** The receive entries returned, in the order a backward sweep meets them. */
  ghost function Returned(t: Target, es: seq<Slot>): seq<nat> {
    if es == [] then []
    else
      Returned(t, es[1..]) +
      if Matches(t, es[0]) && ReturnsWqe(t, es[0]) then [es[0].wqeCounter] else []
  }

  /** What is kept is what does not match, in the same order. */
  lemma {:induction false} KeepMeans(t: Target, es: seq<Slot>)
    ensures forall e :: e in Keep(t, es) <==> e in es && !Matches(t, e)
    ensures forall e :: !Matches(t, e) ==> multiset(Keep(t, es))[e] == multiset(es)[e]
  {
    if es != [] {
      KeepMeans(t, es[1..]);
      assert es == [es[0]] + es[1..];
    }
  }

  lemma KeepStep(t: Target, es: seq<Slot>, k: nat)
    requires k < |es|
    ensures Keep(t, es[k..]) == (if Matches(t, es[k]) then [] else [es[k]]) + Keep(t, es[k + 1..])
    ensures Returned(t, es[k..]) ==
            Returned(t, es[k + 1..]) + (if Matches(t, es[k]) && ReturnsWqe(t, es[k]) then [es[k].wqeCounter] else [])
  {
    assert es[k..][1..] == es[k + 1..];
  }

  /** What is kept of the entries from `k` on, and where it stood. */
  lemma {:induction false} KeptFrom(t: Target, es: seq<Slot>, k: nat) returns (at: seq<nat>)
    requires k <= |es|
    ensures |at| == |Keep(t, es[k..])| && forall i, j :: 0 <= i < j < |at| ==> at[i] < at[j]
    ensures forall i :: 0 <= i < |at| ==> k <= at[i] < |es| && Keep(t, es[k..])[i] == es[at[i]]
    ensures forall m: nat :: k <= m < |es| ==> (m in at <==> !Matches(t, es[m]))
    decreases |es| - k
  {
    at := [];
    if k < |es| {
      var rest := KeptFrom(t, es, k + 1);
      KeepStep(t, es, k);
      at := (if Matches(t, es[k]) then [] else [k]) + rest;
    }
  }

  lemma {:induction false} ReturnedFrom(t: Target, es: seq<Slot>, k: nat) returns (at: seq<nat>)
    requires k <= |es|
    ensures |at| == |Returned(t, es[k..])| && forall i, j :: 0 <= i < j < |at| ==> at[i] > at[j]
    ensures forall i :: 0 <= i < |at| ==> k <= at[i] < |es| && Returned(t, es[k..])[i] == es[at[i]].wqeCounter
    ensures forall m: nat :: k <= m < |es| ==> (m in at <==> Matches(t, es[m]) && ReturnsWqe(t, es[m]))
    decreases |es| - k
  {
    at := [];
    if k < |es| {
      var rest := ReturnedFrom(t, es, k + 1);
      KeepStep(t, es, k);
      at := rest + (if Matches(t, es[k]) && ReturnsWqe(t, es[k]) then [k] else []);
    }
  }

  /** Kept are exactly the entries of other queue pairs, or from version 1 on those with another user
      index, in the order they stood. */
  lemma KeptInOrder(t: Target, es: seq<Slot>) returns (at: seq<nat>)
    ensures |at| == |Keep(t, es)| && forall i, j :: 0 <= i < j < |at| ==> at[i] < at[j]
    ensures forall i :: 0 <= i < |at| ==> at[i] < |es| && Keep(t, es)[i] == es[at[i]]
    ensures forall k: nat :: k < |es| ==>
              (k in at <==> if t.version == 0 then es[k].qpn != t.id else es[k].srqnUidx % 0x100_0000 != t.id)
  {
    at := KeptFrom(t, es, 0);
    assert es[0..] == es;
  }

  /** Receive entries returned are those of dropped entries that came from a shared receive queue: by
      its number, or from version 1 on by the five responder opcodes; the last first. */
  lemma ReturnedInOrder(t: Target, es: seq<Slot>) returns (at: seq<nat>)
    ensures |at| == |Returned(t, es)| && forall i, j :: 0 <= i < j < |at| ==> at[i] > at[j]
    ensures forall i :: 0 <= i < |at| ==> at[i] < |es| && Returned(t, es)[i] == es[at[i]].wqeCounter
    ensures forall k: nat :: k < |es| ==>
              (k in at <==>
               if t.version == 0 then es[k].qpn == t.id && es[k].srqnUidx % 0x100_0000 != 0
               else es[k].srqnUidx % 0x100_0000 == t.id && es[k].opcode in {1, 2, 3, 4, 14})
  {
    at := ReturnedFrom(t, es, 0);
    assert es[0..] == es;
  }

  // ---------------------------------------------------------------------------
  // The backward sweep
  // ---------------------------------------------------------------------------

  /** The sweep over entries `es`, which stood from index `cons` of ring `ring0` on, has come
      down to index `m`; what it kept stands, in order, right at the end of their indices. */
  ghost predicate Swept(ring: seq<Slot>, ring0: seq<Slot>, cons: nat, es: seq<Slot>, kept: seq<Slot>, m: nat) {
    && 0 < |ring| == |ring0| && |es| <= |ring| && cons <= m && m + |kept| <= cons + |es|
    && (forall i {:trigger Title(ring, i)} :: cons <= i < m ==> Title(ring, i) == es[i - cons])
    && (forall i {:trigger Title(ring, i)} :: cons + |es| - |kept| <= i < cons + |es| ==>
          Title(ring, i) == kept[i - (cons + |es| - |kept|)].(owner := Parity(i, |ring|)))
    && (forall i {:trigger Title(ring, i)} :: cons <= i < cons + |es| ==> Title(ring, i).owner == Parity(i, |ring|))
    && (forall i {:trigger Title(ring, i)} :: cons + |es| <= i < cons + |ring| ==> Title(ring, i) == Title(ring0, i))
  }

  /** An entry kept where it stands. */
  lemma SweepStay(ring: seq<Slot>, ring0: seq<Slot>, cons: nat, es: seq<Slot>, kept: seq<Slot>, m: nat)
    requires Swept(ring, ring0, cons, es, kept, m) && cons < m == cons + |es| - |kept|
    ensures Swept(ring, ring0, cons, es, [es[m - 1 - cons]] + kept, m - 1)
  {
    assert Title(ring, m - 1).owner == Parity(m - 1, |ring|);
  }

  /** Index `d`'s slot overwritten: every other index of the lap keeps its slot. */
  lemma WriteOne(ring: seq<Slot>, cons: nat, d: nat, e: Slot, i: nat)
    requires |ring| > 0 && cons <= d < cons + |ring| && cons <= i < cons + |ring|
    ensures Title(ring[Pos(d, |ring|) := e], i) == if i == d then e else Title(ring, i)
  {
    if i < d { PosDiffer(i, d, |ring|); }
    if d < i { PosDiffer(d, i, |ring|); }
  }

  /** An entry moved up over dropped ones, leaving the owner bit of where it goes. */
  lemma SweepMove(ring: seq<Slot>, ring0: seq<Slot>, cons: nat, es: seq<Slot>, kept: seq<Slot>, m: nat, e: Slot)
    requires Swept(ring, ring0, cons, es, kept, m) && cons < m < cons + |es| - |kept|
    requires var d := cons + |es| - |kept| - 1;
             e == es[m - 1 - cons].(owner := Title(ring, d).owner)
    ensures var d := cons + |es| - |kept| - 1;
            Swept(ring[Pos(d, |ring|) := e], ring0, cons, es, [es[m - 1 - cons]] + kept, m - 1)
  {
    var d := cons + |es| - |kept| - 1;
    var ring' := ring[Pos(d, |ring|) := e];
    forall i: nat | cons <= i < cons + |ring| ensures Title(ring', i) == if i == d then e else Title(ring, i) {
      WriteOne(ring, cons, d, e, i);
    }
    SweptWith(ring, ring0, cons, es, kept, m, d, ring');
  }

  lemma SweptWith(ring: seq<Slot>, ring0: seq<Slot>, cons: nat, es: seq<Slot>, kept: seq<Slot>, m: nat, d: nat,
                  ring': seq<Slot>)
    requires Swept(ring, ring0, cons, es, kept, m) && cons < m <= d && d + |kept| + 1 == cons + |es|
    requires |ring'| == |ring|
    requires forall i: nat {:trigger Title(ring', i)} :: cons <= i < cons + |ring| ==>
               Title(ring', i) == if i == d then es[m - 1 - cons].(owner := Title(ring, d).owner) else Title(ring, i)
    ensures Swept(ring', ring0, cons, es, [es[m - 1 - cons]] + kept, m - 1)
  {
    var kept' := [es[m - 1 - cons]] + kept;
    assert Title(ring, d).owner == Parity(d, |ring|);
    forall i: nat | d <= i < cons + |es| ensures Title(ring', i) == kept'[i - d].(owner := Parity(i, |ring|)) {
      if i > d { assert kept'[i - d] == kept[i - d - 1]; }
    }
  }

  /** A dropped entry. */
  lemma SweepDrop(ring: seq<Slot>, ring0: seq<Slot>, cons: nat, es: seq<Slot>, kept: seq<Slot>, m: nat)
    requires Swept(ring, ring0, cons, es, kept, m) && cons < m
    ensures Swept(ring, ring0, cons, es, kept, m - 1)
  {
  }

  /** The scan of a ring has come to index `n` with `fuel` indices to go; when it is over, the ring
      will be `final`, and `more` entries will have been pending from `n` on. */
  ghost predicate Scanning(ring: seq<Slot>, n: nat, fuel: nat, limit: nat, mp: IsMpRq, final: seq<Slot>, more: nat) {
    && |ring| > 0 && Fits(ring, n, fuel, limit, mp)
    && final == Settle(ring, n, fuel, mp) && more == |Pending(ring, n, fuel, mp)|
  }

  /** One turn of the scan. */
  lemma ScanStep(ring: seq<Slot>, n: nat, fuel: nat, limit: nat, mp: IsMpRq, final: seq<Slot>, more: nat)
    returns (r: seq<Slot>)
    requires Scanning(ring, n, fuel, limit, mp, final, more) && fuel > 0 && Accept(ring, n)
    ensures r == Prepare(ring, n, mp) && more > 0 && Scanning(r, n + 1, fuel - 1, limit, mp, final, more - 1)
    ensures IsSession(ring, n) ==> n + Count(ring, n) <= limit
  {
    r := Prepare(ring, n, mp);
  }

  lemma ScanEnds(ring: seq<Slot>, n: nat, fuel: nat, limit: nat, mp: IsMpRq, final: seq<Slot>, more: nat)
    requires Scanning(ring, n, fuel, limit, mp, final, more) && (fuel == 0 || !Accept(ring, n))
    ensures final == ring && more == 0
  {
  }

  lemma {:induction false} ReturnedPrefix(t: Target, es: seq<Slot>, k: nat)
    requires k <= |es|
    ensures Returned(t, es[k..]) <= Returned(t, es)
  {
    if k == 0 {
      assert es[0..] == es;
    } else {
      ReturnedPrefix(t, es, k - 1);
      KeepStep(t, es, k - 1);
    }
  }

  lemma SweepStart(ring: seq<Slot>, cons: nat, es: seq<Slot>)
    requires |es| <= |ring| && |ring| > 0
    requires forall j {:trigger es[j]} :: 0 <= j < |es| ==>
               Title(ring, cons + j) == es[j] && es[j].owner == Parity(cons + j, |ring|)
    ensures Swept(ring, ring, cons, es, [], cons + |es|)
  {
    forall i | cons <= i < cons + |es|
      ensures Title(ring, i) == es[i - cons] && Title(ring, i).owner == Parity(i, |ring|)
    {
      assert Title(ring, cons + (i - cons)) == es[i - cons];
    }
  }

  lemma SweptHolds(ring: seq<Slot>, ring0: seq<Slot>, cons: nat, es: seq<Slot>, kept: seq<Slot>, rest: seq<Slot>,
                   j: nat)
    requires Swept(ring, ring0, cons, es, kept, cons) && |es| + |rest| <= |ring| && j < |kept| + |rest|
    requires j < |kept| ==> kept[j].opcode != INVALID && kept[j].format != COMPRESSED
    requires j >= |kept| ==> HoldsAt(ring0, cons + |es| - |kept| + j, rest[j - |kept|])
    ensures HoldsAt(ring, cons + |es| - |kept| + j, (kept + rest)[j])
  {
    var i := cons + |es| - |kept| + j;
    if j < |kept| {
      assert Title(ring, i) == kept[j].(owner := Parity(i, |ring|));
    } else {
      assert Title(ring, i) == Title(ring0, i);
    }
  }

  /** The swept ring read from its new consumer index: what was kept, then whatever stood
      behind the swept entries. */
  lemma SweptHoldsAll(ring: seq<Slot>, ring0: seq<Slot>, cons: nat, es: seq<Slot>, kept: seq<Slot>, rest: seq<Slot>)
    requires Swept(ring, ring0, cons, es, kept, cons) && |es| + |rest| <= |ring|
    requires forall j {:trigger kept[j]} :: 0 <= j < |kept| ==>
               kept[j].opcode != INVALID && kept[j].format != COMPRESSED
    requires HoldsPlain(ring0, cons + |es|, rest)
    requires |es| + |rest| < |ring| ==> !Accept(ring0, cons + |es| + |rest|)
    ensures HoldsPlain(ring, cons + |es| - |kept|, kept + rest)
    ensures |es| + |rest| < |ring| ==> !Accept(ring, cons + |es| + |rest|)
  {
    var cons', all := cons + |es| - |kept|, kept + rest;
    forall j | 0 <= j < |all| ensures HoldsAt(ring, cons' + j, all[j]) {
      assert j >= |kept| ==> rest[j - |kept|] == all[j];
      SweptHolds(ring, ring0, cons, es, kept, rest, j);
    }
    if |es| + |rest| < |ring| {
      assert Title(ring, cons + |es| + |rest|) == Title(ring0, cons + |es| + |rest|);
    }
  }

  // ---------------------------------------------------------------------------
  // Cleaning
  // ---------------------------------------------------------------------------

  /** How many entries the sweep looks at: all that are pending, except the last one of a
      completely full ring. */
  ghost function Looked(pending: nat, size: nat): (k: nat)
    requires pending <= size && size > 0
    ensures k <= pending
  {
    if pending < size then pending else size - 1
  }

  /** Facts about the scanned ring that the sweep starts from. */
  lemma ScannedRing(ring: seq<Slot>, cons: nat, mp: IsMpRq, k: nat)
    requires |ring| > 0 && Fits(ring, cons, |ring|, cons + |ring|, mp)
    requires k == Looked(|Pending(ring, cons, |ring|, mp)|, |ring|)
    ensures var p, r := Pending(ring, cons, |ring|, mp), Settle(ring, cons, |ring|, mp);
            && Swept(r, r, cons, p[..k], [], cons + k)
            && HoldsPlain(r, cons + k, p[k..])
            && (|p| < |ring| ==> !Accept(r, cons + |p|))
            && forall j {:trigger p[j]} :: 0 <= j < |p| ==> p[j].opcode != INVALID && p[j].format != COMPRESSED
  {
    var p, r := Pending(ring, cons, |ring|, mp), Settle(ring, cons, |ring|, mp);
    SettledEnds(ring, cons, |ring|, mp);
    forall j | 0 <= j < |p|
      ensures HoldsAt(r, cons + j, p[j]) && Title(r, cons + j) == p[j] && p[j].owner == Parity(cons + j, |ring|)
      ensures p[j].opcode != INVALID && p[j].format != COMPRESSED
    {
      SettledHolds(ring, cons, |ring|, cons + |ring|, mp, cons + j);
    }
    forall j | 0 <= j < |p[k..]| ensures HoldsAt(r, cons + k + j, p[k..][j]) {
      assert p[k..][j] == p[k + j];
    }
    assert forall j {:trigger p[..k][j]} :: 0 <= j < k ==> p[..k][j] == p[j];
    SweepStart(r, cons, p[..k]);
  }

  lemma KeptPlain(t: Target, es: seq<Slot>)
    requires forall j {:trigger es[j]} :: 0 <= j < |es| ==> es[j].opcode != INVALID && es[j].format != COMPRESSED
    ensures var kept := Keep(t, es);
            forall j {:trigger kept[j]} :: 0 <= j < |kept| ==> kept[j].opcode != INVALID && kept[j].format != COMPRESSED
  {
    var kept := Keep(t, es);
    KeepMeans(t, es);
    forall j | 0 <= j < |kept| ensures kept[j].opcode != INVALID && kept[j].format != COMPRESSED {
      assert kept[j] in kept;
    }
  }

  /** Cleaning removes every entry of the resource exactly when the ring was not completely
      full or its last entry belongs to someone else. */
  lemma CleanComplete(t: Target, p: seq<Slot>, size: nat)
    requires |p| <= size && size > 0
    ensures var k := Looked(|p|, size);
            Keep(t, p[..k]) + p[k..] == Keep(t, p) <==> (|p| < size || !Matches(t, p[size - 1]))
  {
    var k := Looked(|p|, size);
    if |p| < size {
      assert p[..k] == p && p[k..] == [];
    } else {
      assert p == p[..k] + [p[k]] && p[k..] == [p[k]];
      KeepConcat(t, p[..k], [p[k]]);
      assert Keep(t, [p[k]]) == if Matches(t, p[k]) then [] else [p[k]];
    }
  }

  lemma {:induction false} KeepConcat(t: Target, a: seq<Slot>, b: seq<Slot>)
    ensures Keep(t, a + b) == Keep(t, a) + Keep(t, b)
  {
    if a == [] {
      assert a + b == b;
    } else {
      KeepConcat(t, a[1..], b);
      KeepCons(t, a[0], a[1..] + b);
      KeepCons(t, a[0], a[1..]);
      assert a + b == [a[0]] + (a[1..] + b) && a == [a[0]] + a[1..];
      var head := if Matches(t, a[0]) then [] else [a[0]];
      assert head + (Keep(t, a[1..]) + Keep(t, b)) == head + Keep(t, a[1..]) + Keep(t, b);
    }
  }

  lemma KeepCons(t: Target, x: Slot, es: seq<Slot>)
    ensures Keep(t, [x] + es) == (if Matches(t, x) then [] else [x]) + Keep(t, es)
  {
    assert ([x] + es)[1..] == es;
  }

  /** `ring'` from `cons'` on yields, however long it is polled, what `ring` from `cons` on yielded,
      less the target's entries among those looked at, and nothing after it. */
  ghost predicate Cleaned(ring: seq<Slot>, cons: nat, mp: IsMpRq, t: Target, ring': seq<Slot>, cons': nat)
    requires |ring| > 0
  {
    var p := Pending(ring, cons, |ring|, mp);
    var k := Looked(|p|, |ring|);
    var kept := Keep(t, p[..k]);
    && |ring'| == |ring|
    && cons' == cons + k - |kept|
    && forall fuel: nat {:trigger Pending(ring', cons', fuel, mp)} :: |kept| + |p| - k <= fuel ==>
         Payloads(Pending(ring', cons', fuel, mp)) == Payloads(kept + p[k..])
  }

  /** An entry of this lap is not accepted in the next. */
  lemma NextLapCloses(ring: seq<Slot>, n: nat)
    requires |ring| > 0 && Title(ring, n).owner == Parity(n, |ring|)
    ensures !Accept(ring, n + |ring|)
  {
  }

  /** What the sweep starts from: entries `p` pending in `ring0`, of which it looks at `k`. */
  ghost predicate SweepFrom(ring0: seq<Slot>, cons: nat, p: seq<Slot>, k: nat) {
    && k <= |p| <= |ring0| && 0 < |ring0| && HoldsPlain(ring0, cons + k, p[k..])
    && (|p| < |ring0| ==> !Accept(ring0, cons + |p|))
    && forall j {:trigger p[j]} :: 0 <= j < |p| ==> p[j].opcode != INVALID && p[j].format != COMPRESSED
  }

  lemma SweptCloses(ring: seq<Slot>, ring0: seq<Slot>, cons: nat, t: Target, p: seq<Slot>, k: nat, kept: seq<Slot>)
    requires SweepFrom(ring0, cons, p, k) && kept == Keep(t, p[..k])
    requires Swept(ring, ring0, cons, p[..k], kept, cons)
    ensures HoldsPlain(ring, cons + k - |kept|, kept + p[k..]) && !Accept(ring, cons + |p|)
  {
    assert forall j {:trigger p[..k][j]} :: 0 <= j < k ==> p[..k][j] == p[j];
    KeptPlain(t, p[..k]);
    SweptHoldsAll(ring, ring0, cons, p[..k], kept, p[k..]);
    if |p| == |ring| {
      if k == 0 { assert p[0..][0] == p[0] && Title(ring, cons) == Title(ring0, cons); }
      NextLapCloses(ring, cons);
    }
  }

  lemma SweptRead(ring: seq<Slot>, ring0: seq<Slot>, cons: nat, mp: IsMpRq, t: Target, p: seq<Slot>, k: nat,
                  kept: seq<Slot>, cons': nat)
    requires SweepFrom(ring0, cons, p, k) && kept == Keep(t, p[..k]) && cons' == cons + k - |kept|
    requires Swept(ring, ring0, cons, p[..k], kept, cons)
    ensures forall fuel: nat {:trigger Pending(ring, cons', fuel, mp)} :: |kept| + |p| - k <= fuel ==>
              Payloads(Pending(ring, cons', fuel, mp)) == Payloads(kept + p[k..])
  {
    SweptCloses(ring, ring0, cons, t, p, k, kept);
    forall fuel: nat | |kept| + |p| - k <= fuel
      ensures Payloads(Pending(ring, cons', fuel, mp)) == Payloads(kept + p[k..])
    {
      PendingOfPlain(ring, cons', fuel, mp, kept + p[k..]);
    }
  }

  lemma SweptIsCleaned(ring: seq<Slot>, cons: nat, mp: IsMpRq, t: Target, ring': seq<Slot>, cons': nat,
                       p: seq<Slot>, k: nat, kept: seq<Slot>)
    requires |ring| > 0 && Fits(ring, cons, |ring|, cons + |ring|, mp)
    requires p == Pending(ring, cons, |ring|, mp) && k == Looked(|p|, |ring|) && kept == Keep(t, p[..k])
    requires Swept(ring', Settle(ring, cons, |ring|, mp), cons, p[..k], kept, cons)
    requires cons' == cons + k - |kept|
    ensures Cleaned(ring, cons, mp, t, ring', cons')
  {
    ScannedRing(ring, cons, mp, k);
    SweptRead(ring', Settle(ring, cons, |ring|, mp), cons, mp, t, p, k, kept, cons');
    assert |ring'| == |ring|;
  }
}
