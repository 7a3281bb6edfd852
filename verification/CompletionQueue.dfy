/** The completion queue working in place on its ring (drivers/libmlx5-1.0.2mlnx1/src/cq.c). */
module CompletionQueue {

  import opened IndexMath
  import opened CqRing
  import opened CqDecompress
  import opened CqPending
  import opened CqResize
  import opened CqMove
  import opened CqKept
  import opened Srq

  class Cq {
    var buf: array<Slot>
    var consIndex: nat

    /** A new queue, of slots marked invalid: polling it yields nothing. */
    constructor (size: nat)
      requires size > 0
      ensures fresh(buf) && buf[..] == seq(size, _ => InvalidSlot()) && consIndex == 0
      ensures forall fuel: nat, mp: IsMpRq {:trigger Pending(buf[..], 0, fuel, mp)} ::
                Pending(buf[..], 0, fuel, mp) == []
    {
      buf := new Slot[size](_ => InvalidSlot());
      consIndex := 0;
    }

    /** The body of the loop in copy_cqes: slot `k` becomes the title with the fields of one
        mini entry put over it. `k` may be the title's own slot. */
    method CopyOne(mini: Mini, titleAt: nat, k: nat, own: nat, isReq: bool, wqeCnt: nat)
      requires k < buf.Length && titleAt < buf.Length && isReq == IsRequestor(buf[titleAt].opcode)
      modifies buf
      ensures buf[..] == old(buf[..])[k := Fill(old(buf[titleAt]), mini, own, wqeCnt)]
    {
      buf[k] := buf[titleAt];
      buf[k] := buf[k].(byteCnt := mini.byteCnt);
      buf[k] := buf[k].(format := 0, owner := own);
      if isReq {
        buf[k] := buf[k].(wqeCounter := mini.first / 0x1_0000, sop := mini.first / 0x100 % 0x100);
      } else {
        buf[k] := buf[k].(rxHash := mini.first);
        buf[k] := buf[k].(wqeCounter := wqeCnt);
      }
    }

    /** Entry `n` of a session is written, from whatever the title's slot holds by then. */
    method CopyEntry(mini: Mini, titleAt: nat, i: nat, isReq: bool, wqeCnt: nat,
                     ghost ring: seq<Slot>, ghost idx: nat, ghost s: Session, ghost es: seq<Slot>, ghost n: nat)
      requires buf.Length > 0 && |ring| == buf.Length && n < |s.minis| <= |ring|
      requires s.title == Title(ring, idx) && es == Entries(s, idx, |ring|, |s.minis|)
      requires buf[..] == Write(ring, idx, es, n) && titleAt == Pos(idx, |ring|) && i == idx + n
      requires mini == s.minis[n] && wqeCnt == CtrAt(s, n) && isReq == IsRequestor(s.title.opcode)
      modifies buf
      ensures buf[..] == Write(ring, idx, es, n + 1)
    {
      TitleServes(ring, idx, s, es, n, Mini(0, 0), 0, 0);
      ghost var title, own := buf[titleAt], Parity(i, buf.Length);
      WriteStep(ring, idx, s, es, n, title, Fill(title, mini, own, wqeCnt));
      CopyOne(mini, titleAt, Pos(i, buf.Length), Parity(i, buf.Length), isReq, wqeCnt);
    }

    /** copy_cqes: `cnt` entries of session `s`, of which `done` are already written, are
        written over the slots from `cqeIdx` on. `titleAt` is the title's slot, which the
        session's own first entry overwrites. */
    method CopyCqes(mini: seq<Mini>, titleAt: nat, cnt: nat, wqeCnt: nat, cqeIdx: nat, mpRq: bool,
                    ghost ring: seq<Slot>, ghost idx: nat, ghost s: Session, ghost es: seq<Slot>, ghost done: nat)
      returns (wqeCnt': nat)
      requires cnt <= 8 && buf.Length > 0 && |ring| == buf.Length
      requires s.title == Title(ring, idx) && s.mpRq == mpRq && es == Entries(s, idx, |ring|, |s.minis|)
      requires cqeIdx == idx + done && done + cnt <= |s.minis| <= |ring| && titleAt == Pos(idx, |ring|)
      requires buf[..] == Write(ring, idx, es, done)
      requires Loaded(mini, s, done) && wqeCnt == CtrAt(s, done)
      modifies buf
      ensures buf[..] == Write(ring, idx, es, done + cnt)
      ensures wqeCnt' == CtrAt(s, done + cnt)
    {
      TitleServes(ring, idx, s, es, done, Mini(0, 0), 0, 0);
      var isReq := IsRequestor(buf[titleAt].opcode);
      wqeCnt' := wqeCnt;
      for i := 0 to cnt
        invariant buf[..] == Write(ring, idx, es, done + i)
        invariant wqeCnt' == CtrAt(s, done + i)
      {
        assert mini[i] == s.minis[done + i];
        CopyEntry(mini[i], titleAt, cqeIdx + i, isReq, wqeCnt', ring, idx, s, es, done + i);
        wqeCnt' := NextCtr(isReq, mini[i], mpRq, wqeCnt');
      }
    }

    /** mlx5_decompress_cqe_idx */
    method DecompressIdx(cqeIdx: nat, mpRq: bool)
      requires buf.Length > 0 && Count(buf[..], cqeIdx) <= buf.Length
      modifies buf
      ensures buf[..] == Expand(old(buf[..]), cqeIdx, mpRq)
    {
      ghost var ring := buf[..];
      ghost var s := SessionAt(ring, cqeIdx, mpRq);
      ghost var es := SessionEntries(ring, cqeIdx, mpRq);
      var titleAt := Pos(cqeIdx, buf.Length);
      FirstMinis(ring, cqeIdx, mpRq);
      var mini := MinisOf(buf[Pos(cqeIdx + 1, buf.Length)]);
      var cqeCnt := buf[titleAt].byteCnt;
      var wqeCnt := buf[titleAt].wqeCounter;
      var done: nat := 0;
      while cqeCnt > 7
        invariant 0 <= cqeCnt && done + cqeCnt == |es| && done % 8 == 0
        invariant buf[..] == Write(ring, cqeIdx, es, done)
        invariant Loaded(mini, s, done) && wqeCnt == CtrAt(s, done)
      {
        wqeCnt := CopyCqes(mini, titleAt, 8, wqeCnt, cqeIdx + done, mpRq, ring, cqeIdx, s, es, done);
        done, cqeCnt := done + 8, cqeCnt - 8;
        if cqeCnt > 0 {
          NextMinis(ring, cqeIdx, mpRq, done);
        }
        mini := MinisOf(buf[Pos(cqeIdx + done, buf.Length)]);
      }
      wqeCnt := CopyCqes(mini, titleAt, cqeCnt, wqeCnt, cqeIdx + done, mpRq, ring, cqeIdx, s, es, done);
    }

    /** Expand the session at an index, if there is one. */
    method PrepareAt(idx: nat, mp: IsMpRq)
      requires buf.Length > 0 && (IsSession(buf[..], idx) ==> Count(buf[..], idx) <= buf.Length)
      modifies buf
      ensures buf[..] == Prepare(old(buf[..]), idx, mp)
    {
      if buf[Pos(idx, buf.Length)].format == COMPRESSED {
        DecompressIdx(idx, mp(Payload(buf[Pos(idx, buf.Length)])));
      }
    }

    /** The first loop of __mlx5_cq_clean: find the producer's index, expanding sessions on
        the way. It stops one short of a full ring. */
    method Scan(mp: IsMpRq) returns (prod: nat)
      requires buf.Length > 0 && Fits(buf[..], consIndex, buf.Length, consIndex + buf.Length, mp)
      modifies buf
      ensures buf[..] == Settle(old(buf[..]), consIndex, buf.Length, mp)
      ensures var k := |Pending(old(buf[..]), consIndex, buf.Length, mp)|;
              prod == consIndex + if k < buf.Length then k else buf.Length - 1
    {
      ghost var final := Settle(buf[..], consIndex, buf.Length, mp);
      ghost var total := |Pending(buf[..], consIndex, buf.Length, mp)|;
      prod := consIndex;
      ghost var fuel, limit := buf.Length, consIndex + buf.Length;
      ghost var more: nat := total;
      while Accept(buf[..], prod)
        invariant consIndex <= prod && prod + fuel == limit && fuel > 0 && total == prod - consIndex + more
        invariant Scanning(buf[..], prod, fuel, limit, mp, final, more)
        decreases fuel
      {
        ghost var r := ScanStep(buf[..], prod, fuel, limit, mp, final, more);
        PrepareAt(prod, mp);
        assert buf[..] == r;
        if prod == consIndex + buf.Length - 1 {
          ScanEnds(r, prod + 1, 0, limit, mp, final, more - 1);
          return;
        }
        prod, fuel, more := prod + 1, fuel - 1, more - 1;
      }
      ScanEnds(buf[..], prod, fuel, limit, mp, final, more);
    }

    /** free_res_cqe */
    method FreeResCqe(cqe: Slot, t: Target, srq: SharedReceiveQueue?) returns (drop: bool)
      requires srq != null ==> srq.Valid()
      requires srq != null && Matches(t, cqe) && ReturnsWqe(t, cqe) ==>
                 cqe.wqeCounter in Posted(srq.next.Length, srq.free)
      modifies if srq != null then {srq, srq.next} else {}
      ensures drop == Matches(t, cqe)
      ensures drop <==> (t.version == 0 && cqe.qpn == t.id) || (t.version > 0 && cqe.srqnUidx % 0x100_0000 == t.id)
      ensures srq != null ==>
                && srq.Valid()
                && srq.free == old(srq.free) + if drop && ReturnsWqe(t, cqe) then [cqe.wqeCounter] else []
    {
      drop := Matches(t, cqe);
      if drop && srq != null && ReturnsWqe(t, cqe) {
        srq.FreeWqe(cqe.wqeCounter);
      }
    }

    /** The copy in the second loop of __mlx5_cq_clean: the slot it goes to keeps its owner bit. */
    method MoveUp(from: nat, dest: nat)
      requires from < buf.Length && dest < buf.Length
      modifies buf
      ensures buf[..] == old(buf[..])[dest := old(buf[from]).(owner := old(buf[dest]).owner)]
    {
      var ownerBit := buf[dest].owner;
      buf[dest] := buf[from];
      buf[dest] := buf[dest].(owner := ownerBit);
    }

    /** The entry at index `prod` is kept: it moves up over the `nfreed` dropped so far. */
    method Retain(prod: nat, nfreed: nat, ghost ring0: seq<Slot>, ghost cons: nat, ghost es: seq<Slot>,
                  ghost kept: seq<Slot>)
      requires cons <= prod && Swept(buf[..], ring0, cons, es, kept, prod + 1)
      requires nfreed == cons + |es| - |kept| - prod - 1
      modifies buf
      ensures Swept(buf[..], ring0, cons, es, [es[prod - cons]] + kept, prod)
    {
      ghost var ring := buf[..];
      assert Title(ring, prod) == es[prod - cons];
      if nfreed > 0 {
        var dest := Pos(prod + nfreed, buf.Length);
        SweepMove(ring, ring0, cons, es, kept, prod + 1, es[prod - cons].(owner := buf[dest].owner));
        MoveUp(Pos(prod, buf.Length), dest);
      } else {
        SweepStay(ring, ring0, cons, es, kept, prod + 1);
      }
    }

    /** The body of the second loop of __mlx5_cq_clean, for the entry at index `prod`. */
    method SweepOne(prod: nat, nfreed: nat, t: Target, srq: SharedReceiveQueue?,
                    ghost ring0: seq<Slot>, ghost cons: nat, ghost es: seq<Slot>, ghost kept: seq<Slot>)
      returns (drop: bool)
      requires cons <= prod && Swept(buf[..], ring0, cons, es, kept, prod + 1)
      requires nfreed == cons + |es| - |kept| - prod - 1
      requires srq != null ==> srq.Valid()
      requires srq != null && Matches(t, es[prod - cons]) && ReturnsWqe(t, es[prod - cons]) ==>
                 es[prod - cons].wqeCounter in Posted(srq.next.Length, srq.free)
      modifies buf
      modifies if srq != null then {srq, srq.next} else {}
      ensures drop == Matches(t, es[prod - cons])
      ensures Swept(buf[..], ring0, cons, es, (if drop then [] else [es[prod - cons]]) + kept, prod)
      ensures srq != null ==>
                && srq.Valid()
                && srq.free == old(srq.free) +
                     if drop && ReturnsWqe(t, es[prod - cons]) then [es[prod - cons].wqeCounter] else []
    {
      ghost var ring := buf[..];
      assert Title(ring, prod) == es[prod - cons];
      drop := FreeResCqe(buf[Pos(prod, buf.Length)], t, srq);
      assert buf[..] == ring;
      if drop {
        SweepDrop(ring, ring0, cons, es, kept, prod + 1);
        assert [] + kept == kept;
      } else {
        Retain(prod, nfreed, ring0, cons, es, kept);
      }
    }

    /** The second loop of __mlx5_cq_clean: sweep backwards from `top`, dropping entries that
        match and moving the others up over them, then move the consumer past what is gone. */
    method Sweep(top: nat, t: Target, srq: SharedReceiveQueue?, ghost es: seq<Slot>)
      requires top == consIndex + |es| && Swept(buf[..], buf[..], consIndex, es, [], top)
      requires srq != null ==> srq.Valid() && Freeable(srq.View(), Returned(t, es))
      modifies this`consIndex, buf
      modifies if srq != null then {srq, srq.next} else {}
      ensures consIndex == old(consIndex) + |es| - |Keep(t, es)|
      ensures Swept(buf[..], old(buf[..]), old(consIndex), es, Keep(t, es), old(consIndex))
      ensures srq != null ==> srq.Valid() && srq.free == old(srq.free) + Returned(t, es)
    {
      ghost var cons, ring0 := consIndex, buf[..];
      ghost var pool := if srq != null then srq.View() else Pool([], 0);
      var prod := top;
      var nfreed := 0;
      ghost var kept: seq<Slot> := [];
      assert es[|es|..] == [];
      while prod > consIndex
        invariant consIndex == cons <= prod <= top
        invariant kept == Keep(t, es[prod - cons..]) && nfreed == top - prod - |kept|
        invariant Swept(buf[..], ring0, cons, es, kept, prod)
        invariant srq != null ==> srq.Valid() && srq.free == pool.free + Returned(t, es[prod - cons..])
      {
        prod := prod - 1;
        KeepStep(t, es, prod - cons);
        NextReturned(pool, t, es, prod - cons, srq != null);
        var drop := SweepOne(prod, nfreed, t, srq, ring0, cons, es, kept);
        kept := (if drop then [] else [es[prod - cons]]) + kept;
        nfreed := if drop then nfreed + 1 else nfreed;
      }
      assert es[0..] == es && kept == Keep(t, es);
      ghost var ring := buf[..];
      assert Swept(ring, ring0, cons, es, kept, cons);
      consIndex := consIndex + nfreed;
      assert buf[..] == ring;
    }

    /** __mlx5_cq_clean: drop a resource's entries. `p` is what polling would have yielded. */
    method Clean(t: Target, srq: SharedReceiveQueue?, mp: IsMpRq, ghost p: seq<Slot>)
      requires buf.Length > 0 && Fits(buf[..], consIndex, buf.Length, consIndex + buf.Length, mp)
      requires p == Pending(buf[..], consIndex, buf.Length, mp)
      requires srq != null ==> srq.Valid() && Freeable(srq.View(), Returned(t, p[..Looked(|p|, buf.Length)]))
      modifies this`consIndex, buf
      modifies if srq != null then {srq, srq.next} else {}
      ensures Cleaned(old(buf[..]), old(consIndex), mp, t, buf[..], consIndex)
      ensures srq != null ==> srq.Valid() && srq.free == old(srq.free) + Returned(t, p[..Looked(|p|, buf.Length)])
    {
      ghost var ring, cons, k := buf[..], consIndex, Looked(|p|, buf.Length);
      ScannedRing(ring, cons, mp, k);
      var prod := Scan(mp);
      Sweep(prod, t, srq, p[..k]);
      SweptIsCleaned(old(buf[..]), old(consIndex), mp, t, buf[..], consIndex, p, k, Keep(t, p[..k]));
    }

    /** One entry copied to index `i` of the new ring, with the owner bit of that index. */
    method CopyTo(dst: array<Slot>, i: nat, e: Slot, ghost blank: seq<Slot>, ghost cons: nat, ghost es: seq<Slot>)
      requires dst.Length == |blank| > 0 && i == cons + 1 + |es| && dst[..] == Copied(blank, cons, es)
      modifies dst
      ensures dst[..] == Copied(blank, cons, es + [e])
    {
      ghost var ring := dst[..];
      ghost var e' := e.(owner := Parity(i, dst.Length));
      CopyStep(blank, cons, es, e, e');
      dst[Pos(i, dst.Length)] := e.(owner := Parity(i, dst.Length));
      assert dst[..] == ring[Pos(i, dst.Length) := e'];
    }

    /** mlx5_cq_resize_copy_cqes: copy entries up to the marker into `dst`, each one index
        further on; the marker's own index is consumed. It gives up at an entry that is still
        hardware's, leaving what it has copied. */
    method ResizeCopy(dst: array<Slot>) returns (ok: bool, ghost k: nat)
      requires buf.Length > 0 && dst.Length > 0 && dst != buf
      modifies this`consIndex, dst
      ensures StopsAt(buf[..], old(consIndex), k, ok) && (!ok ==> NeverMarked(buf[..], old(consIndex)))
      ensures dst[..] == Copied(old(dst[..]), old(consIndex), Before(buf[..], old(consIndex), k))
      ensures consIndex == old(consIndex) + if ok then 1 else 0
    {
      ghost var ring, blank, cons := buf[..], dst[..], consIndex;
      var i := consIndex;
      var scqe := buf[Pos(i, buf.Length)];
      assert scqe == Title(ring, i);
      if scqe.owner != Parity(i, buf.Length) {
        NotMarked(ring, cons, 0);
        return false, 0;
      }
      while scqe.opcode != RESIZE_CQ
        invariant buf[..] == ring && consIndex == cons && Reached(ring, cons, i) && scqe == Title(ring, i)
        invariant dst[..] == Copied(blank, cons, Before(ring, cons, i - cons))
        decreases cons + |ring| - i
      {
        CopyTo(dst, i + 1, scqe, blank, cons, Before(ring, cons, i - cons));
        BeforeStep(ring, cons, i);
        i := i + 1;
        scqe := buf[Pos(i, buf.Length)];
        assert scqe == Title(ring, i);
        if scqe.owner != Parity(i, buf.Length) {
          ReachedEnds(ring, cons, i);
          return false, i - cons;
        }
        // Back at the start the owner bit no longer fits, so the check for having gone
        // round never fires.
        ReachedNext(ring, cons, i);
        if Pos(i, buf.Length) == Pos(consIndex, buf.Length) {
          assert false;
        }
      }
      consIndex := consIndex + 1;
      assert buf[..] == ring;
      return true, i - cons;
    }

    /** mlx5_resize_cq, from the point where the new buffer is to be allocated: the queue
        switches to a ring of `newSize` slots, whether or not the copy succeeds. A copy that gave up
        leaves nothing to poll. Hardware having put its marker `hw` entries on, polling in full, with
        any `fuel` that is enough, yields what was pending up to it exactly when `AllKept` says so: the
        copy did not give up, the entries fit, and nothing it changed or left behind matters. */
    method Resize(newSize: nat, ghost hw: nat, ghost fuel: nat, ghost mp: IsMpRq) returns (ok: bool, ghost k: nat)
      requires buf.Length > 0 && newSize > 0
      modifies this
      ensures fresh(buf) && buf.Length == newSize && consIndex == old(consIndex) + if ok then 1 else 0
      ensures StopsAt(old(buf[..]), old(consIndex), k, ok) && (!ok ==> NeverMarked(old(buf[..]), old(consIndex)))
      ensures buf[..] == Copied(seq(newSize, _ => InvalidSlot()), old(consIndex),
                                Before(old(buf[..]), old(consIndex), k))
      ensures ResizeExact(old(buf[..]), old(consIndex), k, ok, hw, buf[..], consIndex, fuel, mp)
    {
      ghost var ring, cons := buf[..], consIndex;
      var dst := new Slot[newSize](_ => InvalidSlot());
      ghost var blank := dst[..];
      assert blank == seq(newSize, _ => InvalidSlot()) && buf[..] == ring;
      ok, k := ResizeCopy(dst);
      assert buf[..] == ring;
      ghost var moved := dst[..];
      MovedReads(blank, ring, cons, k, ok, hw, moved, consIndex, fuel, mp);
      buf := dst;
      assert buf[..] == moved;
    }

    /** get_next_cqe, the decompression and the index update of mlx5_poll_one. */
    method PollOne(mp: IsMpRq) returns (got: bool, e: Slot)
      requires buf.Length > 0
      requires Accept(buf[..], consIndex) && IsSession(buf[..], consIndex) ==> Count(buf[..], consIndex) <= buf.Length
      modifies this`consIndex, buf
      ensures got == Accept(old(buf[..]), old(consIndex))
      ensures !got ==> buf[..] == old(buf[..]) && consIndex == old(consIndex)
      ensures got ==> consIndex == old(consIndex) + 1
      ensures got ==> forall fuel: nat ::
                Pending(old(buf[..]), old(consIndex), fuel + 1, mp) == [e] + Pending(buf[..], consIndex, fuel, mp)
    {
      var k := Pos(consIndex, buf.Length);
      e := buf[k];
      if e.opcode == INVALID || e.owner != Parity(consIndex, buf.Length) {
        return false, e;
      }
      ghost var ring, cons := buf[..], consIndex;
      PrepareAt(consIndex, mp);
      ghost var ring' := buf[..];
      e := buf[k];
      consIndex := consIndex + 1;
      assert buf[..] == ring';
      return true, e;
    }
  }

  /** The receive entry the sweep meets next is still outstanding. */
  lemma NextReturned(pool: Pool, t: Target, es: seq<Slot>, k: nat, active: bool)
    requires k < |es| && (active ==> Freeable(pool, Returned(t, es)))
    ensures active && Matches(t, es[k]) && ReturnsWqe(t, es[k]) ==>
              es[k].wqeCounter in Posted(pool.max, pool.free + Returned(t, es[k + 1..]))
  {
    if active && Matches(t, es[k]) && ReturnsWqe(t, es[k]) {
      KeepStep(t, es, k);
      ReturnedPrefix(t, es, k);
      var n := |Returned(t, es[k + 1..])|;
      FreeableNext(pool, Returned(t, es), n);
      assert Returned(t, es)[..n] == Returned(t, es[k + 1..]);
    }
  }
}
