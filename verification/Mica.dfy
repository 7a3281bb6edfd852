/** The MICA key-value store (mica/mica.c:78-265), updated in place. */
module Mica {

  import opened IndexMath
  import opened MicaLog
  import opened MicaIndex
  import opened MicaStore
  import opened MicaBatch

  /** How an operation ends that found entry `ptr`, or -1, when its batch looked its key up. */
  ghost function OpEnd(op: Op, ptr: int, vlog: seq<nat>, cap: nat): End
    requires cap > 0
  {
    if ptr >= 0 && |vlog| > ptr + cap then Lapped
    else if op.opcode == OP_GET then Done
    else if !Matches(op, ptr, vlog) then InsertEnd(|vlog|, HEADER_BYTES + |op.value|, cap)
    else if HEADER_BYTES + |op.value| != Len(vlog, ptr) then WrongLength
    else Done
  }

  class Store {
    const log: array<nat>
    const index: array<seq<Slot>>
    var logHead: nat
    var numGetOp: nat
    var numGetFail: nat
    var numPutOp: nat
    var numIndexEvictions: nat

    ghost var vlog: seq<nat>
    ghost var starts: set<nat>
    ghost var last: map<Key, seq<nat>>

    ghost predicate Valid()
      reads this, log, index
    {
      logHead == |vlog| && StoreOk(log[..], index[..], vlog, starts, last)
    }

    /** Whether a lookup finds the key. */
    ghost predicate Holds(key: Key)
      requires |key| == KEY_BYTES && index.Length > 0
      reads this, log, index
    {
      var o := Lookup(index[..], logHead, log.Length, key);
      o >= 0 && KeyAt(vlog, o) == key
    }

    constructor (numBkts: nat, cap: nat)
      requires numBkts > 0 && CapOk(cap)
      ensures Valid() && fresh(log) && fresh(index) && log.Length == cap && index.Length == numBkts
      ensures logHead == 0 && last == map[]
    {
      log := new nat[cap](_ => 0);
      index := new seq<Slot>[numBkts](_ => seq(SLOTS, _ => Slot(false, 0, 0)));
      logHead, numGetOp, numGetFail, numPutOp, numIndexEvictions := 0, 0, 0, 0, 0;
      vlog, starts, last := [], {}, map[];
    }

    /** memcpy into the log. */
    method CopyIn(at: nat, bytes: seq<nat>)
      requires at + |bytes| <= log.Length
      modifies log
      ensures Copied(old(log[..]), at, bytes, log[..])
    {
      for i := 0 to |bytes|
        invariant forall k :: 0 <= k < log.Length ==>
          log[k] == if at <= k < at + i then bytes[k - at] else old(log[k])
      {
        log[at + i] := bytes[i];
      }
    }

    method ChooseSlot(slots: seq<Slot>, tag: nat) returns (slot: nat, evicts: bool)
      requires |slots| == SLOTS
      ensures slot == SlotToUse(slots, tag) && evicts == (LastUsable(slots, tag, SLOTS) < 0)
    {
      var found := -1;
      for i := 0 to SLOTS
        invariant found == LastUsable(slots, tag, i)
      {
        if slots[i].tag == tag || !slots[i].inUse { found := i; }
      }
      evicts := found == -1;
      slot := if found == -1 then tag % SLOTS else found;
    }

    /** The writes of an insert: the slot, the entry and the head. */
    method WriteEntry(op: Op) returns (evicts: bool)
      requires CapOk(log.Length) && OpOk(op) && index.Length > 0 && |index[Bkt(op.key, index.Length)]| == SLOTS
      requires Pos(logHead, log.Length) + HEADER_BYTES + |op.value| <= log.Length
      modifies log, index, `logHead
      ensures Copied(old(log[..]), Pos(old(logHead), log.Length), Encode(op.key, op.opcode, op.value), log[..])
      ensures index[..] == Indexed(old(index[..]), op.key, old(logHead))
      ensures logHead == NextHead(old(logHead), HEADER_BYTES + |op.value|, log.Length)
      ensures evicts == (LastUsable(old(index[..])[Bkt(op.key, index.Length)], Tag(op.key), SLOTS) < 0)
    {
      var bkt, tag := Bkt(op.key, index.Length), Tag(op.key);
      var slot;
      slot, evicts := ChooseSlot(index[bkt], tag);
      index[bkt] := index[bkt][slot := Slot(true, tag, logHead)];
      CopyIn(Pos(logHead, log.Length), Encode(op.key, op.opcode, op.value));
      logHead := NextHead(logHead, HEADER_BYTES + |op.value|, log.Length);
    }

    /** An insert that finds room, apart from the statistics. */
    method Insert(op: Op) returns (evicts: bool)
      requires Valid() && OpOk(op) && InsertEnd(logHead, HEADER_BYTES + |op.value|, log.Length) == Done
      modifies log, index, `logHead, `vlog, `starts, `last
      ensures Valid() && Holds(op.key)
      ensures last == old(last)[op.key := op.value] && starts == old(starts) + {old(logHead)}
      ensures old(vlog) <= vlog && KeyAt(vlog, old(logHead)) == op.key && ValueAt(vlog, old(logHead)) == op.value
      ensures |old(index[..])[Bkt(op.key, index.Length)]| == SLOTS
      ensures index[..] == Indexed(old(index[..]), op.key, old(logHead))
      ensures logHead == NextHead(old(logHead), HEADER_BYTES + |op.value|, log.Length)
      ensures old(logHead) < logHead <= old(logHead) + 150
      ensures evicts == (LastUsable(old(index[..])[Bkt(op.key, index.Length)], Tag(op.key), SLOTS) < 0)
    {
      ghost var log0, index0, vlog0 := log[..], index[..], vlog;
      assert BucketOk(index0[Bkt(op.key, index.Length)]);
      evicts := WriteEntry(op);
      vlog := Grow(log[..], vlog0, logHead);
      InsertKeepsStore(log0, index0, vlog0, starts, last, op, log[..], vlog);
      starts, last := starts + {|vlog0|}, last[op.key := op.value];
    }

    /** mica_insert_one. */
    method InsertOne(op: Op) returns (end: End)
      requires Valid() && OpOk(op)
      modifies this, log, index
      ensures Valid() && end == InsertEnd(old(logHead), HEADER_BYTES + |op.value|, log.Length)
      ensures end != Done ==> unchanged(this) && unchanged(log) && unchanged(index)
      ensures end == Done ==>
        && last == old(last)[op.key := op.value] && starts == old(starts) + {old(logHead)}
        && old(vlog) <= vlog && KeyAt(vlog, old(logHead)) == op.key && ValueAt(vlog, old(logHead)) == op.value
        && |old(index[..])[Bkt(op.key, index.Length)]| == SLOTS
        && index[..] == Indexed(old(index[..]), op.key, old(logHead))
        && logHead == NextHead(old(logHead), HEADER_BYTES + |op.value|, log.Length)
        && old(logHead) < logHead <= old(logHead) + 150
        && numPutOp == old(numPutOp) + 1 && numGetOp == old(numGetOp) && numGetFail == old(numGetFail)
        && numIndexEvictions == old(numIndexEvictions)
           + (if FullWithout(old(index[..])[Bkt(op.key, index.Length)], Tag(op.key)) then 1 else 0)
        && (exists j: nat :: OneSlotChanged(old(index[..]), index[..], op.key, old(logHead), j))
        && Holds(op.key)
    {
      var len := HEADER_BYTES + |op.value|;
      if VIRTUAL_BYTES - logHead <= len + 8 { return LogFull; }
      if Pos(logHead, log.Length) + len > log.Length { return PastEnd; }
      ghost var index0 := index[..];
      assert BucketOk(index0[Bkt(op.key, index.Length)]);
      ghost var j := InsertChangesOne(index0, op.key, logHead);
      ChosenBelongs(index0[Bkt(op.key, index.Length)], Tag(op.key));
      var evicts := Insert(op);
      numPutOp := numPutOp + 1;
      if evicts { numIndexEvictions := numIndexEvictions + 1; }
      return Done;
    }

    /** The lookup of one key, before the batch writes anything. */
    method FindEntry(key: Key) returns (ptr: int)
      requires |key| == KEY_BYTES && index.Length > 0 && |index[Bkt(key, index.Length)]| == SLOTS
      ensures ptr == Lookup(index[..], logHead, log.Length, key)
    {
      var slots, tag := index[Bkt(key, index.Length)], Tag(key);
      for j := 0 to SLOTS
        invariant Find(slots, tag, 0) == Find(slots, tag, j)
      {
        if slots[j].inUse && slots[j].tag == tag {
          return if logHead - slots[j].offset >= log.Length then -1 else slots[j].offset;
        }
      }
      return -1;
    }

    /** A PUT for a key whose entry was found: the value is overwritten where it is. */
    method UpdateInPlace(o: nat, op: Op) returns (end: End)
      requires Valid() && Pinned(index[..], vlog, starts, last, o, op.key) && |vlog| <= o + log.Length
      modifies log, `vlog, `last, `numPutOp
      ensures Valid() && end == if |op.value| == |old(last)[op.key]| then Done else WrongLength
      ensures end != Done ==> unchanged(this) && unchanged(log)
      ensures end == Done ==>
        && last == old(last)[op.key := op.value] && numPutOp == old(numPutOp) + 1
        && HEADER_BYTES + |op.value| == Len(old(vlog), o)
        && Copied(old(vlog), o + HEADER_BYTES, op.value, vlog) && KeyAt(vlog, o) == op.key
    {
      ghost var log0 := log[..];
      assert EntryAt(vlog, o, log.Length);
      LenInMemory(log0, vlog, o);
      var p := Pos(o, log.Length);
      if log[p + LEN_AT] != |op.value| { return WrongLength; }
      CopyIn(p + HEADER_BYTES, op.value);
      ghost var vlog' := Splice(vlog, o + HEADER_BYTES, op.value);
      UpdateKeepsStore(log0, index[..], vlog, starts, last, o, op.key, op.value, log[..], vlog');
      UpdateKeepsEntry(vlog, vlog', starts, log.Length, o, op.value, o);
      vlog, last, numPutOp := vlog', last[op.key := op.value], numPutOp + 1;
      return Done;
    }

    /** Compares the key at an entry found, and says where its value is. */
    method ReadEntry(o: nat, key: Key) returns (stored: bool, at: nat, len: nat)
      requires Valid() && o in starts && |vlog| <= o + log.Length
      ensures stored == (KeyAt(vlog, o) == key)
      ensures at == Pos(o, log.Length) + HEADER_BYTES && HEADER_BYTES + len == Len(vlog, o)
    {
      assert EntryAt(vlog, o, log.Length);
      KeyInMemory(log[..], vlog, o);
      LenInMemory(log[..], vlog, o);
      var p := Pos(o, log.Length);
      stored := log[p..p + KEY_BYTES] == key;
      at, len := p + HEADER_BYTES, log[p + LEN_AT];
    }

    /** A PUT: an update when the lookup found the key, an insert otherwise. */
    method Put(ops: seq<Op>, ptrs: seq<int>, i: nat, stored: bool) returns (end: End)
      requires Valid() && Pins(ops, ptrs, index[..], vlog, starts, last) && i < |ops| && OpOk(ops[i])
      requires stored == Matches(ops[i], ptrs[i], vlog) && (stored ==> |vlog| <= ptrs[i] + log.Length)
      modifies this, log, index
      ensures Valid()
      ensures end == if !stored then InsertEnd(old(logHead), HEADER_BYTES + |ops[i].value|, log.Length)
                     else if HEADER_BYTES + |ops[i].value| != Len(old(vlog), ptrs[i]) then WrongLength
                     else Done
      ensures end != Done ==> unchanged(this) && unchanged(log) && unchanged(index)
      ensures end == Done ==>
        && Pins(ops, ptrs, index[..], vlog, starts, last) && Stable(ptrs, old(vlog), vlog)
        && last == old(last)[ops[i].key := ops[i].value]
        && old(logHead) <= logHead <= old(logHead) + 150
        && numPutOp == old(numPutOp) + 1 && numGetOp == old(numGetOp) && numGetFail == old(numGetFail)
        && (ptrs[i] == Lookup(old(index[..]), old(logHead), log.Length, ops[i].key) ==> Holds(ops[i].key))
    {
      ghost var index0, vlog0, starts0, last0 := index[..], vlog, starts, last;
      if stored {
        end := UpdateInPlace(ptrs[i], ops[i]);
        if end == Done { UpdateKeepsPins(ops, ptrs, index0, vlog0, vlog, starts0, last0, log.Length, i); }
      } else {
        end := InsertOne(ops[i]);
        if end == Done { InsertKeepsPins(ops, ptrs, index0, vlog0, vlog, starts0, last0, log.Length, i); }
      }
    }

    /** One operation of a batch, given the lookups made for all of them. */
    method ProcessOne(ops: seq<Op>, ptrs: seq<int>, i: nat) returns (end: End, resp: Resp)
      requires Valid() && Pins(ops, ptrs, index[..], vlog, starts, last) && i < |ops| && OpOk(ops[i])
      modifies this, log, index
      ensures Valid() && end == OpEnd(ops[i], ptrs[i], old(vlog), log.Length)
      ensures end != Done ==> unchanged(this) && unchanged(log) && unchanged(index)
      ensures end == Done ==>
        && Pins(ops, ptrs, index[..], vlog, starts, last) && Stable(ptrs, old(vlog), vlog)
        && last == ApplyOne(ops[i], old(last)) && resp == Answer(ops[i], ptrs[i], old(vlog), log.Length)
        && old(logHead) <= logHead <= old(logHead) + (if ops[i].opcode == OP_GET then 0 else 150)
        && numGetOp + numGetFail + numPutOp == old(numGetOp + numGetFail + numPutOp) + 1
        && (ops[i].opcode != OP_GET && ptrs[i] == Lookup(old(index[..]), old(logHead), log.Length, ops[i].key) ==>
              Holds(ops[i].key))
    {
      var op, ptr := ops[i], ptrs[i];
      var stored, at, len := false, 0, 0;
      if ptr >= 0 {
        if logHead > ptr + log.Length { return Lapped, GetFail; }
        stored, at, len := ReadEntry(ptr, op.key);
      }
      if op.opcode != OP_GET {
        end := Put(ops, ptrs, i, stored);
        resp := PutSuccess;
      } else if stored {
        numGetOp := numGetOp + 1;
        end, resp := Done, GetSuccess(at, len);
      } else {
        numGetFail := numGetFail + 1;
        end, resp := Done, GetFail;
      }
    }

    /** The lookups of a batch, all made before its first write. */
    method FindAll(ops: seq<Op>) returns (ptrs: seq<int>)
      requires Valid() && OpsOk(ops)
      ensures |ptrs| == |ops| && Pins(ops, ptrs, index[..], vlog, starts, last)
      ensures forall i: nat {:trigger ptrs[i]} :: i < |ops| ==>
        OpOk(ops[i]) && ptrs[i] == Lookup(index[..], logHead, log.Length, ops[i].key)
    {
      ptrs := [];
      for i := 0 to |ops|
        invariant |ptrs| == i
        invariant forall j: nat {:trigger ptrs[j]} :: j < i ==>
          OpOk(ops[j]) && ptrs[j] == Lookup(index[..], logHead, log.Length, ops[j].key)
      {
        assert OpOk(ops[i]);
        ghost var index0 := index[..];
        assert BucketOk(index0[Bkt(ops[i].key, index.Length)]);
        var ptr := FindEntry(ops[i].key);
        ptrs := ptrs + [ptr];
      }
      LookupsPin(ops, ptrs, index[..], vlog, starts, last, log.Length);
    }

    /** The operations of a batch in order, up to the first that does not end well. */
    method ProcessAll(ops: seq<Op>, ptrs: seq<int>) returns (end: End, resps: seq<Resp>)
      requires Valid() && OpsOk(ops) && Pins(ops, ptrs, index[..], vlog, starts, last)
      modifies this, log, index
      ensures Valid() && Pins(ops, ptrs, index[..], vlog, starts, last)
      ensures Progress(ops, ptrs, resps, log.Length, old(vlog), old(last), vlog, last)
      ensures if |resps| == |ops| then end == Done
              else end != Done && end == OpEnd(ops[|resps|], ptrs[|resps|], vlog, log.Length)
      ensures resps == [] ==> vlog == old(vlog)
      ensures resps != [] ==> OpEnd(ops[0], ptrs[0], old(vlog), log.Length) == Done
      ensures old(logHead) <= logHead <= old(logHead) + 150 * Puts(ops[..|resps|])
      ensures numGetOp + numGetFail + numPutOp == old(numGetOp + numGetFail + numPutOp) + |resps|
      ensures end == Done && |ops| == 1 && ops[0].opcode != OP_GET ==>
        OpOk(ops[0]) &&
        (ptrs[0] == Lookup(old(index[..]), old(logHead), log.Length, ops[0].key) ==> Holds(ops[0].key))
    {
      resps := [];
      while |resps| < |ops|
        invariant |resps| <= |ops|
        invariant Valid() && Pins(ops, ptrs, index[..], vlog, starts, last)
        invariant Progress(ops, ptrs, resps, log.Length, old(vlog), old(last), vlog, last)
        invariant old(logHead) <= logHead <= old(logHead) + 150 * Puts(ops[..|resps|])
        invariant |resps| == 0 ==> logHead == old(logHead) && index[..] == old(index[..]) && vlog == old(vlog)
        invariant |resps| > 0 ==> OpEnd(ops[0], ptrs[0], old(vlog), log.Length) == Done
        invariant |ops| == |resps| == 1 && ops[0].opcode != OP_GET ==>
          OpOk(ops[0]) &&
          (ptrs[0] == Lookup(old(index[..]), old(logHead), log.Length, ops[0].key) ==> Holds(ops[0].key))
        invariant numGetOp + numGetFail + numPutOp == old(numGetOp + numGetFail + numPutOp) + |resps|
      {
        ghost var vlog0, last0 := vlog, last;
        var resp;
        end, resp := ProcessOne(ops, ptrs, |resps|);
        if end != Done { break; }
        ProgressStep(ops, ptrs, resps, log.Length, old(vlog), old(last), vlog0, last0, resp, vlog, last);
        resps := resps + [resp];
      }
      if |resps| == |ops| { end := Done; }
    }

    /** mica_batch_op: all the lookups first, then the operations in order. Responses are good
        for the operations processed, and each successful GET of them points, once the batch is
        over, at the last value put for its key, unless the batch itself has lapped the entry. */
    method BatchOp(ops: seq<Op>) returns (end: End, resps: seq<Resp>, ptrs: seq<int>)
      requires Valid() && OpsOk(ops)
      modifies this, log, index
      ensures Valid() && |resps| <= |ptrs| == |ops| && (end == Done <==> |resps| == |ops|)
      ensures forall i: nat {:trigger ptrs[i]} :: i < |ops| ==>
        OpOk(ops[i]) && ptrs[i] == Lookup(old(index[..]), old(logHead), log.Length, ops[i].key)
      ensures last == Apply(ops[..|resps|], old(last))
      ensures forall i: nat {:trigger resps[i]} :: i < |resps| ==>
        resps[i] == Answer(ops[i], ptrs[i], old(vlog), log.Length)
      ensures forall i: nat {:trigger resps[i]} :: i < |resps| && logHead <= ptrs[i] + log.Length ==>
        Shows(resps[i], ops[i].key, log[..], last)
      ensures end != Done ==> end == OpEnd(ops[|resps|], ptrs[|resps|], vlog, log.Length)
      ensures |ops| == 1 ==> end == OpEnd(ops[0], ptrs[0], old(vlog), log.Length)
      ensures old(logHead) <= logHead <= old(logHead) + 150 * Puts(ops[..|resps|])
      ensures numGetOp + numGetFail + numPutOp == old(numGetOp + numGetFail + numPutOp) + |resps|
      ensures end == Done && |ops| == 1 && ops[0].opcode != OP_GET ==> OpOk(ops[0]) && Holds(ops[0].key)
    {
      ptrs := FindAll(ops);
      end, resps := ProcessAll(ops, ptrs);
      ProgressShows(ops, ptrs, resps, old(vlog), old(last), log[..], index[..], vlog, starts, last);
    }

    /** A GET that follows a PUT of its key succeeds with the value put, whatever the PUT had to
        overwrite or evict and wherever it wrapped. */
    method PutThenGet(put: Op, get: Op) returns (end: End, resp: Resp)
      requires Valid() && OpOk(put) && OpOk(get) && put.opcode != OP_GET && get.opcode == OP_GET && get.key == put.key
      modifies this, log, index
      ensures Valid() && (end == Done ==> resp.GetSuccess? && resp.at + resp.len <= log.Length)
      ensures end == Done ==> log[resp.at..resp.at + resp.len] == put.value && last == old(last)[put.key := put.value]
      ensures end == OpEnd(put, Lookup(old(index[..]), old(logHead), log.Length, put.key), old(vlog), log.Length)
      ensures end == LogFull || end == PastEnd ==>
        end == InsertEnd(old(logHead), HEADER_BYTES + |put.value|, log.Length)
      ensures end != Lapped
    {
      ghost var last0 := last;
      var resps, ptrs;
      end, resps, ptrs := BatchOp([put]);
      if end != Done { return end, GetFail; }
      ApplySingle(put, last0);
      ApplySingle(get, last);
      end, resps, ptrs := BatchOp([get]);
      resp := resps[0];
    }
  }
}
