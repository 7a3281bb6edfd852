/** What a batch of MICA operations relies on while it works through entries it looked up
    before its first write (mica/mica.c:195-265). */
module MicaBatch {

  import opened IndexMath
  import opened MicaLog
  import opened MicaIndex
  import opened MicaStore

  /** `ptrs[i]` is the virtual offset of the entry looked up for `ops[i]`, or -1. An entry with
      the operation's key holds the last value put for it. */
  ghost predicate Pins(ops: seq<Op>, ptrs: seq<int>, index: seq<seq<Slot>>, vlog: seq<nat>, starts: set<nat>,
                       last: map<Key, seq<nat>>)
  {
    && |ptrs| == |ops|
    && (forall i: nat {:trigger ptrs[i]} :: i < |ptrs| && ptrs[i] >= 0 ==>
          && ptrs[i] in starts
          && (KeyAt(vlog, ptrs[i]) == ops[i].key ==> Pinned(index, vlog, starts, last, ptrs[i], ops[i].key)))
    && (forall i: nat, j: nat {:trigger ptrs[i], ptrs[j]} :: i < |ptrs| && j < |ptrs| && ops[i].key == ops[j].key ==>
          ptrs[i] == ptrs[j])
  }

  /** The entries looked up keep their keys and their lengths. */
  ghost predicate Stable(ptrs: seq<int>, vlog: seq<nat>, vlog': seq<nat>) {
    forall i: nat {:trigger ptrs[i]} :: i < |ptrs| && ptrs[i] >= 0 ==>
      KeyAt(vlog', ptrs[i]) == KeyAt(vlog, ptrs[i]) && Len(vlog', ptrs[i]) == Len(vlog, ptrs[i])
  }

  ghost predicate Matches(op: Op, ptr: int, vlog: seq<nat>) {
    ptr >= 0 && KeyAt(vlog, ptr) == op.key
  }

  datatype Resp = PutSuccess | GetSuccess(at: nat, len: nat) | GetFail

  /** The response to an operation: for a GET that found its key, where the value is. */
  ghost function Answer(op: Op, ptr: int, vlog: seq<nat>, cap: nat): Resp
    requires cap > 0
  {
    if op.opcode != OP_GET then PutSuccess
    else if Matches(op, ptr, vlog) then GetSuccess(Pos(ptr, cap) + HEADER_BYTES, Len(vlog, ptr) - HEADER_BYTES)
    else GetFail
  }

  /** Looking up every key of the batch. */
  lemma LookupsPin(ops: seq<Op>, ptrs: seq<int>, index: seq<seq<Slot>>, vlog: seq<nat>, starts: set<nat>,
                   last: map<Key, seq<nat>>, cap: nat)
    requires IndexOk(index, vlog, starts, last) && |ptrs| == |ops|
    requires forall i: nat {:trigger ptrs[i]} :: i < |ops| ==>
               |ops[i].key| == KEY_BYTES && ptrs[i] == Lookup(index, |vlog|, cap, ops[i].key)
    ensures Pins(ops, ptrs, index, vlog, starts, last)
  {
    forall i: nat | i < |ptrs| && ptrs[i] >= 0
      ensures ptrs[i] in starts && (KeyAt(vlog, ptrs[i]) == ops[i].key ==>
                                      Pinned(index, vlog, starts, last, ptrs[i], ops[i].key))
    {
      LookupPins(index, vlog, starts, last, cap, ops[i].key);
    }
  }

  /** An insert for an operation that found nothing leaves the other lookups good. */
  lemma InsertKeepsPins(ops: seq<Op>, ptrs: seq<int>, index: seq<seq<Slot>>, vlog: seq<nat>, vlog': seq<nat>,
                        starts: set<nat>, last: map<Key, seq<nat>>, cap: nat, i: nat)
    requires IndexOk(index, vlog, starts, last) && EntriesOk(vlog, starts, cap)
    requires Pins(ops, ptrs, index, vlog, starts, last) && i < |ops| && OpOk(ops[i]) && !Matches(ops[i], ptrs[i], vlog)
    requires vlog <= vlog' && KeyAt(vlog', |vlog|) == ops[i].key && |index[Bkt(ops[i].key, |index|)]| == SLOTS
    ensures Stable(ptrs, vlog, vlog')
    ensures Pins(ops, ptrs, Indexed(index, ops[i].key, |vlog|), vlog', starts + {|vlog|},
                 last[ops[i].key := ops[i].value])
  {
    forall j: nat | j < |ptrs| && ptrs[j] >= 0
      ensures KeyAt(vlog', ptrs[j]) == KeyAt(vlog, ptrs[j]) && Len(vlog', ptrs[j]) == Len(vlog, ptrs[j])
      ensures KeyAt(vlog', ptrs[j]) == ops[j].key ==>
                Pinned(Indexed(index, ops[i].key, |vlog|), vlog', starts + {|vlog|}, last[ops[i].key := ops[i].value],
                       ptrs[j], ops[j].key)
    {
      GrowKeepsEntry(vlog, vlog', ptrs[j], cap);
      if KeyAt(vlog, ptrs[j]) == ops[j].key {
        assert ops[j].key != ops[i].key by { assert ptrs[i] == ptrs[i]; }
        InsertKeepsPin(index, vlog, vlog', starts, cap, last, ops[i].key, ops[i].value, ptrs[j], ops[j].key);
      }
    }
  }

  /** So does an update in place of the entry an operation found. */
  lemma UpdateKeepsPins(ops: seq<Op>, ptrs: seq<int>, index: seq<seq<Slot>>, vlog: seq<nat>, vlog': seq<nat>,
                        starts: set<nat>, last: map<Key, seq<nat>>, cap: nat, i: nat)
    requires IndexOk(index, vlog, starts, last) && EntriesOk(vlog, starts, cap)
    requires Pins(ops, ptrs, index, vlog, starts, last) && i < |ops| && Matches(ops[i], ptrs[i], vlog)
    requires HEADER_BYTES + |ops[i].value| == Len(vlog, ptrs[i])
    requires Copied(vlog, ptrs[i] + HEADER_BYTES, ops[i].value, vlog')
    ensures Stable(ptrs, vlog, vlog')
    ensures Pins(ops, ptrs, index, vlog', starts, last[ops[i].key := ops[i].value])
  {
    var o, key, value := ptrs[i], ops[i].key, ops[i].value;
    forall j: nat | j < |ptrs| && ptrs[j] >= 0
      ensures KeyAt(vlog', ptrs[j]) == KeyAt(vlog, ptrs[j]) && Len(vlog', ptrs[j]) == Len(vlog, ptrs[j])
      ensures KeyAt(vlog', ptrs[j]) == ops[j].key ==>
                Pinned(index, vlog', starts, last[key := value], ptrs[j], ops[j].key)
    {
      UpdateKeepsEntry(vlog, vlog', starts, cap, o, value, ptrs[j]);
      if KeyAt(vlog, ptrs[j]) == ops[j].key {
        UpdateKeepsPin(index, vlog, vlog', starts, cap, last, o, key, value, ptrs[j], ops[j].key);
      }
    }
  }

  /** An update in place keeps the store in order. */
  lemma UpdateKeepsStore(log: seq<nat>, index: seq<seq<Slot>>, vlog: seq<nat>, starts: set<nat>,
                         last: map<Key, seq<nat>>, o: nat, key: Key, value: seq<nat>, log': seq<nat>, vlog': seq<nat>)
    requires StoreOk(log, index, vlog, starts, last) && Pinned(index, vlog, starts, last, o, key)
    requires |vlog| <= o + |log| && HEADER_BYTES + |value| == Len(vlog, o)
    requires Copied(log, Pos(o, |log|) + HEADER_BYTES, value, log')
    requires Copied(vlog, o + HEADER_BYTES, value, vlog')
    ensures StoreOk(log', index, vlog', starts, last[key := value])
  {
    assert EntryAt(vlog, o, |log|);
    if value == [] {
      assert log' == log && vlog' == vlog;
    } else {
      PosAdd(o, HEADER_BYTES, |log|);
      UpdateMirrors(log, vlog, o + HEADER_BYTES, value, log', vlog');
    }
    UpdateKeepsEntries(vlog, vlog', starts, |log|, o, value);
    UpdateKeepsIndex(index, vlog, vlog', starts, |log|, last, o, key, value);
  }

  /** The memory of an entry the head has not lapped reads as the entry. */
  lemma KeyInMemory(log: seq<nat>, vlog: seq<nat>, o: nat)
    requires Mirrors(log, vlog) && EntryAt(vlog, o, |log|) && |vlog| <= o + |log|
    ensures Pos(o, |log|) + Len(vlog, o) <= |log|
    ensures log[Pos(o, |log|)..Pos(o, |log|) + KEY_BYTES] == KeyAt(vlog, o)
  {
    SliceMirrored(log, vlog, o, 0, KEY_BYTES);
  }

  lemma LenInMemory(log: seq<nat>, vlog: seq<nat>, o: nat)
    requires Mirrors(log, vlog) && EntryAt(vlog, o, |log|) && |vlog| <= o + |log|
    ensures Pos(o, |log|) + Len(vlog, o) <= |log|
    ensures HEADER_BYTES + log[Pos(o, |log|) + LEN_AT] == Len(vlog, o)
  {
    ByteMirrored(log, vlog, o, LEN_AT);
  }

  lemma ValueInMemory(log: seq<nat>, vlog: seq<nat>, o: nat)
    requires Mirrors(log, vlog) && EntryAt(vlog, o, |log|) && |vlog| <= o + |log|
    ensures Pos(o, |log|) + Len(vlog, o) <= |log|
    ensures log[Pos(o, |log|) + HEADER_BYTES..Pos(o, |log|) + Len(vlog, o)] == ValueAt(vlog, o)
  {
    SliceMirrored(log, vlog, o, HEADER_BYTES, Len(vlog, o));
  }

  /** Where a response points, the last value put for its key can be read. */
  ghost predicate Shows(resp: Resp, key: Key, log: seq<nat>, last: map<Key, seq<nat>>) {
    resp.GetSuccess? ==>
      key in last && resp.at + resp.len <= |log| && log[resp.at..resp.at + resp.len] == last[key]
  }

  lemma AnswerShows(ops: seq<Op>, ptrs: seq<int>, i: nat, log: seq<nat>, index: seq<seq<Slot>>, vlog: seq<nat>,
                    starts: set<nat>, last: map<Key, seq<nat>>)
    requires StoreOk(log, index, vlog, starts, last) && Pins(ops, ptrs, index, vlog, starts, last)
    requires i < |ops| && (ptrs[i] >= 0 ==> |vlog| <= ptrs[i] + |log|)
    ensures Shows(Answer(ops[i], ptrs[i], vlog, |log|), ops[i].key, log, last)
  {
    if Matches(ops[i], ptrs[i], vlog) {
      assert EntryAt(vlog, ptrs[i], |log|);
      ValueInMemory(log, vlog, ptrs[i]);
    }
  }

  lemma StableAnswer(op: Op, ptrs: seq<int>, i: nat, vlog: seq<nat>, vlog': seq<nat>, cap: nat)
    requires Stable(ptrs, vlog, vlog') && i < |ptrs| && cap > 0
    ensures Answer(op, ptrs[i], vlog', cap) == Answer(op, ptrs[i], vlog, cap)
  {
  }

  /** How far a batch has come, from `vlog0` and `last0`. */
  ghost predicate Progress(ops: seq<Op>, ptrs: seq<int>, resps: seq<Resp>, cap: nat,
                           vlog0: seq<nat>, last0: map<Key, seq<nat>>, vlog: seq<nat>, last: map<Key, seq<nat>>)
  {
    && cap > 0 && |resps| <= |ops| == |ptrs| && Stable(ptrs, vlog0, vlog)
    && last == Apply(ops[..|resps|], last0)
    && forall i: nat {:trigger resps[i]} :: i < |resps| ==> resps[i] == Answer(ops[i], ptrs[i], vlog0, cap)
  }

  lemma ProgressStep(ops: seq<Op>, ptrs: seq<int>, resps: seq<Resp>, cap: nat,
                     vlog0: seq<nat>, last0: map<Key, seq<nat>>, vlog: seq<nat>, last: map<Key, seq<nat>>,
                     resp: Resp, vlog': seq<nat>, last': map<Key, seq<nat>>)
    requires Progress(ops, ptrs, resps, cap, vlog0, last0, vlog, last) && |resps| < |ops|
    requires Stable(ptrs, vlog, vlog') && last' == ApplyOne(ops[|resps|], last)
    requires resp == Answer(ops[|resps|], ptrs[|resps|], vlog, cap)
    ensures Progress(ops, ptrs, resps + [resp], cap, vlog0, last0, vlog', last')
    ensures Puts(ops[..|resps| + 1]) == Puts(ops[..|resps|]) + if ops[|resps|].opcode == OP_GET then 0 else 1
  {
    var i := |resps|;
    StableAnswer(ops[i], ptrs, i, vlog0, vlog, cap);
    assert ops[..i + 1][..i] == ops[..i];
  }

  lemma ProgressShows(ops: seq<Op>, ptrs: seq<int>, resps: seq<Resp>, vlog0: seq<nat>, last0: map<Key, seq<nat>>,
                      log: seq<nat>, index: seq<seq<Slot>>, vlog: seq<nat>, starts: set<nat>, last: map<Key, seq<nat>>)
    requires StoreOk(log, index, vlog, starts, last) && Pins(ops, ptrs, index, vlog, starts, last)
    requires Progress(ops, ptrs, resps, |log|, vlog0, last0, vlog, last)
    ensures forall i: nat {:trigger resps[i]} :: i < |resps| && |vlog| <= ptrs[i] + |log| ==>
              Shows(resps[i], ops[i].key, log, last)
  {
    forall i: nat | i < |resps| && |vlog| <= ptrs[i] + |log| ensures Shows(resps[i], ops[i].key, log, last) {
      StableAnswer(ops[i], ptrs, i, vlog0, vlog, |log|);
      AnswerShows(ops, ptrs, i, log, index, vlog, starts, last);
    }
  }
}
