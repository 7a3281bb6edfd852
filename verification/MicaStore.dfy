/** What the MICA store keeps between its index, its log and the last value put for each key. */
module MicaStore {

  import opened IndexMath
  import opened MicaLog
  import opened MicaIndex

  const OP_GET := 111
  const OP_PUT := 112

  datatype Op = Op(key: Key, opcode: nat, value: seq<nat>)

  predicate OpOk(op: Op) {
    |op.key| == KEY_BYTES && |op.value| <= MAX_VALUE
  }

  predicate OpsOk(ops: seq<Op>) {
    forall i: nat {:trigger ops[i]} :: i < |ops| ==> OpOk(ops[i])
  }

  /** The last value put for each key, after some operations. */
  ghost function Apply(ops: seq<Op>, last: map<Key, seq<nat>>): map<Key, seq<nat>> {
    if ops == [] then last
    else
      var n := |ops| - 1;
      ApplyOne(ops[n], Apply(ops[..n], last))
  }

  ghost function ApplyOne(op: Op, last: map<Key, seq<nat>>): map<Key, seq<nat>> {
    if op.opcode == OP_GET then last else last[op.key := op.value]
  }

  ghost function Puts(ops: seq<Op>): nat {
    if ops == [] then 0
    else Puts(ops[..|ops| - 1]) + (if ops[|ops| - 1].opcode == OP_GET then 0 else 1)
  }

  lemma ApplySingle(op: Op, last: map<Key, seq<nat>>)
    ensures Apply([op][..1], last) == ApplyOne(op, last)
    ensures Puts([op][..1]) == if op.opcode == OP_GET then 0 else 1
  {
    assert [op][..1][..0] == [];
  }

  // ---------------------------------------------------------------------------
  // The head of the log
  // ---------------------------------------------------------------------------

  const WRAP64 := 0x1_0000_0000_0000_0000
  const VIRTUAL_BYTES := 0x100_0000_0000
  const NEAR_END := MAX_VALUE + 32

  /** The head after an entry of `len` bytes: rounded up to eight bytes, and moved to the next
      lap when the unsigned distance from the head to the capacity is small. */
  function NextHead(head: nat, len: nat, cap: nat): (r: nat)
    requires cap > 0
  {
    var h := (head + len + 7) / 8 * 8;
    if (cap - h) % WRAP64 <= NEAR_END then h + cap - Pos(h + cap, cap) else h
  }

  /** How a call ends. Beyond `Done` the program aborts on an assertion, copies past the end of
      the log, or reads an entry that its own batch has overwritten; the model stops there. */
  datatype End = Done | LogFull | PastEnd | WrongLength | Lapped

  /** How an insert of an entry of `len` bytes ends. */
  function InsertEnd(head: nat, len: nat, cap: nat): End
    requires cap > 0
  {
    if VIRTUAL_BYTES - head <= len + 8 then LogFull
    else if Pos(head, cap) + len > cap then PastEnd
    else Done
  }

  predicate CapOk(cap: nat) {
    0x100 <= cap <= 0x4000_0000 && cap % 8 == 0
  }

  predicate HeadOk(head: nat, cap: nat) {
    head % 8 == 0 && (head < cap ==> head + NEAR_END + 2 <= cap)
  }

  /** Where the head goes: to the next multiple of 8, or to the end of the log when fewer than 79 bytes
      would be left before it. Past the first lap it no longer does that. */
  lemma NextHeadIs(head: nat, len: nat, cap: nat, h: nat)
    requires CapOk(cap) && head + len <= h < head + len + 8 && h % 8 == 0 && h < 0x100_0000_0000
    ensures NextHead(head, len, cap) ==
            if h < cap then (if h + 78 < cap then h else cap) else if h == cap then 2 * cap else h
  {
    if h > cap {
      assert (cap - h) % WRAP64 == cap - h + WRAP64;
    } else if h < cap {
      assert Pos(h + cap, cap) == h;
    } else {
      assert Pos(h, cap) == 0 && Pos(h + cap, cap) == 0;
    }
  }

  lemma NextHeadOk(head: nat, len: nat, cap: nat)
    requires CapOk(cap) && HeadOk(head, cap) && 0 < len <= HEADER_BYTES + MAX_VALUE
    requires head + len + 8 < VIRTUAL_BYTES
    ensures HeadOk(NextHead(head, len, cap), cap)
    ensures head + len <= NextHead(head, len, cap) <= head + len + 7 + NEAR_END
    ensures head >= cap ==> NextHead(head, len, cap) <= head + len + 7
  {
    var h := (head + len + 7) / 8 * 8;
    assert head + len <= h <= head + len + 7;
    if h > cap {
      assert (cap - h) % WRAP64 == cap - h + WRAP64;
    } else {
      assert (cap - h) % WRAP64 == cap - h;
      assert h < cap && Pos(h + cap, cap) == h;
    }
  }

  /** On the first lap every entry fits. */
  lemma FirstLapFits(head: nat, len: nat, cap: nat)
    requires CapOk(cap) && HeadOk(head, cap) && head < cap && len <= HEADER_BYTES + MAX_VALUE
    ensures Pos(head, cap) + len <= cap
  {
  }

  // ---------------------------------------------------------------------------
  // Index and log
  // ---------------------------------------------------------------------------

  /** A slot in use names an entry whose key has the slot's bucket and tag, and whose value is
      the last one put for that key. */
  ghost predicate SlotOk(s: Slot, b: nat, numBkts: nat, vlog: seq<nat>, starts: set<nat>, last: map<Key, seq<nat>>)
    requires numBkts > 0
  {
    && s.offset in starts
    && var key := KeyAt(vlog, s.offset);
       && |key| == KEY_BYTES && Bkt(key, numBkts) == b && Tag(key) == s.tag
       && key in last && ValueAt(vlog, s.offset) == last[key]
  }

  ghost predicate IndexOk(index: seq<seq<Slot>>, vlog: seq<nat>, starts: set<nat>, last: map<Key, seq<nat>>) {
    && |index| > 0
    && forall b: nat {:trigger index[b]} :: b < |index| ==>
         && BucketOk(index[b])
         && forall j: nat {:trigger index[b][j]} :: j < SLOTS && index[b][j].inUse ==>
              SlotOk(index[b][j], b, |index|, vlog, starts, last)
  }

  /** Entry `o` holds the last value put for `key`, and no slot names another entry for it. */
  ghost predicate Pinned(index: seq<seq<Slot>>, vlog: seq<nat>, starts: set<nat>, last: map<Key, seq<nat>>,
                         o: nat, key: Key)
  {
    && o in starts && KeyAt(vlog, o) == key && key in last && ValueAt(vlog, o) == last[key]
    && forall b: nat, j: nat {:trigger index[b][j]} :: b < |index| && j < |index[b]| && index[b][j].inUse ==>
         KeyAt(vlog, index[b][j].offset) == key ==> index[b][j].offset == o
  }

  /** Where the index says a key is, unless the head has lapped it. */
  function Lookup(index: seq<seq<Slot>>, head: nat, cap: nat, key: Key): (o: int)
    requires |index| > 0 && |key| == KEY_BYTES
    ensures -1 <= o
  {
    var o := Find(index[Bkt(key, |index|)], Tag(key), 0);
    if o >= 0 && head - o >= cap then -1 else o
  }

  lemma LookupPins(index: seq<seq<Slot>>, vlog: seq<nat>, starts: set<nat>, last: map<Key, seq<nat>>, cap: nat,
                   key: Key)
    requires IndexOk(index, vlog, starts, last) && |key| == KEY_BYTES
    ensures var o := Lookup(index, |vlog|, cap, key);
            o >= 0 ==>
              o in starts && |vlog| < o + cap && (KeyAt(vlog, o) == key ==> Pinned(index, vlog, starts, last, o, key))
  {
    var o := Lookup(index, |vlog|, cap, key);
    if o >= 0 {
      var b := Bkt(key, |index|);
      assert BucketOk(index[b]);
      var j :| 0 <= j < SLOTS && index[b][j] == Slot(true, Tag(key), o);
      assert SlotOk(index[b][j], b, |index|, vlog, starts, last);
      forall c: nat, i: nat | c < |index| && i < |index[c]| && index[c][i].inUse
        ensures KeyAt(vlog, index[c][i].offset) == key ==> index[c][i].offset == o
      {
        assert BucketOk(index[c]);
        assert SlotOk(index[c][i], c, |index|, vlog, starts, last);
        FindIs(index[c], i);
      }
    }
  }

  // ---------------------------------------------------------------------------
  // Inserting
  // ---------------------------------------------------------------------------

  /** The index after an insert at virtual offset `o`. */
  function Indexed(index: seq<seq<Slot>>, key: Key, o: nat): (r: seq<seq<Slot>>)
    requires |index| > 0 && |key| == KEY_BYTES && |index[Bkt(key, |index|)]| == SLOTS
    ensures |r| == |index|
  {
    var b := Bkt(key, |index|);
    var j := SlotToUse(index[b], Tag(key));
    index[b := index[b][j := Slot(true, Tag(key), o)]]
  }

  /** `index'` is `index` with one slot rewritten: where the key belongs, to say where it now is. */
  ghost predicate OneSlotChanged(index: seq<seq<Slot>>, index': seq<seq<Slot>>, key: Key, o: nat, j: nat)
    requires |index| > 0 && |key| == KEY_BYTES
  {
    var b := Bkt(key, |index|);
    && |index'| == |index| && BelongsIn(index[b], Tag(key), j) && |index'[b]| == SLOTS
    && index'[b][j] == Slot(true, Tag(key), o)
    && (forall c: nat {:trigger index'[c]} :: c < |index| && c != b ==> index'[c] == index[c])
    && (forall i: nat {:trigger index'[b][i]} :: i < SLOTS && i != j ==> index'[b][i] == index[b][i])
  }

  lemma InsertChangesOne(index: seq<seq<Slot>>, key: Key, o: nat) returns (j: nat)
    requires |index| > 0 && |key| == KEY_BYTES && BucketOk(index[Bkt(key, |index|)])
    ensures OneSlotChanged(index, Indexed(index, key, o), key, o, j)
  {
    var b := Bkt(key, |index|);
    j := SlotToUse(index[b], Tag(key));
    ChosenBelongs(index[b], Tag(key));
  }

  /** Slot `i` of the key's bucket says where it is. */
  ghost predicate NamedBy(index: seq<seq<Slot>>, key: Key, i: nat)
    requires |index| > 0 && |key| == KEY_BYTES
  {
    var slots := index[Bkt(key, |index|)];
    i < |slots| && slots[i].inUse && slots[i].tag == Tag(key)
  }

  /** A key is found exactly when a slot of its bucket names it and the head has not lapped what the
      slot says. */
  lemma LookupIff(index: seq<seq<Slot>>, head: nat, cap: nat, key: Key, i: nat)
    requires |index| > 0 && |key| == KEY_BYTES && BucketOk(index[Bkt(key, |index|)])
    ensures NamedBy(index, key, i) ==>
              var o := index[Bkt(key, |index|)][i].offset;
              Lookup(index, head, cap, key) == if head < o + cap then o else -1
    ensures Lookup(index, head, cap, key) >= 0 ==> exists k: nat :: NamedBy(index, key, k)
  {
    var slots := index[Bkt(key, |index|)];
    if NamedBy(index, key, i) { FindIs(slots, i); }
    if Lookup(index, head, cap, key) >= 0 {
      var k :| 0 <= k < |slots| && slots[k] == Slot(true, Tag(key), Find(slots, Tag(key), 0));
      assert NamedBy(index, key, k);
    }
  }

  /** An insert leaves every other key's lookup as it was, but for the head moving on, unless the
      slot it takes was what named that key. */
  lemma OthersStillFound(index: seq<seq<Slot>>, index': seq<seq<Slot>>, key: Key, o: nat, j: nat, other: Key, i: nat,
                         head: nat, head': nat, cap: nat)
    requires |index| > 0 && |key| == KEY_BYTES && |other| == KEY_BYTES && OneSlotChanged(index, index', key, o, j)
    requires BucketOk(index[Bkt(other, |index|)]) && BucketOk(index'[Bkt(other, |index|)]) && head <= head'
    requires NamedBy(index, other, i) && (Bkt(other, |index|) != Bkt(key, |index|) || i != j)
    ensures var at := Lookup(index, head, cap, other);
            Lookup(index', head', cap, other) == if at >= 0 && head' < at + cap then at else -1
  {
    LookupIff(index, head, cap, other, i);
    assert NamedBy(index', other, i);
    LookupIff(index', head', cap, other, i);
  }

  lemma InsertKeepsEntries(vlog: seq<nat>, vlog': seq<nat>, starts: set<nat>, cap: nat)
    requires EntriesOk(vlog, starts, cap) && vlog <= vlog' && EntryAt(vlog', |vlog|, cap)
    ensures EntriesOk(vlog', starts + {|vlog|}, cap)
  {
    forall s | s in starts
      ensures EntryAt(vlog', s, cap) && Len(vlog', s) == Len(vlog, s) && s + Len(vlog', s) <= |vlog|
    {
      GrowKeepsEntry(vlog, vlog', s, cap);
    }
  }

  lemma SlotKept(s: Slot, b: nat, n: nat, vlog: seq<nat>, vlog': seq<nat>, starts: set<nat>, cap: nat,
                 last: map<Key, seq<nat>>, key: Key, value: seq<nat>)
    requires n > 0 && EntriesOk(vlog, starts, cap) && vlog <= vlog'
    requires SlotOk(s, b, n, vlog, starts, last) && KeyAt(vlog, s.offset) != key
    ensures SlotOk(s, b, n, vlog', starts + {|vlog|}, last[key := value])
  {
    GrowKeepsEntry(vlog, vlog', s.offset, cap);
  }

  lemma InsertKeepsIndex(index: seq<seq<Slot>>, vlog: seq<nat>, vlog': seq<nat>, starts: set<nat>, cap: nat,
                         last: map<Key, seq<nat>>, key: Key, value: seq<nat>)
    requires IndexOk(index, vlog, starts, last) && EntriesOk(vlog, starts, cap) && |key| == KEY_BYTES
    requires vlog <= vlog' && KeyAt(vlog', |vlog|) == key && ValueAt(vlog', |vlog|) == value
    ensures |index[Bkt(key, |index|)]| == SLOTS
    ensures IndexOk(Indexed(index, key, |vlog|), vlog', starts + {|vlog|}, last[key := value])
  {
    var b := Bkt(key, |index|);
    assert BucketOk(index[b]);
    var j := SlotToUse(index[b], Tag(key));
    InsertKeepsBucket(index[b], Tag(key), |vlog|);
    var index': seq<seq<Slot>> := Indexed(index, key, |vlog|);
    var starts', last' := starts + {|vlog|}, last[key := value];
    forall c: nat | c < |index'| ensures BucketOk(index'[c]) { assert BucketOk(index[c]); }
    forall c: nat, i: nat | c < |index'| && i < SLOTS && index'[c][i].inUse
      ensures SlotOk(index'[c][i], c, |index'|, vlog', starts', last')
    {
      if c != b || i != j {
        assert SlotOk(index[c][i], c, |index|, vlog, starts, last);
        SlotKept(index[c][i], c, |index|, vlog, vlog', starts, cap, last, key, value);
      }
    }
  }

  lemma InsertKeepsPin(index: seq<seq<Slot>>, vlog: seq<nat>, vlog': seq<nat>, starts: set<nat>, cap: nat,
                       last: map<Key, seq<nat>>, key: Key, value: seq<nat>, o: nat, pinned: Key)
    requires IndexOk(index, vlog, starts, last) && EntriesOk(vlog, starts, cap) && |key| == KEY_BYTES
    requires vlog <= vlog' && KeyAt(vlog', |vlog|) == key && |index[Bkt(key, |index|)]| == SLOTS
    requires Pinned(index, vlog, starts, last, o, pinned) && pinned != key
    ensures Pinned(Indexed(index, key, |vlog|), vlog', starts + {|vlog|}, last[key := value], o, pinned)
  {
    GrowKeepsEntry(vlog, vlog', o, cap);
    var index': seq<seq<Slot>> := Indexed(index, key, |vlog|);
    forall c: nat, i: nat | c < |index'| && i < |index'[c]| && index'[c][i].inUse
      ensures KeyAt(vlog', index'[c][i].offset) == pinned ==> index'[c][i].offset == o
    {
      if index'[c][i].offset != |vlog| {
        assert BucketOk(index[c]);
        assert index'[c][i] == index[c][i];
        assert SlotOk(index[c][i], c, |index|, vlog, starts, last);
        GrowKeepsEntry(vlog, vlog', index[c][i].offset, cap);
      }
    }
  }

  /** A key just inserted is found where it was put. */
  lemma InsertedIsFound(index: seq<seq<Slot>>, key: Key, o: nat, head: nat, cap: nat)
    requires |index| > 0 && |key| == KEY_BYTES && BucketOk(index[Bkt(key, |index|)]) && head < o + cap
    ensures Lookup(Indexed(index, key, o), head, cap, key) == o
  {
    var b := Bkt(key, |index|);
    InsertKeepsBucket(index[b], Tag(key), o);
    FindIs(Indexed(index, key, o)[b], SlotToUse(index[b], Tag(key)));
  }

  /** Log, index and the last values put agree. */
  ghost predicate StoreOk(log: seq<nat>, index: seq<seq<Slot>>, vlog: seq<nat>, starts: set<nat>,
                          last: map<Key, seq<nat>>)
  {
    && CapOk(|log|) && HeadOk(|vlog|, |log|)
    && Mirrors(log, vlog)
    && EntriesOk(vlog, starts, |log|)
    && IndexOk(index, vlog, starts, last)
  }

  /** An insert keeps the store in order, and the key inserted is found. */
  lemma InsertKeepsStore(log: seq<nat>, index: seq<seq<Slot>>, vlog: seq<nat>, starts: set<nat>,
                         last: map<Key, seq<nat>>,
                         op: Op, log': seq<nat>, vlog': seq<nat>)
    requires StoreOk(log, index, vlog, starts, last) && OpOk(op)
    requires |vlog| + HEADER_BYTES + |op.value| + 8 < VIRTUAL_BYTES
    requires Copied(log, Pos(|vlog|, |log|), Encode(op.key, op.opcode, op.value), log')
    requires NextHead(|vlog|, HEADER_BYTES + |op.value|, |log|) >= |vlog|
    requires vlog' == Grow(log', vlog, NextHead(|vlog|, HEADER_BYTES + |op.value|, |log|))
    ensures |vlog| < |vlog'| <= |vlog| + 150 && KeyAt(vlog', |vlog|) == op.key && ValueAt(vlog', |vlog|) == op.value
    ensures |index[Bkt(op.key, |index|)]| == SLOTS
    ensures StoreOk(log', Indexed(index, op.key, |vlog|), vlog', starts + {|vlog|}, last[op.key := op.value])
    ensures Lookup(Indexed(index, op.key, |vlog|), |vlog'|, |log|, op.key) == |vlog|
  {
    var bytes, len := Encode(op.key, op.opcode, op.value), HEADER_BYTES + |op.value|;
    NextHeadOk(|vlog|, len, |log|);
    AppendMirrors(log, vlog, bytes, log', |vlog'|);
    AppendedBytes(log, vlog, bytes, log', |vlog'|);
    AppendedEntry(vlog, vlog', op.key, op.opcode, op.value, |log|);
    InsertKeepsEntries(vlog, vlog', starts, |log|);
    InsertKeepsIndex(index, vlog, vlog', starts, |log|, last, op.key, op.value);
    InsertedIsFound(index, op.key, |vlog|, |vlog'|, |log|);
  }

  // ---------------------------------------------------------------------------
  // Updating in place
  // ---------------------------------------------------------------------------

  lemma UpdateKeepsEntries(vlog: seq<nat>, vlog': seq<nat>, starts: set<nat>, cap: nat, o: nat, value: seq<nat>)
    requires EntriesOk(vlog, starts, cap) && o in starts
    requires HEADER_BYTES + |value| == Len(vlog, o) && Copied(vlog, o + HEADER_BYTES, value, vlog')
    ensures EntriesOk(vlog', starts, cap)
  {
    forall s | s in starts ensures EntryAt(vlog', s, cap) && Len(vlog', s) == Len(vlog, s) {
      UpdateKeepsEntry(vlog, vlog', starts, cap, o, value, s);
    }
  }

  lemma UpdateKeepsIndex(index: seq<seq<Slot>>, vlog: seq<nat>, vlog': seq<nat>, starts: set<nat>, cap: nat,
                         last: map<Key, seq<nat>>, o: nat, key: Key, value: seq<nat>)
    requires IndexOk(index, vlog, starts, last) && EntriesOk(vlog, starts, cap)
    requires Pinned(index, vlog, starts, last, o, key)
    requires HEADER_BYTES + |value| == Len(vlog, o) && Copied(vlog, o + HEADER_BYTES, value, vlog')
    ensures IndexOk(index, vlog', starts, last[key := value])
  {
    forall b: nat | b < |index| ensures BucketOk(index[b]) {}
    forall b: nat, j: nat | b < |index| && j < SLOTS && index[b][j].inUse
      ensures SlotOk(index[b][j], b, |index|, vlog', starts, last[key := value])
    {
      assert SlotOk(index[b][j], b, |index|, vlog, starts, last);
      UpdateKeepsEntry(vlog, vlog', starts, cap, o, value, index[b][j].offset);
    }
  }

  lemma UpdateKeepsPin(index: seq<seq<Slot>>, vlog: seq<nat>, vlog': seq<nat>, starts: set<nat>, cap: nat,
                       last: map<Key, seq<nat>>, o: nat, key: Key, value: seq<nat>, o2: nat, key2: Key)
    requires IndexOk(index, vlog, starts, last) && EntriesOk(vlog, starts, cap)
    requires Pinned(index, vlog, starts, last, o, key) && Pinned(index, vlog, starts, last, o2, key2)
    requires key == key2 ==> o == o2
    requires HEADER_BYTES + |value| == Len(vlog, o) && Copied(vlog, o + HEADER_BYTES, value, vlog')
    ensures Pinned(index, vlog', starts, last[key := value], o2, key2)
  {
    UpdateKeepsEntry(vlog, vlog', starts, cap, o, value, o2);
    forall b: nat, j: nat | b < |index| && j < |index[b]| && index[b][j].inUse
      ensures KeyAt(vlog', index[b][j].offset) == key2 ==> index[b][j].offset == o2
    {
      assert BucketOk(index[b]);
      assert SlotOk(index[b][j], b, |index|, vlog, starts, last);
      UpdateKeepsEntry(vlog, vlog', starts, cap, o, value, index[b][j].offset);
    }
  }
}
