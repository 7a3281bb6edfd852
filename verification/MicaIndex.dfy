/** The MICA store's lossy index (mica/mica.h:58-85, mica/mica.c:98-125,195-229): buckets of
    eight slots, each naming a tag and a virtual offset in the log. */
module MicaIndex {

  import opened IndexMath
  import opened MicaLog

  const KEY_BYTES := 16
  const HEADER_BYTES := 18 // key, opcode, val_len
  const LEN_AT := 17
  const MAX_VALUE := 46
  const SLOTS := 8

  datatype Slot = Slot(inUse: bool, tag: nat, offset: nat)

  type Key = seq<nat>

  /** The 16-bit tag and the bucket of a key; the bucket count is a power of two, so that the
      mask is a remainder. */
  function Tag(key: Key): nat
    requires |key| == KEY_BYTES
  {
    key[14] + 0x100 * key[15]
  }

  function Bkt(key: Key, numBkts: nat): (b: nat)
    requires |key| == KEY_BYTES && numBkts > 0
    ensures b < numBkts
  {
    Pos(key[8] + 0x100 * key[9] + 0x1_0000 * key[10] + 0x100_0000 * key[11], numBkts)
  }

  /** Bytes as a number, the lowest first. */
  function LittleEndian(bytes: seq<nat>): nat {
    if bytes == [] then 0 else bytes[0] + 0x100 * LittleEndian(bytes[1..])
  }

  lemma LittleEndianCons(b: nat, rest: seq<nat>)
    ensures LittleEndian([b] + rest) == b + 0x100 * LittleEndian(rest)
  {
    assert ([b] + rest)[1..] == rest;
  }

  lemma LittleEndianOne(b: nat)
    ensures LittleEndian([b]) == b
  {
    assert [b] == [b] + [];
    LittleEndianCons(b, []);
  }

  /** The fields of a key: the bucket is bytes 8 to 11, the tag bytes 14 and 15. */
  lemma KeyFields(key: Key, numBkts: nat)
    requires |key| == KEY_BYTES && numBkts > 0
    ensures Tag(key) == LittleEndian(key[14..16])
    ensures Bkt(key, numBkts) == LittleEndian(key[8..12]) % numBkts
  {
    LittleEndianOne(key[15]);
    LittleEndianCons(key[14], [key[15]]);
    assert key[14..16] == [key[14]] + [key[15]];
    LittleEndianOne(key[11]);
    LittleEndianCons(key[10], [key[11]]);
    LittleEndianCons(key[9], [key[10]] + [key[11]]);
    var high := [key[9]] + ([key[10]] + [key[11]]);
    LittleEndianCons(key[8], high);
    var bkt := key[8..12];
    assert bkt == [key[8]] + high;
    PosIsMod(LittleEndian(bkt), numBkts);
  }

  // ---------------------------------------------------------------------------
  // One bucket
  // ---------------------------------------------------------------------------

  /** The slots in use are the last ones, and their tags differ. */
  ghost predicate BucketOk(slots: seq<Slot>) {
    && |slots| == SLOTS
    && (forall i, j {:trigger slots[i], slots[j]} :: 0 <= i < j < SLOTS && slots[i].inUse ==> slots[j].inUse)
    && (forall i, j {:trigger slots[i], slots[j]} :: 0 <= i < j < SLOTS && slots[i].inUse && slots[j].inUse ==>
          slots[i].tag != slots[j].tag)
  }

  predicate Usable(s: Slot, tag: nat) {
    s.tag == tag || !s.inUse
  }

  /** The last of the first `n` slots that has the tag or is free, or -1. */
  function LastUsable(slots: seq<Slot>, tag: nat, n: nat): (r: int)
    requires n <= |slots|
    ensures -1 <= r < n
    ensures 0 <= r ==> Usable(slots[r], tag)
    ensures forall i {:trigger slots[i]} :: r < i < n ==> !Usable(slots[i], tag)
  {
    if n == 0 then -1
    else if Usable(slots[n - 1], tag) then n - 1
    else LastUsable(slots, tag, n - 1)
  }

  function SlotToUse(slots: seq<Slot>, tag: nat): (j: nat)
    requires |slots| == SLOTS
    ensures j < SLOTS
  {
    var last := LastUsable(slots, tag, SLOTS);
    if last >= 0 then last else tag % SLOTS
  }

  /** The slot taken keeps the bucket in order; no other slot has its tag; and a slot of
      another tag is evicted only when all eight are in use and none has the tag. */
  lemma InsertKeepsBucket(slots: seq<Slot>, tag: nat, offset: nat)
    requires BucketOk(slots)
    ensures var j := SlotToUse(slots, tag);
            && BucketOk(slots[j := Slot(true, tag, offset)])
            && (forall i {:trigger slots[i]} :: 0 <= i < SLOTS && i != j && slots[i].inUse ==> slots[i].tag != tag)
            && (slots[j].inUse && slots[j].tag != tag ==>
                  forall i {:trigger slots[i]} :: 0 <= i < SLOTS ==> slots[i].inUse && slots[i].tag != tag)
  {
    var j := SlotToUse(slots, tag);
    var last := LastUsable(slots, tag, SLOTS);
    forall i | 0 <= i < SLOTS && i != j && slots[i].inUse ensures slots[i].tag != tag {
      if i > last {
        assert !Usable(slots[i], tag);
      } else {
        assert slots[last].inUse;
      }
    }
    if last >= 0 {
      assert forall i {:trigger slots[i]} :: last < i < SLOTS ==> slots[i].inUse;
    }
  }

  ghost predicate HasTag(slots: seq<Slot>, tag: nat) {
    exists i :: 0 <= i < |slots| && slots[i].inUse && slots[i].tag == tag
  }

  /** An insert belongs into slot `j`: the one in use with its tag, or without one the last that is
      free, or in a full bucket the one the low three bits of the tag say. */
  ghost predicate BelongsIn(slots: seq<Slot>, tag: nat, j: nat) {
    && |slots| == 8 && j < 8
    && if HasTag(slots, tag) then slots[j].inUse && slots[j].tag == tag
       else if exists i :: 0 <= i < 8 && !slots[i].inUse then
         !slots[j].inUse && forall i {:trigger slots[i]} :: j < i < 8 ==> slots[i].inUse
       else j == tag % 8
  }

  /** The bucket has neither a free slot nor one with the tag. */
  ghost predicate FullWithout(slots: seq<Slot>, tag: nat) {
    forall i {:trigger slots[i]} :: 0 <= i < |slots| ==> slots[i].inUse && slots[i].tag != tag
  }

  /** The slot chosen is that one. */
  lemma ChosenBelongs(slots: seq<Slot>, tag: nat)
    requires BucketOk(slots)
    ensures BelongsIn(slots, tag, SlotToUse(slots, tag))
    ensures LastUsable(slots, tag, SLOTS) < 0 <==> FullWithout(slots, tag)
  {
    var j := SlotToUse(slots, tag);
    var last := LastUsable(slots, tag, SLOTS);
    if HasTag(slots, tag) {
      var i :| 0 <= i < |slots| && slots[i].inUse && slots[i].tag == tag;
      assert Usable(slots[i], tag) && i <= last;
      assert slots[last].inUse;
    } else if i :| 0 <= i < 8 && !slots[i].inUse {
      assert Usable(slots[i], tag) && i <= last;
      assert !slots[last].inUse;
    }
  }

  /** Where the first slot in use with the tag points, from slot `n` on, or -1. */
  function Find(slots: seq<Slot>, tag: nat, n: nat): (r: int)
    requires n <= |slots|
    ensures -1 <= r
    ensures 0 <= r ==> exists j :: n <= j < |slots| && slots[j] == Slot(true, tag, r)
    ensures r < 0 ==> forall j {:trigger slots[j]} :: n <= j < |slots| && slots[j].inUse ==> slots[j].tag != tag
    decreases |slots| - n
  {
    if n == |slots| then -1
    else if slots[n].inUse && slots[n].tag == tag then
      assert slots[n] == Slot(true, tag, slots[n].offset);
      slots[n].offset
    else Find(slots, tag, n + 1)
  }

  /** In an orderly bucket the first slot found is the only one. */
  lemma FindIs(slots: seq<Slot>, j: nat)
    requires BucketOk(slots) && j < SLOTS && slots[j].inUse
    ensures Find(slots, slots[j].tag, 0) == slots[j].offset
  {
    var r := Find(slots, slots[j].tag, 0);
    assert r >= 0;
    var i :| 0 <= i < |slots| && slots[i] == Slot(true, slots[j].tag, r);
    assert i == j;
  }

  // ---------------------------------------------------------------------------
  // Entries of the log
  // ---------------------------------------------------------------------------

  function Encode(key: Key, opcode: nat, value: seq<nat>): seq<nat> {
    key + [opcode, |value|] + value
  }

  /** In the log an entry is sixteen bytes of key, the opcode, the length of the value, and the value. */
  lemma EntryLayout(key: Key, opcode: nat, value: seq<nat>)
    requires |key| == KEY_BYTES
    ensures var e := Encode(key, opcode, value);
            && |e| == 18 + |value| && e[..16] == key && e[16] == opcode && e[17] == |value| && e[18..] == value
  {
  }

  ghost function Len(vlog: seq<nat>, s: nat): nat {
    if s + HEADER_BYTES <= |vlog| then HEADER_BYTES + vlog[s + LEN_AT] else HEADER_BYTES
  }

  ghost function KeyAt(vlog: seq<nat>, s: nat): Key {
    if s + KEY_BYTES <= |vlog| then vlog[s..s + KEY_BYTES] else []
  }

  ghost function ValueAt(vlog: seq<nat>, s: nat): seq<nat> {
    if s + Len(vlog, s) <= |vlog| then vlog[s + HEADER_BYTES..s + Len(vlog, s)] else []
  }

  /** An entry lies in the log, in one piece in memory. */
  ghost predicate EntryAt(vlog: seq<nat>, s: nat, cap: nat) {
    cap > 0 && s + Len(vlog, s) <= |vlog| && Pos(s, cap) + Len(vlog, s) <= cap
  }

  ghost predicate EntriesOk(vlog: seq<nat>, starts: set<nat>, cap: nat) {
    && (forall s {:trigger s in starts} :: s in starts ==> EntryAt(vlog, s, cap))
    && (forall s, t {:trigger s in starts, t in starts} :: s in starts && t in starts && s < t ==>
          s + Len(vlog, s) <= t)
  }

  lemma SliceOfPrefix(vlog: seq<nat>, vlog': seq<nat>, a: nat, b: nat)
    requires a <= b <= |vlog| && vlog <= vlog'
    ensures vlog'[a..b] == vlog[a..b]
  {
  }

  lemma GrowKeepsEntry(vlog: seq<nat>, vlog': seq<nat>, s: nat, cap: nat)
    requires EntryAt(vlog, s, cap) && vlog <= vlog'
    ensures EntryAt(vlog', s, cap) && Len(vlog', s) == Len(vlog, s)
    ensures KeyAt(vlog', s) == KeyAt(vlog, s) && ValueAt(vlog', s) == ValueAt(vlog, s)
  {
    SliceOfPrefix(vlog, vlog', s, s + KEY_BYTES);
    SliceOfPrefix(vlog, vlog', s + HEADER_BYTES, s + Len(vlog, s));
  }

  /** An entry appended at the end of `vlog`. */
  lemma AppendedEntry(vlog: seq<nat>, vlog': seq<nat>, key: Key, opcode: nat, value: seq<nat>, cap: nat)
    requires |key| == KEY_BYTES && cap > 0
    requires |vlog| + HEADER_BYTES + |value| <= |vlog'|
    requires vlog'[|vlog|..|vlog| + HEADER_BYTES + |value|] == Encode(key, opcode, value)
    requires Pos(|vlog|, cap) + HEADER_BYTES + |value| <= cap
    ensures EntryAt(vlog', |vlog|, cap) && Len(vlog', |vlog|) == HEADER_BYTES + |value|
    ensures KeyAt(vlog', |vlog|) == key && ValueAt(vlog', |vlog|) == value
  {
    var s := |vlog|;
    var entry := vlog'[s..s + HEADER_BYTES + |value|];
    assert entry[LEN_AT] == |value|;
    assert vlog'[s + LEN_AT] == entry[LEN_AT];
    assert vlog'[s..s + KEY_BYTES] == entry[..KEY_BYTES] == key;
    assert vlog'[s + HEADER_BYTES..s + HEADER_BYTES + |value|] == entry[HEADER_BYTES..] == value;
  }

  /** Overwriting the value of entry `o` with one as long changes that value and nothing else
      about any entry. */
  lemma UpdateKeepsEntry(vlog: seq<nat>, vlog': seq<nat>, starts: set<nat>, cap: nat, o: nat, value: seq<nat>, s: nat)
    requires EntriesOk(vlog, starts, cap) && o in starts && s in starts
    requires HEADER_BYTES + |value| == Len(vlog, o) && Copied(vlog, o + HEADER_BYTES, value, vlog')
    ensures EntryAt(vlog', s, cap) && Len(vlog', s) == Len(vlog, s) && KeyAt(vlog', s) == KeyAt(vlog, s)
    ensures ValueAt(vlog', s) == if s == o then value else ValueAt(vlog, s)
  {
    assert EntryAt(vlog, s, cap) && EntryAt(vlog, o, cap);
    assert s < o ==> s + Len(vlog, s) <= o;
    assert o < s ==> o + Len(vlog, o) <= s;
    assert vlog'[s + LEN_AT] == vlog[s + LEN_AT];
    var key, key' := vlog[s..s + KEY_BYTES], vlog'[s..s + KEY_BYTES];
    assert forall k {:trigger key[k]} {:trigger key'[k]} :: 0 <= k < KEY_BYTES ==>
        vlog'[s + k] == vlog[s + k] && key[k] == vlog[s + k] && key'[k] == vlog'[s + k];
    assert key == key';
    var val, val' := vlog[s + HEADER_BYTES..s + Len(vlog, s)], vlog'[s + HEADER_BYTES..s + Len(vlog, s)];
    var was := if s == o then value else val;
    assert forall k {:trigger was[k]} {:trigger val'[k]} :: 0 <= k < |val'| ==>
        val'[k] == vlog'[s + HEADER_BYTES + k] == was[k];
    assert val' == was;
  }
}
