/** Runs of the allocator over its chunks: what any sequence of allocations and frees keeps,
    and exactly when an allocation succeeds. */
module AllocRuns {

  import opened AllocLayout
  import opened AllocChunks

  datatype Heap = Heap(chunks: Chunks, clock: nat)

  /** What allocating answers. `AssertFailed` is the check that the chunk found is large
      enough failing, which stops the program. */
  datatype Outcome =
    | At(offset: nat)
    | InsufficientSpace
    | AssertFailed

  /** Items start one word into their chunk; offsets count bytes. */
  function OffsetOf(s: nat): nat {
    8 * (s + 1)
  }

  ghost predicate AllocatesAt(h: Heap, item: nat, h': Heap, s: nat)
    requires item > 8
  {
    && Chosen(h.chunks, FirstClass(item), s)
    && NeedWords(item) <= h.chunks[s].size
    && h' == Heap(Carve(h.chunks, s, NeedWords(item), item, h.clock), h.clock + 1)
  }

  ghost predicate ChosenTooSmall(h: Heap, item: nat, s: nat)
    requires item > 8
  {
    Chosen(h.chunks, FirstClass(item), s) && h.chunks[s].size < NeedWords(item)
  }

  ghost predicate Allocates(h: Heap, item: nat, h': Heap, r: Outcome)
    requires item > 8
  {
    match r
    case At(offset) => exists s: nat :: AllocatesAt(h, item, h', s) && offset == OffsetOf(s)
    case InsufficientSpace => NoneFrom(h.chunks, FirstClass(item)) && h' == h
    case AssertFailed => h' == h && exists s: nat :: ChosenTooSmall(h, item, s)
  }

  ghost predicate Frees(h: Heap, offset: nat, h': Heap) {
    exists s: nat :: IsUsed(h.chunks, s) && offset == OffsetOf(s)
                     && h' == Heap(Release(h.chunks, s, h.clock), h.clock + 1)
  }

  datatype Op = Allocate(item: nat, r: Outcome) | Deallocate(offset: nat)

  ghost predicate Step(h: Heap, op: Op, h': Heap) {
    match op
    case Allocate(item, r) => item > 8 && Allocates(h, item, h', r)
    case Deallocate(offset) => Frees(h, offset, h')
  }

  ghost predicate Run(hs: seq<Heap>, ops: seq<Op>) {
    |hs| == |ops| + 1 && forall i :: 0 <= i < |ops| ==> Step(hs[i], ops[i], hs[i + 1])
  }

  /** The chunk an item offset belongs to. */
  function StartOf(offset: nat): nat
    requires offset >= 8
  {
    offset / 8 - 1
  }

  /** The items the caller holds, by chunk, with their sizes in bytes. */
  ghost function Live(cs: Chunks): map<nat, nat> {
    map s: nat | s in cs && cs[s].Used? :: cs[s].item
  }

  lemma NeedHoldsItem(item: nat)
    requires item > 8
    ensures MIN_WORDS <= NeedWords(item)
    ensures 8 * (NeedWords(item) - 2) - 8 < item <= 8 * (NeedWords(item) - 2)
    ensures 8 * NeedWords(item) == RoundUp8(item) + OVERHEAD
  {
  }

  lemma StepKeepsInv(h: Heap, n: nat, op: Op, h': Heap)
    requires Inv(h.chunks, n, h.clock) && Step(h, op, h')
    ensures Inv(h'.chunks, n, h'.clock)
  {
    match op
    case Allocate(item, r) =>
      if r.At? {
        var s: nat :| AllocatesAt(h, item, h', s) && r.offset == OffsetOf(s);
        NeedHoldsItem(item);
        CarveKeepsInv(h.chunks, n, s, NeedWords(item), item, h.clock);
      }
    case Deallocate(offset) =>
      var s: nat :| IsUsed(h.chunks, s) && offset == OffsetOf(s)
                    && h' == Heap(Release(h.chunks, s, h.clock), h.clock + 1);
      ReleaseKeepsInv(h.chunks, n, s, h.clock);
  }

  /** Cutting the chosen chunk to size and marking it used is what allocating means. */
  lemma AllocateDone(h: Heap, n: nat, item: nat, s: nat, h': Heap)
    requires Inv(h.chunks, n, h.clock) && item > 8
    requires Chosen(h.chunks, FirstClass(item), s) && NeedWords(item) <= h.chunks[s].size
    requires var trimmed := Trim(Loosen(h.chunks, s), s, NeedWords(item), h.clock);
             s in trimmed && h' == Heap(MakeUsed(trimmed, s, item), h.clock + 1)
    ensures Allocates(h, item, h', At(OffsetOf(s)))
    ensures Inv(h'.chunks, n, h'.clock)
  {
    NeedHoldsItem(item);
    CarveStages(h.chunks, n, s, NeedWords(item), item, h.clock);
    CarveKeepsInv(h.chunks, n, s, NeedWords(item), item, h.clock);
    assert AllocatesAt(h, item, h', s);
  }

  /** Joining a used chunk with its free neighbours and listing it is what freeing means. */
  lemma FreeDone(h: Heap, n: nat, s: nat, h': Heap)
    requires Inv(h.chunks, n, h.clock) && IsUsed(h.chunks, s)
    requires var l, joined := LowEnd(h.chunks, s), JoinLeft(Loosen(h.chunks, s), s);
             && l in joined && l in JoinRight(joined, l)
             && h' == Heap(MakeFree(JoinRight(joined, l), l, h.clock), h.clock + 1)
    ensures Frees(h, OffsetOf(s), h')
    ensures Inv(h'.chunks, n, h'.clock)
  {
    ReleaseIsJoining(h.chunks, n, s, h.clock);
    ReleaseKeepsInv(h.chunks, n, s, h.clock);
  }

  /** Every state of every run keeps the heap invariant. */
  lemma {:induction false} RunKeepsInv(hs: seq<Heap>, ops: seq<Op>, n: nat, i: nat)
    requires Run(hs, ops) && Inv(hs[0].chunks, n, hs[0].clock) && i < |hs|
    ensures Inv(hs[i].chunks, n, hs[i].clock)
  {
    if i > 0 {
      RunKeepsInv(hs, ops, n, i - 1);
      StepKeepsInv(hs[i - 1], n, ops[i - 1], hs[i]);
    }
  }

  /** What the caller's view of the heap becomes after an operation, the allocator's
      decisions being given. */
  ghost function After(live: map<nat, nat>, op: Op): map<nat, nat> {
    match op
    case Allocate(item, r) =>
      if r.At? && r.offset >= 8 then live[StartOf(r.offset) := item] else live
    case Deallocate(offset) =>
      if offset >= 8 then live - {StartOf(offset)} else live
  }

  ghost function Replay(live: map<nat, nat>, ops: seq<Op>): map<nat, nat> {
    if ops == [] then live
    else After(Replay(live, ops[..|ops| - 1]), ops[|ops| - 1])
  }

  lemma CarveLive(cs: Chunks, n: nat, s: nat, need: nat, item: nat, clock: nat)
    requires Tiled(cs, n) && IsFree(cs, s) && MIN_WORDS <= need <= cs[s].size
    ensures s !in Live(cs)
    ensures Live(Carve(cs, s, need, item, clock)) == Live(cs)[s := item]
  {
    if cs[s].size >= need + MIN_WORDS { InsideNoChunk(cs, n, s, s + need); }
  }

  lemma ReleaseLive(cs: Chunks, n: nat, s: nat, clock: nat)
    requires Tiled(cs, n) && IsUsed(cs, s)
    ensures Live(Release(cs, s, clock)) == Live(cs) - {s}
  {
    var cs' := Release(cs, s, clock);
    forall t: nat ensures t in Live(cs') <==> t in Live(cs) - {s} {
      ReleaseUsed(cs, n, s, clock, t);
    }
    forall t: nat | t in Live(cs') ensures Live(cs')[t] == Live(cs)[t] {
      ReleaseUsed(cs, n, s, clock, t);
    }
  }

  /** Freeing `s` leaves every other used chunk as it is. */
  lemma ReleaseUsed(cs: Chunks, n: nat, s: nat, clock: nat, t: nat)
    requires Tiled(cs, n) && IsUsed(cs, s)
    ensures IsUsed(Release(cs, s, clock), t) <==> IsUsed(cs, t) && t != s
    ensures IsUsed(Release(cs, s, clock), t) ==> Release(cs, s, clock)[t] == cs[t]
  {
    var l, h := LowEnd(cs, s), HighEnd(cs, s);
    if t in cs && l < t < h { NothingBetween(cs, n, s, t); }
  }

  lemma StartOfOffset(s: nat)
    ensures OffsetOf(s) >= 8 && StartOf(OffsetOf(s)) == s
  {
  }

  lemma StepLive(h: Heap, n: nat, op: Op, h': Heap)
    requires Inv(h.chunks, n, h.clock) && Step(h, op, h')
    ensures Live(h'.chunks) == After(Live(h.chunks), op)
    ensures op.Allocate? && op.r.At? ==> op.r.offset >= 8 && StartOf(op.r.offset) !in Live(h.chunks)
  {
    match op
    case Allocate(item, r) =>
      if r.At? { AllocateLive(h, n, item, h', r.offset); }
    case Deallocate(offset) =>
      FreeLive(h, n, offset, h');
  }

  lemma AllocateLive(h: Heap, n: nat, item: nat, h': Heap, offset: nat)
    requires Tiled(h.chunks, n) && item > 8 && Allocates(h, item, h', At(offset))
    ensures offset >= 8 && StartOf(offset) !in Live(h.chunks)
    ensures Live(h'.chunks) == Live(h.chunks)[StartOf(offset) := item]
  {
    var s: nat :| AllocatesAt(h, item, h', s) && offset == OffsetOf(s);
    NeedHoldsItem(item);
    StartOfOffset(s);
    CarveLive(h.chunks, n, s, NeedWords(item), item, h.clock);
  }

  lemma FreeLive(h: Heap, n: nat, offset: nat, h': Heap)
    requires Tiled(h.chunks, n) && Frees(h, offset, h')
    ensures offset >= 8 && Live(h'.chunks) == Live(h.chunks) - {StartOf(offset)}
  {
    var s: nat :| IsUsed(h.chunks, s) && offset == OffsetOf(s)
                  && h' == Heap(Release(h.chunks, s, h.clock), h.clock + 1);
    StartOfOffset(s);
    ReleaseLive(h.chunks, n, s, h.clock);
  }

  /** Items appear when allocated, disappear when freed, and otherwise stay, over any run. */
  lemma {:induction false} RunLive(hs: seq<Heap>, ops: seq<Op>, n: nat)
    requires Run(hs, ops) && Inv(hs[0].chunks, n, hs[0].clock)
    ensures Live(hs[|ops|].chunks) == Replay(Live(hs[0].chunks), ops)
    decreases |ops|
  {
    if ops != [] {
      var k := |ops| - 1;
      assert Run(hs[..|ops|], ops[..k]);
      RunLive(hs[..|ops|], ops[..k], n);
      RunKeepsInv(hs, ops, n, k);
      StepLive(hs[k], n, ops[k], hs[k + 1]);
    }
  }

  /** Items never overlap, and keep clear of every chunk's tags and list pointers: an item's
      bytes lie strictly between the two tag words of its own chunk, and no other chunk
      reaches in there. */
  lemma ItemsDisjoint(cs: Chunks, n: nat, clock: nat, s: nat, t: nat)
    requires Inv(cs, n, clock) && IsUsed(cs, s) && t in cs && s != t
    ensures 8 * s + 8 == OffsetOf(s)
    ensures OffsetOf(s) + cs[s].item <= 8 * (s + cs[s].size - 1) <= 8 * (n - 1)
    ensures OffsetOf(s) + cs[s].item <= 8 * t || 8 * (t + cs[t].size) <= OffsetOf(s)
  {
    assert s < t ==> Before(cs, s, t);
    assert t < s ==> Before(cs, t, s);
  }

  /** With no item held the heap is one free chunk. */
  lemma NothingHeld(cs: Chunks, n: nat, clock: nat)
    requires Inv(cs, n, clock) && Live(cs) == map[]
    ensures cs.Keys == {0} && cs[0].Free? && cs[0].size == n
  {
    forall s: nat | s in cs ensures IsFree(cs, s) {
      assert s !in Live(cs);
    }
    assert Followed(cs, n, 0) && Apart(cs, 0);
    assert cs[0].size == n;
    forall s: nat | s in cs ensures s == 0 {
      assert 0 < s ==> Before(cs, 0, s);
      assert cs[s].size > 0;
    }
  }

  /** However items were allocated and in whatever order they are freed, once all are freed
      the heap is the single free chunk it started as. */
  lemma FreeingAllRestores(hs: seq<Heap>, ops: seq<Op>, n: nat)
    requires Run(hs, ops) && Inv(hs[0].chunks, n, hs[0].clock)
    requires Replay(Live(hs[0].chunks), ops) == map[]
    ensures hs[|ops|].chunks.Keys == {0}
    ensures hs[|ops|].chunks[0].Free? && hs[|ops|].chunks[0].size == n
  {
    RunLive(hs, ops, n);
    RunKeepsInv(hs, ops, n, |ops|);
    NothingHeld(hs[|ops|].chunks, n, hs[|ops|].clock);
  }

  // ---------------------------------------------------------------------------
  // When allocating succeeds
  // ---------------------------------------------------------------------------

  ghost predicate SomeFits(cs: Chunks, item: nat) {
    exists s: nat {:trigger cs[s]} :: s in cs && cs[s].Free? && NeedWords(item) <= cs[s].size
  }

  lemma ClassFits(words: nat, item: nat)
    requires words >= MIN_WORDS && item > 8
    ensures item <= 264 ==> (FirstClass(item) <= Class(words) <==> NeedWords(item) <= words)
    ensures item > 264 ==> (FirstClass(item) <= Class(words) <==> words >= 35)
    ensures item > 264 ==> NeedWords(item) > 35
  {
    NeedHoldsItem(item);
    ClassDecidesFit(8 * words, 8 * NeedWords(item));
  }

  /** Up to 264 bytes a request is served exactly when some free chunk is large enough, and
      never trips the check. */
  lemma SmallRequests(h: Heap, n: nat, item: nat, h': Heap, r: Outcome)
    requires Inv(h.chunks, n, h.clock) && 8 < item <= 264 && Allocates(h, item, h', r)
    ensures r.At? <==> SomeFits(h.chunks, item)
    ensures r != AssertFailed
  {
    var cs := h.chunks;
    match r
    case At(offset) =>
      var s: nat :| AllocatesAt(h, item, h', s) && offset == OffsetOf(s);
      assert IsFree(cs, s) && NeedWords(item) <= cs[s].size;
    case InsufficientSpace =>
      forall s: nat | IsFree(cs, s) ensures cs[s].size < NeedWords(item) {
        ClassFits(cs[s].size, item);
      }
    case AssertFailed =>
      var s: nat :| ChosenTooSmall(h, item, s);
      ClassFits(cs[s].size, item);
      assert false;
  }

  /** Above that the search looks only at chunks of 280 bytes and more, and takes the one
      listed last: it answers "no space" exactly when there is none, and trips the check
      exactly when that one is too small, whatever else is free. */
  lemma LargeRequests(h: Heap, n: nat, item: nat, h': Heap, r: Outcome)
    requires Inv(h.chunks, n, h.clock) && item > 264 && Allocates(h, item, h', r)
    ensures r == InsufficientSpace <==> NoChunkOf35(h.chunks)
    ensures r == AssertFailed <==>
            exists s: nat :: LatestOf35(h.chunks, s) && h.chunks[s].size < NeedWords(item)
    ensures r.At? <==>
            exists s: nat :: LatestOf35(h.chunks, s) && NeedWords(item) <= h.chunks[s].size
  {
    var cs := h.chunks;
    forall s: nat | s in cs
      ensures Chosen(cs, FirstClass(item), s) <==> LatestOf35(cs, s)
    {
      ChosenIsLatest(cs, n, h.clock, item, s);
    }
    match r
    case At(offset) =>
      var s: nat :| AllocatesAt(h, item, h', s) && offset == OffsetOf(s);
      LatestIsUnique(cs, h.clock, s);
    case InsufficientSpace =>
      forall s: nat | IsFree(cs, s) ensures cs[s].size < 35 {
        ClassFits(cs[s].size, item);
      }
    case AssertFailed =>
      var s: nat :| ChosenTooSmall(h, item, s);
      LatestIsUnique(cs, h.clock, s);
  }

  ghost predicate NoChunkOf35(cs: Chunks) {
    forall s: nat {:trigger cs[s]} :: s in cs && cs[s].Free? ==> cs[s].size < 35
  }

  /** The most recently listed of the free chunks of 35 words (280 bytes) and more. */
  ghost predicate LatestOf35(cs: Chunks, s: nat) {
    && IsFree(cs, s) && cs[s].size >= 35
    && forall t: nat {:trigger cs[t]} :: t in cs && cs[t].Free? && cs[t].size >= 35 ==> cs[t].stamp <= cs[s].stamp
  }

  lemma LatestIsUnique(cs: Chunks, clock: nat, s: nat)
    requires Stamped(cs, clock) && LatestOf35(cs, s)
    ensures forall t: nat :: LatestOf35(cs, t) ==> t == s
    ensures !NoChunkOf35(cs)
  {
  }

  lemma ChosenIsLatest(cs: Chunks, n: nat, clock: nat, item: nat, s: nat)
    requires Inv(cs, n, clock) && item > 264 && s in cs
    ensures Chosen(cs, FirstClass(item), s) <==> LatestOf35(cs, s)
  {
    NeedHoldsItem(item);
    forall t: nat | IsFree(cs, t)
      ensures cs[t].size >= MIN_WORDS
      ensures FirstClass(item) <= Class(cs[t].size) <==> cs[t].size >= 35
      ensures cs[t].size >= 35 ==> Class(cs[t].size) == NUM_CLASSES - 1
    {
      ClassFits(cs[t].size, item);
    }
    if LatestOf35(cs, s) {
      assert Class(cs[s].size) == NUM_CLASSES - 1;
    }
  }

  // ---------------------------------------------------------------------------
  // How much an item gets
  // ---------------------------------------------------------------------------

  /** Word `w` lies in a free chunk. */
  ghost predicate InFree(cs: Chunks, w: nat) {
    exists s: nat :: IsFree(cs, s) && s <= w < End(cs, s)
  }

  ghost function FreeWords(cs: Chunks, n: nat): set<nat> {
    set w: nat | w < n && InFree(cs, w)
  }

  ghost function Words(lo: nat, size: nat): (r: set<nat>)
    ensures |r| == size && forall w: nat :: w in r <==> lo <= w < lo + size
  {
    if size == 0 then {} else Words(lo, size - 1) + {lo + size - 1}
  }

  /** The chunk an item is given starts where the chosen free one started and takes the words the item
      and its two tags need; what is left over becomes a free chunk of its own, the last to be listed,
      unless it is less than the smallest chunk: then, and only then, the item gets it, too. Every
      other chunk stays as it is. */
  lemma ItemGets(h: Heap, n: nat, item: nat, h': Heap, offset: nat)
    requires Inv(h.chunks, n, h.clock) && item > 8 && Allocates(h, item, h', At(offset))
    ensures offset >= 8
    ensures var cs, cs', s := h.chunks, h'.chunks, StartOf(offset);
            && IsFree(cs, s) && IsUsed(cs', s) && cs'[s].item == item
            && var rest := 8 * cs[s].size - (RoundUp8(item) + OVERHEAD);
               && rest >= 0
               && 8 * cs'[s].size == RoundUp8(item) + OVERHEAD + (if rest < MIN_SIZE then rest else 0)
               && (rest >= MIN_SIZE ==> IsFree(cs', End(cs', s)) && End(cs', End(cs', s)) == End(cs, s)
                                        && cs'[End(cs', s)].stamp == h.clock)
               && forall t: nat {:trigger cs'[t]} :: t < s || End(cs, s) <= t ==>
                    (t in cs' <==> t in cs) && (t in cs ==> cs'[t] == cs[t])
  {
    var s: nat :| AllocatesAt(h, item, h', s) && offset == OffsetOf(s);
    StartOfOffset(s);
    NeedHoldsItem(item);
    assert h.chunks[s].size >= MIN_WORDS;
  }

  /** So an item gets room for two tags and never as much as another chunk's worth more than it needs,
      and from a chunk large enough to split, nothing but the rounding. */
  lemma ItemGetsLittleMore(h: Heap, n: nat, item: nat, h': Heap, offset: nat)
    requires Inv(h.chunks, n, h.clock) && item > 8 && Allocates(h, item, h', At(offset))
    ensures offset >= 8 && StartOf(offset) in h'.chunks
    ensures item + 16 <= 8 * h'.chunks[StartOf(offset)].size < item + 56
    ensures StartOf(offset) in h.chunks && (8 * h.chunks[StartOf(offset)].size >= item + 56 ==>
              8 * h'.chunks[StartOf(offset)].size < item + 24)
  {
    ItemGets(h, n, item, h', offset);
  }

  lemma FreeAfter(h: Heap, n: nat, item: nat, h': Heap, offset: nat, w: nat)
    requires Inv(h.chunks, n, h.clock) && item > 8 && Allocates(h, item, h', At(offset))
    ensures offset >= 8 && StartOf(offset) in h'.chunks
    ensures InFree(h'.chunks, w) <==>
            InFree(h.chunks, w) && !(StartOf(offset) <= w < End(h'.chunks, StartOf(offset)))
    ensures StartOf(offset) <= w < End(h'.chunks, StartOf(offset)) ==> InFree(h.chunks, w) && w < n
  {
    ItemGets(h, n, item, h', offset);
    StepKeepsInv(h, n, Allocate(item, At(offset)), h');
    var cs, cs', s := h.chunks, h'.chunks, StartOf(offset);
    if InFree(cs', w) {
      var t: nat :| IsFree(cs', t) && t <= w < End(cs', t);
      assert t < s ==> Before(cs', t, s);
      assert s < t ==> Before(cs', s, t);
      if t < s || End(cs, s) <= t {
        assert IsFree(cs, t);
      } else {
        assert Followed(cs, n, s);
        assert End(cs, s) in cs ==> Before(cs', t, End(cs, s));
        assert IsFree(cs, s) && s <= w < End(cs, s);
      }
    }
    if InFree(cs, w) {
      var t: nat :| IsFree(cs, t) && t <= w < End(cs, t);
      assert t < s ==> Before(cs, t, s);
      assert s < t ==> Before(cs, s, t);
      if t != s { assert IsFree(cs', t); }
    }
  }

  /** The free words of the heap fall by exactly the chunk the item got. */
  lemma FreeFallsBy(h: Heap, n: nat, item: nat, h': Heap, offset: nat)
    requires Inv(h.chunks, n, h.clock) && item > 8 && Allocates(h, item, h', At(offset))
    ensures offset >= 8 && StartOf(offset) in h'.chunks
    ensures var got := Words(StartOf(offset), h'.chunks[StartOf(offset)].size);
            got <= FreeWords(h.chunks, n) && FreeWords(h'.chunks, n) == FreeWords(h.chunks, n) - got
    ensures |FreeWords(h'.chunks, n)| == |FreeWords(h.chunks, n)| - h'.chunks[StartOf(offset)].size
  {
    ItemGets(h, n, item, h', offset);
    var got := Words(StartOf(offset), h'.chunks[StartOf(offset)].size);
    var free, free' := FreeWords(h.chunks, n), FreeWords(h'.chunks, n);
    forall w: nat ensures w in free' <==> w in free && w !in got
      ensures w in got ==> w in free
    {
      FreeAfter(h, n, item, h', offset, w);
    }
    assert free' == free - got && got <= free;
  }

  lemma FreeAfterFreeing(h: Heap, n: nat, s: nat, w: nat)
    requires Inv(h.chunks, n, h.clock) && IsUsed(h.chunks, s)
    ensures InFree(Release(h.chunks, s, h.clock), w) <==> InFree(h.chunks, w) || s <= w < End(h.chunks, s)
  {
    var cs, cs' := h.chunks, Release(h.chunks, s, h.clock);
    var l, e := LowEnd(cs, s), HighEnd(cs, s);
    assert IsFree(cs', l) && End(cs', l) == e;
    if InFree(cs', w) {
      var t: nat :| IsFree(cs', t) && t <= w < End(cs', t);
      if t != l {
        assert IsFree(cs, t);
      } else if w < s {
        assert IsFree(cs, l) && End(cs, l) == s;
      } else if w >= End(cs, s) {
        assert IsFree(cs, End(cs, s));
      }
    }
    if InFree(cs, w) {
      var t: nat :| IsFree(cs, t) && t <= w < End(cs, t);
      assert t < l ==> Before(cs, t, l);
      if t < l || e <= t { assert IsFree(cs', t); } else { StretchHolds(cs, n, s, t); }
    }
  }

  /** A chunk that starts in the stretch freed around `s` lies in it. */
  lemma StretchHolds(cs: Chunks, n: nat, s: nat, t: nat)
    requires Tiled(cs, n) && IsUsed(cs, s) && t in cs && LowEnd(cs, s) <= t < HighEnd(cs, s)
    ensures End(cs, t) <= HighEnd(cs, s)
  {
    assert Followed(cs, n, s);
    assert t < s ==> Before(cs, t, s);
    if End(cs, s) in cs {
      assert s < t ==> Before(cs, s, t);
      assert End(cs, s) < t ==> Before(cs, End(cs, s), t);
    }
  }

  /** Freeing an item gives back exactly its chunk's words. */
  lemma FreeRisesBy(h: Heap, n: nat, offset: nat, h': Heap)
    requires Inv(h.chunks, n, h.clock) && Frees(h, offset, h')
    ensures offset >= 8 && IsUsed(h.chunks, StartOf(offset))
    ensures var back := Words(StartOf(offset), h.chunks[StartOf(offset)].size);
            back !! FreeWords(h.chunks, n) && FreeWords(h'.chunks, n) == FreeWords(h.chunks, n) + back
  {
    var s: nat :| IsUsed(h.chunks, s) && offset == OffsetOf(s)
                  && h' == Heap(Release(h.chunks, s, h.clock), h.clock + 1);
    StartOfOffset(s);
    var back := Words(s, h.chunks[s].size);
    var free, free' := FreeWords(h.chunks, n), FreeWords(h'.chunks, n);
    assert s + h.chunks[s].size <= n;
    forall w: nat ensures w in free' <==> w in free || w in back
      ensures w in back ==> w !in free
    {
      FreeAfterFreeing(h, n, s, w);
      if InFree(h.chunks, w) {
        var t: nat :| IsFree(h.chunks, t) && t <= w < End(h.chunks, t);
        assert t < s ==> Before(h.chunks, t, s);
        assert s < t ==> Before(h.chunks, s, t);
      }
    }
    assert free' == free + back;
  }

  /** The heap mica_alloc_init leaves: one free chunk. */
  ghost function Fresh(n: nat): Heap {
    Heap(map[0 := Free(n, 0)], 1)
  }

  /** In a heap of `n` words: 280 bytes given out and freed again behind a small item, so that they
      are listed last, before all the rest. */
  ghost function Fragmented(n: nat): Heap
    requires n >= 39
  {
    Heap(map[0 := Free(35, 3), 35 := Used(4, 16), 39 := Free(n - 39, 2)], 4)
  }

  lemma FragmentedRun(n: nat) returns (hs: seq<Heap>, ops: seq<Op>)
    requires n >= 91
    ensures Run(hs, ops) && hs[0] == Fresh(n) && hs[|ops|] == Fragmented(n)
  {
    var h0, h3 := Fresh(n), Fragmented(n);
    var h1 := Heap(map[0 := Used(35, 264), 35 := Free(n - 35, 1)], 2);
    var h2 := Heap(map[0 := Used(35, 264), 35 := Used(4, 16), 39 := Free(n - 39, 2)], 3);
    assert AllocatesAt(h0, 264, h1, 0);
    assert AllocatesAt(h1, 16, h2, 35);
    assert IsUsed(h2.chunks, 0) && h3 == Heap(Release(h2.chunks, 0, h2.clock), h2.clock + 1) by {
      assert !HasFreeLeft(h2.chunks, 0);
      assert h3.chunks == Release(h2.chunks, 0, h2.clock);
    }
    hs := [h0, h1, h2, h3];
    ops := [Allocate(264, At(OffsetOf(0))), Allocate(16, At(OffsetOf(35))), Deallocate(OffsetOf(0))];
  }

  /** In every heap mica_alloc_init makes, whatever the size asked for, there is a run after which the
      check fails although a large enough chunk is free. */
  lemma AssertCanFail(size: nat) returns (hs: seq<Heap>, ops: seq<Op>)
    requires size > 0
    ensures Run(hs, ops) && ops != [] && hs[0] == Fresh(RoundUp2M(size) / 8)
    ensures ops[|ops| - 1] == Allocate(400, AssertFailed) && SomeFits(hs[|ops| - 1].chunks, 400)
  {
    var n := RoundUp2M(size) / 8;
    hs, ops := FragmentedRun(n);
    var h := Fragmented(n);
    assert IsFree(h.chunks, 39) && NeedWords(400) <= h.chunks[39].size;
    assert ChosenTooSmall(h, 400, 0);
    assert Step(h, Allocate(400, AssertFailed), h);
    hs, ops := hs + [h], ops + [Allocate(400, AssertFailed)];
  }
}
