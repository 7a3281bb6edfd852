/** The heap seen as a set of chunks, without any memory word: what the allocator's memory
    stands for, and what allocating and freeing mean on it. Starts and sizes count 8-byte
    words. */
module AllocChunks {

  import opened AllocLayout

  /** A free chunk carries the time at which it was put on its list, so the order of a list
      is the order of stamps. A used chunk carries the byte count its item asked for. A loose
      chunk is one an operation is working on: it is on no list and its tags say nothing. */
  datatype Chunk =
    | Free(size: nat, stamp: nat)
    | Used(size: nat, item: nat)
    | Loose(size: nat)

  type Chunks = map<nat, Chunk>

  const MIN_WORDS := 4

  ghost function End(cs: Chunks, s: nat): nat
    requires s in cs
  {
    s + cs[s].size
  }

  ghost predicate IsFree(cs: Chunks, s: nat) {
    s in cs && cs[s].Free?
  }

  ghost predicate IsUsed(cs: Chunks, s: nat) {
    s in cs && cs[s].Used?
  }

  ghost predicate IsLoose(cs: Chunks, s: nat) {
    s in cs && cs[s].Loose?
  }

  ghost function Class(words: nat): (c: nat)
    requires words >= MIN_WORDS
    ensures c < NUM_CLASSES
  {
    SizeToClassRoundDown(8 * words)
  }

  /** Chunk `s` is free and belongs on the list of class `c`. */
  ghost predicate FreeOf(cs: Chunks, s: nat, c: nat) {
    IsFree(cs, s) && cs[s].size >= MIN_WORDS && Class(cs[s].size) == c
  }

  /** Chunk `s` is followed by another chunk, or by the end of the heap. */
  ghost predicate Followed(cs: Chunks, n: nat, s: nat)
    requires s in cs
  {
    End(cs, s) == n || End(cs, s) in cs
  }

  /** Chunk `s` ends no later than chunk `t` starts. */
  ghost predicate Before(cs: Chunks, s: nat, t: nat)
    requires s in cs
  {
    End(cs, s) <= t
  }

  /** The chunks cover words 0..n exactly, without gap or overlap. */
  ghost predicate Tiled(cs: Chunks, n: nat) {
    && 0 in cs
    && (forall s: nat {:trigger cs[s]} :: s in cs ==> cs[s].size >= MIN_WORDS && s + cs[s].size <= n)
    && (forall s: nat {:trigger Followed(cs, n, s)} :: s in cs ==> Followed(cs, n, s))
    && (forall s: nat, t: nat {:trigger Before(cs, s, t)} :: s in cs && t in cs && s < t ==> Before(cs, s, t))
  }

  /** `s` and the chunk after it are not both free. */
  ghost predicate Apart(cs: Chunks, s: nat)
    requires s in cs
  {
    IsFree(cs, s) ==> !IsFree(cs, End(cs, s))
  }

  /** No two neighbouring chunks are both free. */
  ghost predicate Coalesced(cs: Chunks) {
    forall s: nat {:trigger Apart(cs, s)} :: s in cs ==> Apart(cs, s)
  }

  /** Stamps are past and distinct. */
  ghost predicate Stamped(cs: Chunks, clock: nat) {
    && (forall s: nat {:trigger cs[s]} :: s in cs && cs[s].Free? ==> cs[s].stamp < clock)
    && (forall s: nat, t: nat {:trigger cs[s], cs[t]} ::
          s in cs && cs[s].Free? && t in cs && cs[t].Free? && s != t ==> cs[s].stamp != cs[t].stamp)
  }

  ghost predicate NoLoose(cs: Chunks) {
    forall s: nat {:trigger cs[s]} :: s in cs ==> !cs[s].Loose?
  }

  /** Words a request of `itemSize` bytes needs, its two tags included. */
  function NeedWords(itemSize: nat): nat {
    (itemSize + 7) / 8 + OVERHEAD / 8
  }

  /** Every used chunk is large enough for the item it was given to. */
  ghost predicate ItemsFit(cs: Chunks) {
    forall s: nat {:trigger cs[s]} :: s in cs && cs[s].Used? ==> cs[s].item <= 8 * (cs[s].size - 2)
  }

  /** What every operation keeps. */
  ghost predicate Inv(cs: Chunks, n: nat, clock: nat) {
    Tiled(cs, n) && Coalesced(cs) && Stamped(cs, clock) && NoLoose(cs) && ItemsFit(cs)
  }

  // ---------------------------------------------------------------------------
  // Small steps
  // ---------------------------------------------------------------------------

  ghost function Loosen(cs: Chunks, s: nat): Chunks
    requires s in cs
  {
    cs[s := Loose(cs[s].size)]
  }

  ghost function Merge(cs: Chunks, s: nat): Chunks
    requires s in cs && End(cs, s) in cs
  {
    map t | t in cs && t != End(cs, s) ::
      if t == s then Loose(cs[s].size + cs[End(cs, s)].size) else cs[t]
  }

  ghost function Split(cs: Chunks, s: nat, k: nat): Chunks
    requires s in cs && k <= cs[s].size
  {
    cs[s := Loose(k)][s + k := Loose(cs[s].size - k)]
  }

  ghost function MakeFree(cs: Chunks, s: nat, stamp: nat): Chunks
    requires s in cs
  {
    cs[s := Free(cs[s].size, stamp)]
  }

  ghost function MakeUsed(cs: Chunks, s: nat, item: nat): Chunks
    requires s in cs
  {
    cs[s := Used(cs[s].size, item)]
  }

  /** Neither neighbour of `s` is free. */
  ghost predicate LeftNotFree(cs: Chunks, s: nat) {
    forall t: nat {:trigger cs[t]} :: t in cs && cs[t].Free? ==> t + cs[t].size != s
  }

  ghost predicate RightNotFree(cs: Chunks, s: nat)
    requires s in cs
  {
    !IsFree(cs, End(cs, s))
  }

  /** Changing what a chunk is, but not its extent, keeps the tiling. */
  lemma RelabelKeepsTiling(cs: Chunks, n: nat, s: nat, k: Chunk)
    requires Tiled(cs, n) && s in cs && k.size == cs[s].size
    ensures Tiled(cs[s := k], n)
  {
    var cs' := cs[s := k];
    forall t: nat | t in cs' ensures Followed(cs', n, t) {
      assert Followed(cs, n, t);
    }
    forall t: nat, u: nat | t in cs' && u in cs' && t < u ensures Before(cs', t, u) {
      assert Before(cs, t, u);
    }
  }

  lemma MergeKeepsTiling(cs: Chunks, n: nat, s: nat)
    requires Tiled(cs, n) && s in cs && End(cs, s) in cs
    ensures Tiled(Merge(cs, s), n)
  {
    var r := End(cs, s);
    var cs' := Merge(cs, s);
    forall t: nat | t in cs' ensures Followed(cs', n, t) {
      assert Followed(cs, n, t) && Followed(cs, n, r);
      assert t < s ==> Before(cs, t, s);
      assert s < t ==> Before(cs, s, t);
    }
    forall t: nat, u: nat | t in cs' && u in cs' && t < u ensures Before(cs', t, u) {
      assert Before(cs, t, u);
      assert t == s ==> Before(cs, r, u);
    }
  }

  lemma SplitKeepsTiling(cs: Chunks, n: nat, s: nat, k: nat)
    requires Tiled(cs, n) && s in cs && MIN_WORDS <= k && k + MIN_WORDS <= cs[s].size
    ensures Tiled(Split(cs, s, k), n)
  {
    var cs' := Split(cs, s, k);
    InsideNoChunk(cs, n, s, s + k);
    forall t: nat | t in cs'
      ensures cs'[t].size >= MIN_WORDS && t + cs'[t].size <= n && Followed(cs', n, t)
    {
      assert Followed(cs, n, if t == s + k then s else t);
    }
    forall t: nat, u: nat | t in cs' && u in cs' && t < u ensures Before(cs', t, u) {
      var t0 := if t == s + k then s else t;
      var u0 := if u == s + k then s else u;
      assert t0 < u0 ==> Before(cs, t0, u0);
      assert u0 < t0 ==> Before(cs, u0, t0);
    }
  }

  lemma InsideNoChunk(cs: Chunks, n: nat, s: nat, i: nat)
    requires Tiled(cs, n) && s in cs && s < i < End(cs, s)
    ensures i !in cs
  {
    assert i in cs ==> Before(cs, s, i);
  }

  /** Every chunk but the first has a left neighbour. */
  lemma LeftNeighbour(cs: Chunks, n: nat, s: nat, from: nat) returns (l: nat)
    requires Tiled(cs, n) && s in cs && from in cs && from < s
    ensures l in cs && End(cs, l) == s
    decreases s - from
  {
    assert Before(cs, from, s) && Followed(cs, n, from);
    if End(cs, from) == s {
      l := from;
    } else {
      assert cs[s].size > 0 && cs[from].size > 0;
      l := LeftNeighbour(cs, n, s, End(cs, from));
    }
  }

  // ---------------------------------------------------------------------------
  // Allocating
  // ---------------------------------------------------------------------------

  /** The class the search starts from. */
  ghost function FirstClass(itemSize: nat): nat
    requires itemSize > 8
  {
    SizeToClassRoundUp(8 * NeedWords(itemSize))
  }

  /** `s` is what the search settles on: it lies in the lowest non-empty class from
      `c` upwards and is the chunk most recently put on that class's list. */
  ghost predicate Chosen(cs: Chunks, c: nat, s: nat) {
    && IsFree(cs, s) && cs[s].size >= MIN_WORDS
    && c <= Class(cs[s].size)
    && forall t: nat {:trigger cs[t]} :: t in cs && cs[t].Free? && cs[t].size >= MIN_WORDS && c <= Class(cs[t].size) ==>
         && Class(cs[s].size) <= Class(cs[t].size)
         && (Class(cs[s].size) == Class(cs[t].size) ==> cs[t].stamp <= cs[s].stamp)
  }

  ghost predicate NoneFrom(cs: Chunks, c: nat) {
    forall t: nat {:trigger cs[t]} :: t in cs && cs[t].Free? && cs[t].size >= MIN_WORDS ==> Class(cs[t].size) < c
  }

  /** Chunk `s` given to an item: what is left over becomes a free chunk of its own when
      it is large enough to be one. */
  ghost function Carve(cs: Chunks, s: nat, need: nat, item: nat, clock: nat): Chunks
    requires s in cs && need <= cs[s].size
  {
    if cs[s].size - need >= MIN_WORDS then
      cs[s := Used(need, item)][s + need := Free(cs[s].size - need, clock)]
    else
      cs[s := Used(cs[s].size, item)]
  }

  // ---------------------------------------------------------------------------
  // Freeing
  // ---------------------------------------------------------------------------

  ghost predicate HasFreeLeft(cs: Chunks, s: nat) {
    exists l: nat {:trigger cs[l]} :: l in cs && cs[l].Free? && l + cs[l].size == s
  }

  ghost function FreeLeft(cs: Chunks, s: nat): (l: nat)
    requires HasFreeLeft(cs, s)
    ensures IsFree(cs, l) && l + cs[l].size == s
  {
    var l: nat :| IsFree(cs, l) && l + cs[l].size == s; l
  }

  /** Where the free chunk made by freeing `s` starts and ends. */
  ghost function LowEnd(cs: Chunks, s: nat): nat {
    if HasFreeLeft(cs, s) then FreeLeft(cs, s) else s
  }

  ghost function HighEnd(cs: Chunks, s: nat): nat
    requires s in cs
  {
    if IsFree(cs, End(cs, s)) then End(cs, End(cs, s)) else End(cs, s)
  }

  /** `s` freed: one free chunk stands where `s` and its free neighbours stood. */
  ghost function Release(cs: Chunks, s: nat, clock: nat): Chunks
    requires s in cs
  {
    map t | t in cs && (t <= LowEnd(cs, s) || HighEnd(cs, s) <= t) ::
      if t == LowEnd(cs, s) then Free(HighEnd(cs, s) - t, clock) else cs[t]
  }

  // ---------------------------------------------------------------------------
  // What allocating and freeing keep
  // ---------------------------------------------------------------------------

  /** Carving is splitting off the tail (when there is one) and using the front. */
  lemma CarveKeepsTiling(cs: Chunks, n: nat, s: nat, need: nat, item: nat, clock: nat)
    requires Tiled(cs, n) && s in cs && MIN_WORDS <= need <= cs[s].size
    ensures Tiled(Carve(cs, s, need, item, clock), n)
  {
    var rest := cs[s].size - need;
    if rest >= MIN_WORDS {
      var split := Split(cs, s, need);
      SplitKeepsTiling(cs, n, s, need);
      RelabelKeepsTiling(split, n, s, Used(need, item));
      RelabelKeepsTiling(MakeUsed(split, s, item), n, s + need, Free(rest, clock));
      assert Carve(cs, s, need, item, clock) == MakeFree(MakeUsed(split, s, item), s + need, clock);
    } else {
      RelabelKeepsTiling(cs, n, s, Used(cs[s].size, item));
    }
  }

  lemma CarveKeepsApart(cs: Chunks, n: nat, s: nat, need: nat, item: nat, clock: nat)
    requires Tiled(cs, n) && Coalesced(cs) && IsFree(cs, s) && MIN_WORDS <= need <= cs[s].size
    ensures Coalesced(Carve(cs, s, need, item, clock))
  {
    var cs' := Carve(cs, s, need, item, clock);
    assert Apart(cs, s);
    forall t: nat | IsFree(cs', t) ensures Apart(cs', t) {
      if t == s + need && t !in cs {
        assert End(cs', t) == End(cs, s);
      } else {
        assert t in cs && t != s && cs'[t] == cs[t] by {
          if s < t { assert Before(cs, s, t); }
        }
        assert Apart(cs, t);
        if t < s { assert Before(cs, t, s); } else { assert Before(cs, s, t); }
      }
    }
    forall t: nat | t in cs' ensures Apart(cs', t) {
    }
  }

  lemma CarveKeepsInv(cs: Chunks, n: nat, s: nat, need: nat, item: nat, clock: nat)
    requires Inv(cs, n, clock) && IsFree(cs, s) && MIN_WORDS <= need <= cs[s].size
    requires item <= 8 * (need - 2)
    ensures Inv(Carve(cs, s, need, item, clock), n, clock + 1)
  {
    CarveKeepsTiling(cs, n, s, need, item, clock);
    CarveKeepsApart(cs, n, s, need, item, clock);
  }

  /** Joining loose chunk `s` with a free left or right neighbour, if there is one. */
  ghost function JoinLeft(cs: Chunks, s: nat): Chunks
    requires s in cs
  {
    if HasFreeLeft(cs, s) then Merge(Loosen(cs, FreeLeft(cs, s)), FreeLeft(cs, s)) else cs
  }

  ghost function JoinRight(cs: Chunks, s: nat): Chunks
    requires s in cs
  {
    if IsFree(cs, End(cs, s)) then Merge(Loosen(cs, End(cs, s)), s) else cs
  }

  lemma LeftIsUnique(cs: Chunks, n: nat, s: nat, l: nat)
    requires Tiled(cs, n) && IsFree(cs, l) && End(cs, l) == s
    ensures HasFreeLeft(cs, s) && FreeLeft(cs, s) == l && LowEnd(cs, s) == l
  {
    assert HasFreeLeft(cs, s) by { assert l + cs[l].size == s; }
    EndsUnique(cs, n, FreeLeft(cs, s), l);
  }

  lemma EndsUnique(cs: Chunks, n: nat, s: nat, t: nat)
    requires Tiled(cs, n) && s in cs && t in cs && End(cs, s) == End(cs, t)
    ensures s == t
  {
    assert s < t ==> Before(cs, s, t);
    assert t < s ==> Before(cs, t, s);
    assert cs[s].size > 0 && cs[t].size > 0;
  }

  lemma LoosenKeeps(cs: Chunks, n: nat, s: nat, clock: nat)
    requires Tiled(cs, n) && Coalesced(cs) && Stamped(cs, clock) && s in cs
    ensures Tiled(Loosen(cs, s), n) && Coalesced(Loosen(cs, s)) && Stamped(Loosen(cs, s), clock)
  {
    var cs' := Loosen(cs, s);
    RelabelKeepsTiling(cs, n, s, Loose(cs[s].size));
    forall t: nat | t in cs' ensures Apart(cs', t) {
      assert Apart(cs, t);
    }
  }

  lemma MergeKeeps(cs: Chunks, n: nat, s: nat, clock: nat)
    requires Tiled(cs, n) && Coalesced(cs) && Stamped(cs, clock)
    requires IsLoose(cs, s) && IsLoose(cs, End(cs, s))
    ensures Tiled(Merge(cs, s), n) && Coalesced(Merge(cs, s)) && Stamped(Merge(cs, s), clock)
  {
    var cs' := Merge(cs, s);
    MergeKeepsTiling(cs, n, s);
    forall t: nat | t in cs' ensures Apart(cs', t) {
      assert Apart(cs, t);
    }
  }

  /** After joining to the left nothing free touches the joined chunk on that side. */
  lemma JoinLeftKeeps(cs: Chunks, n: nat, s: nat, clock: nat)
    requires Tiled(cs, n) && Coalesced(cs) && Stamped(cs, clock) && IsLoose(cs, s)
    ensures var cs' := JoinLeft(cs, s);
            && Tiled(cs', n) && Coalesced(cs') && Stamped(cs', clock)
            && IsLoose(cs', LowEnd(cs, s)) && LeftNotFree(cs', LowEnd(cs, s))
            && End(cs', LowEnd(cs, s)) == End(cs, s)
  {
    if HasFreeLeft(cs, s) {
      var l := FreeLeft(cs, s);
      LoosenKeeps(cs, n, l, clock);
      MergeKeeps(Loosen(cs, l), n, l, clock);
      forall t: nat | IsFree(JoinLeft(cs, s), t) ensures t + cs[t].size != l {
        assert Apart(cs, t);
      }
    } else {
      forall t: nat | IsFree(cs, t) ensures t + cs[t].size != s {
      }
    }
  }

  lemma JoinRightKeeps(cs: Chunks, n: nat, s: nat, clock: nat)
    requires Tiled(cs, n) && Coalesced(cs) && Stamped(cs, clock) && IsLoose(cs, s) && LeftNotFree(cs, s)
    ensures var cs' := JoinRight(cs, s);
            && Tiled(cs', n) && Coalesced(cs') && Stamped(cs', clock)
            && IsLoose(cs', s) && LeftNotFree(cs', s) && RightNotFree(cs', s)
            && End(cs', s) == HighEnd(cs, s)
  {
    var r := End(cs, s);
    if IsFree(cs, r) {
      LoosenKeeps(cs, n, r, clock);
      MergeKeeps(Loosen(cs, r), n, s, clock);
      assert Apart(cs, r);
    }
  }

  lemma MakeFreeKeeps(cs: Chunks, n: nat, s: nat, clock: nat)
    requires Tiled(cs, n) && Coalesced(cs) && Stamped(cs, clock)
    requires s in cs && LeftNotFree(cs, s) && RightNotFree(cs, s)
    ensures var cs' := MakeFree(cs, s, clock);
            Tiled(cs', n) && Coalesced(cs') && Stamped(cs', clock + 1)
  {
    var cs' := MakeFree(cs, s, clock);
    RelabelKeepsTiling(cs, n, s, Free(cs[s].size, clock));
    forall t: nat | t in cs' ensures Apart(cs', t) {
      assert Apart(cs, t);
    }
  }

  lemma JoinLeftShape(cs: Chunks, n: nat, s: nat)
    requires Tiled(cs, n) && IsLoose(cs, s)
    ensures var l := LowEnd(cs, s);
            var cs' := JoinLeft(cs, s);
            && cs'.Keys == (if l == s then cs.Keys else cs.Keys - {s})
            && l in cs' && l in cs && cs'[l] == Loose(End(cs, s) - l)
            && forall t: nat :: t in cs' && t != l ==> cs'[t] == cs[t]
  {
  }

  lemma JoinRightShape(cs: Chunks, n: nat, s: nat)
    requires Tiled(cs, n) && IsLoose(cs, s)
    ensures var h := HighEnd(cs, s);
            var cs' := JoinRight(cs, s);
            && cs'.Keys == (if h == End(cs, s) then cs.Keys else cs.Keys - {End(cs, s)})
            && s in cs' && cs'[s] == Loose(h - s)
            && forall t: nat :: t in cs' && t != s ==> cs'[t] == cs[t]
  {
    assert IsFree(cs, End(cs, s)) ==> cs[End(cs, s)].size > 0;
  }

  lemma LoosenKeepsLowEnd(cs: Chunks, n: nat, s: nat)
    requires Tiled(cs, n) && IsUsed(cs, s)
    ensures LowEnd(Loosen(cs, s), s) == LowEnd(cs, s)
  {
    var cs0 := Loosen(cs, s);
    RelabelKeepsTiling(cs, n, s, Loose(cs[s].size));
    if HasFreeLeft(cs, s) {
      LeftIsUnique(cs0, n, s, LowEnd(cs, s));
    } else if HasFreeLeft(cs0, s) {
      LeftIsUnique(cs, n, s, FreeLeft(cs0, s));
    }
  }

  /** No chunk starts strictly between the ends of the released chunk but `s` and its right
      neighbour. */
  lemma NothingBetween(cs: Chunks, n: nat, s: nat, t: nat)
    requires Tiled(cs, n) && s in cs && t in cs
    requires LowEnd(cs, s) < t < HighEnd(cs, s)
    ensures t == s || (t == End(cs, s) && IsFree(cs, t))
  {
    var l := LowEnd(cs, s);
    assert Before(cs, l, t);
    assert s < t ==> Before(cs, s, t);
    var r := End(cs, s);
    assert IsFree(cs, r) && r < t ==> Before(cs, r, t);
    assert cs[t].size > 0;
  }

  /** `joined` is `cs` with used chunk `s` taken together with its free left neighbour. */
  ghost predicate JoinedLeft(cs: Chunks, s: nat, joined: Chunks)
    requires s in cs
  {
    var l := LowEnd(cs, s);
    && joined.Keys == (if l == s then cs.Keys else cs.Keys - {s})
    && l in joined && joined[l] == Loose(End(cs, s) - l)
    && forall t: nat :: t in joined && t != l ==> joined[t] == cs[t]
  }

  lemma JoinLeftIsJoined(cs: Chunks, n: nat, s: nat)
    requires Tiled(cs, n) && IsUsed(cs, s)
    ensures LowEnd(cs, s) == LowEnd(Loosen(cs, s), s)
    ensures JoinedLeft(cs, s, JoinLeft(Loosen(cs, s), s))
  {
    LoosenKeepsLowEnd(cs, n, s);
    RelabelKeepsTiling(cs, n, s, Loose(cs[s].size));
    JoinLeftShape(Loosen(cs, s), n, s);
  }

  lemma JoinRightReleases(cs: Chunks, n: nat, s: nat, clock: nat, joined: Chunks)
    requires Tiled(cs, n) && IsUsed(cs, s) && Tiled(joined, n) && JoinedLeft(cs, s, joined)
    ensures var l := LowEnd(cs, s); MakeFree(JoinRight(joined, l), l, clock) == Release(cs, s, clock)
  {
    var l, r, h := LowEnd(cs, s), End(cs, s), HighEnd(cs, s);
    assert r in joined <==> r in cs;
    assert r in cs ==> joined[r] == cs[r];
    assert HighEnd(joined, l) == h;
    JoinRightShape(joined, n, l);
    JoinedIsReleased(cs, n, s, clock, MakeFree(JoinRight(joined, l), l, clock));
  }

  /** The joined chunk, made free: the same as one free chunk in place of `s` and its free
      neighbours. */
  lemma ReleaseIsJoining(cs: Chunks, n: nat, s: nat, clock: nat)
    requires Tiled(cs, n) && Coalesced(cs) && Stamped(cs, clock) && IsUsed(cs, s)
    ensures var l := LowEnd(cs, s);
            var joined := JoinLeft(Loosen(cs, s), s);
            && l == LowEnd(Loosen(cs, s), s)
            && l in joined
            && MakeFree(JoinRight(joined, l), l, clock) == Release(cs, s, clock)
  {
    var cs0 := Loosen(cs, s);
    LoosenKeeps(cs, n, s, clock);
    JoinLeftIsJoined(cs, n, s);
    JoinLeftKeeps(cs0, n, s, clock);
    JoinRightReleases(cs, n, s, clock, JoinLeft(cs0, s));
  }

  lemma JoinedIsReleased(cs: Chunks, n: nat, s: nat, clock: nat, cs': Chunks)
    requires Tiled(cs, n) && IsUsed(cs, s)
    requires var l, r, h := LowEnd(cs, s), End(cs, s), HighEnd(cs, s);
             && cs'.Keys == cs.Keys - (if l == s then {} else {s}) - (if h == r then {} else {r})
             && l in cs' && cs'[l] == Free(h - l, clock)
             && forall t: nat :: t in cs' && t != l ==> cs'[t] == cs[t]
    ensures cs' == Release(cs, s, clock)
  {
    var l, r, h := LowEnd(cs, s), End(cs, s), HighEnd(cs, s);
    forall t: nat | t in cs ensures t in cs' <==> t <= l || h <= t {
      if l < t < h { NothingBetween(cs, n, s, t); }
      assert h != r ==> cs[r].size > 0;
    }
  }

  lemma ReleaseKeepsChunks(cs: Chunks, n: nat, s: nat, clock: nat)
    requires Tiled(cs, n) && Coalesced(cs) && Stamped(cs, clock) && IsUsed(cs, s)
    ensures var cs' := Release(cs, s, clock);
            Tiled(cs', n) && Coalesced(cs') && Stamped(cs', clock + 1)
  {
    var cs0 := Loosen(cs, s);
    var l := LowEnd(cs, s);
    LoosenKeeps(cs, n, s, clock);
    ReleaseIsJoining(cs, n, s, clock);
    JoinLeftKeeps(cs0, n, s, clock);
    var cs1 := JoinLeft(cs0, s);
    JoinRightKeeps(cs1, n, l, clock);
    var cs2 := JoinRight(cs1, l);
    MakeFreeKeeps(cs2, n, l, clock);
  }

  lemma ReleaseKeepsInv(cs: Chunks, n: nat, s: nat, clock: nat)
    requires Inv(cs, n, clock) && IsUsed(cs, s)
    ensures Inv(Release(cs, s, clock), n, clock + 1)
  {
    ReleaseKeepsChunks(cs, n, s, clock);
  }

  /** `s` is the one chunk being worked on. */
  ghost predicate OnlyLoose(cs: Chunks, s: nat) {
    s in cs && cs[s].Loose? && forall t: nat {:trigger cs[t]} :: t in cs && cs[t].Loose? ==> t == s
  }

  lemma UsedLeft(cs: Chunks, n: nat, s: nat, l: nat)
    requires Tiled(cs, n) && s in cs && l in cs && End(cs, l) == s && !IsFree(cs, l)
    ensures !HasFreeLeft(cs, s) && LowEnd(cs, s) == s && JoinLeft(cs, s) == cs
  {
    if HasFreeLeft(cs, s) { EndsUnique(cs, n, FreeLeft(cs, s), l); }
  }

  lemma NoLeft(cs: Chunks, n: nat)
    requires Tiled(cs, n)
    ensures !HasFreeLeft(cs, 0) && LowEnd(cs, 0) == 0 && JoinLeft(cs, 0) == cs
  {
  }

  lemma NoChunkAtEnd(cs: Chunks, n: nat)
    requires Tiled(cs, n)
    ensures n !in cs
  {
  }

  lemma JoinLeftStep(cs: Chunks, n: nat, s: nat, l: nat)
    requires Tiled(cs, n) && OnlyLoose(cs, s) && IsFree(cs, l) && End(cs, l) == s
    ensures var cs1 := Loosen(cs, l);
            && IsLoose(cs1, l) && End(cs1, l) == s && IsLoose(cs1, s)
            && Merge(cs1, l) == JoinLeft(cs, s) && LowEnd(cs, s) == l
            && OnlyLoose(Merge(cs1, l), l) && Merge(cs1, l)[l].size == cs[l].size + cs[s].size
  {
    LeftIsUnique(cs, n, s, l);
    var cs2 := Merge(Loosen(cs, l), l);
    assert forall t: nat {:trigger cs2[t]} :: t in cs2 && t != l ==> cs2[t] == cs[t];
  }

  lemma JoinRightStep(cs: Chunks, n: nat, s: nat)
    requires Tiled(cs, n) && OnlyLoose(cs, s) && IsFree(cs, End(cs, s))
    ensures var r := End(cs, s);
            var cs1 := Loosen(cs, r);
            && IsLoose(cs1, s) && End(cs1, s) == r && IsLoose(cs1, r)
            && Merge(cs1, s) == JoinRight(cs, s)
            && OnlyLoose(Merge(cs1, s), s) && Merge(cs1, s)[s].size == cs[s].size + cs[r].size
  {
    var cs2 := Merge(Loosen(cs, End(cs, s)), s);
    assert forall t: nat {:trigger cs2[t]} :: t in cs2 && t != s ==> cs2[t] == cs[t];
  }

  /** Used chunks of `cs'` are used chunks of `cs`, unchanged. */
  ghost predicate UsedWithin(cs': Chunks, cs: Chunks) {
    forall t: nat {:trigger cs'[t]} :: t in cs' && cs'[t].Used? ==> t in cs && cs[t] == cs'[t]
  }

  lemma LoosenOnly(cs: Chunks, s: nat)
    requires NoLoose(cs) && s in cs
    ensures OnlyLoose(Loosen(cs, s), s) && UsedWithin(Loosen(cs, s), cs)
  {
    var cs' := Loosen(cs, s);
    assert forall t: nat {:trigger cs'[t]} :: t in cs' && t != s ==> cs'[t] == cs[t];
  }

  lemma JoinsUsed(cs: Chunks, n: nat, s: nat, clock: nat)
    requires Tiled(cs, n) && IsLoose(cs, s)
    ensures UsedWithin(JoinLeft(cs, s), cs) && UsedWithin(JoinRight(cs, s), cs)
    ensures UsedWithin(MakeFree(cs, s, clock), cs)
  {
    JoinLeftShape(cs, n, s);
    JoinRightShape(cs, n, s);
  }

  /** The stages of freeing `s`. */
  lemma ReleaseFirstStage(cs: Chunks, n: nat, s: nat, clock: nat)
    requires Inv(cs, n, clock) && IsUsed(cs, s)
    ensures var l := LowEnd(cs, s);
            var cs1 := Loosen(cs, s);
            var cs2 := JoinLeft(cs1, s);
            && OnlyLoose(cs1, s) && l == LowEnd(cs1, s) && UsedWithin(cs1, cs)
            && Tiled(cs2, n) && Coalesced(cs2) && Stamped(cs2, clock)
            && IsLoose(cs2, l) && LeftNotFree(cs2, l) && UsedWithin(cs2, cs1)
  {
    var cs1 := Loosen(cs, s);
    LoosenOnly(cs, s);
    LoosenKeeps(cs, n, s, clock);
    LoosenKeepsLowEnd(cs, n, s);
    JoinLeftKeeps(cs1, n, s, clock);
    JoinsUsed(cs1, n, s, clock);
  }

  lemma ReleaseSecondStage(cs: Chunks, n: nat, l: nat, clock: nat)
    requires Tiled(cs, n) && Coalesced(cs) && Stamped(cs, clock) && IsLoose(cs, l) && LeftNotFree(cs, l)
    ensures var cs3 := JoinRight(cs, l);
            && IsLoose(cs3, l) && LeftNotFree(cs3, l) && RightNotFree(cs3, l) && UsedWithin(cs3, cs)
            && UsedWithin(MakeFree(cs3, l, clock), cs3)
  {
    JoinRightKeeps(cs, n, l, clock);
    JoinsUsed(cs, n, l, clock);
    JoinsUsed(JoinRight(cs, l), n, l, clock);
  }

  /** Loose chunk `s` cut down to `need` words, the tail becoming free when large enough. */
  ghost function Trim(cs: Chunks, s: nat, need: nat, clock: nat): Chunks
    requires s in cs && need <= cs[s].size
  {
    if cs[s].size - need >= MIN_WORDS then MakeFree(Split(cs, s, need), s + need, clock) else cs
  }

  lemma SplitTail(cs: Chunks, n: nat, s: nat, need: nat)
    requires Tiled(cs, n) && IsLoose(cs, s) && RightNotFree(cs, s)
    requires MIN_WORDS <= need && need + MIN_WORDS <= cs[s].size
    ensures var cs2 := Split(cs, s, need);
            && IsLoose(cs2, s + need) && LeftNotFree(cs2, s + need) && RightNotFree(cs2, s + need)
            && UsedWithin(cs2, cs) && UsedWithin(cs, cs2)
  {
    InsideNoChunk(cs, n, s, s + need);
    var cs2 := Split(cs, s, need);
    assert Followed(cs, n, s);
    forall t: nat | IsFree(cs2, t) ensures t + cs2[t].size != s + need {
      assert t < s ==> Before(cs, t, s);
      assert s < t ==> Before(cs, s, t);
    }
  }

  /** The stages of carving an item out of free chunk `s`. */
  lemma CarveStages(cs: Chunks, n: nat, s: nat, need: nat, item: nat, clock: nat)
    requires Inv(cs, n, clock) && IsFree(cs, s) && MIN_WORDS <= need <= cs[s].size
    ensures var cs1 := Loosen(cs, s);
            && RightNotFree(cs1, s) && UsedWithin(cs, cs1)
            && MakeUsed(Trim(cs1, s, need, clock), s, item) == Carve(cs, s, need, item, clock)
  {
    assert Apart(cs, s);
  }
}
