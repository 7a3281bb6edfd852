/** The segregated-fit allocator working in place on its memory (mica/alloc/alloc.c). */
module Allocator {

  import opened AllocLayout
  import opened AllocChunks
  import opened AllocRuns
  import opened AllocMemory

  /** What the search for a chunk finds. */
  datatype Found = NoSpace | TooSmall | Got(start: nat, words: nat)

  class Alloc {
    const base: nat
    const mem: array<nat>
    const freeHead: array<nat>
    ghost var chunks: Chunks
    ghost var clock: nat

    /** Memory, lists and chunks agree; some chunks may be loose. */
    ghost predicate Rep()
      reads this, mem, freeHead
    {
      && mem != freeHead
      && 8 * mem.Length <= MAX_SIZE
      && Sound(mem[..], freeHead[..], base, chunks, clock)
    }

    ghost predicate Valid()
      reads this, mem, freeHead
    {
      Rep() && NoLoose(chunks) && ItemsFit(chunks)
    }

    ghost function View(): Heap
      reads this
    {
      Heap(chunks, clock)
    }

    /** mica_alloc_init: the size is rounded up to whole 2 MB pages. */
    constructor (size: nat, base: nat)
      requires 0 < size && RoundUp2M(size) <= MAX_SIZE && base > 0
      ensures Valid() && fresh(mem) && fresh(freeHead) && this.base == base
      ensures 8 * mem.Length == RoundUp2M(size)
      ensures View() == Fresh(mem.Length)
    {
      this.base := base;
      RoundUp2MWords(size);
      mem := new nat[RoundUp2M(size) / 8](_ => 0);
      freeHead := new nat[NUM_CLASSES](_ => NULL);
      chunks, clock := map[], 0;
      new;
      Reset();
    }

    /** mica_alloc_reset: whatever the heap held, it becomes one free chunk. */
    method Reset()
      requires mem != freeHead && freeHead.Length == NUM_CLASSES && base > 0
      requires MIN_SIZE <= 8 * mem.Length <= MAX_SIZE
      modifies this`chunks, this`clock, mem, freeHead
      ensures Valid() && View() == Fresh(mem.Length)
    {
      for i := 0 to NUM_CLASSES
        invariant forall d :: 0 <= d < i ==> freeHead[d] == NULL
      {
        freeHead[i] := NULL;
      }
      chunks, clock := map[0 := Loose(mem.Length)], 0;
      OneLoose(mem[..], freeHead[..], base);
      InsertFreeChunk(0, mem.Length);
    }

    /** mica_alloc_remove_free_chunk_from_free_list */
    method RemoveFromFreeList(start: nat, words: nat)
      requires Rep() && IsFree(chunks, start) && chunks[start].size == words
      modifies this`chunks, mem, freeHead
      ensures Rep() && chunks == Loosen(old(chunks), start)
      ensures SameUsed(old(mem[..]), mem[..], old(chunks))
    {
      ghost var m, h := mem[..], freeHead[..];
      UnlinkSound(m, h, base, chunks, clock, start);
      var prev := mem[start + 1];
      var next := mem[start + 2];
      if prev != NULL {
        mem[prev - base + 2] := next;
      } else {
        var c := SizeToClassRoundDown(8 * words);
        assert freeHead[c] == base + start;
        freeHead[c] := next;
      }
      if next != NULL {
        mem[next - base + 1] := prev;
      }
      assert mem[..] == UnlinkMem(m, base, start);
      assert freeHead[..] == UnlinkHeads(m, h, Class(words), start);
      chunks := Loosen(chunks, start);
    }

    /** mica_alloc_insert_free_chunk */
    method InsertFreeChunk(start: nat, words: nat)
      requires Rep() && IsLoose(chunks, start) && chunks[start].size == words
      requires LeftNotFree(chunks, start) && RightNotFree(chunks, start)
      modifies this`chunks, this`clock, mem, freeHead
      ensures Rep() && chunks == MakeFree(old(chunks), start, old(clock)) && clock == old(clock) + 1
      ensures SameUsed(old(mem[..]), mem[..], old(chunks))
    {
      ghost var m, h := mem[..], freeHead[..];
      PushSound(m, h, base, chunks, clock, start);
      var c := SizeToClassRoundDown(8 * words);
      mem[start + words - 1] := TagVec(8 * words, FREE);
      mem[start] := TagVec(8 * words, FREE);
      mem[start + 1] := NULL;
      mem[start + 2] := freeHead[c];
      if freeHead[c] != NULL {
        mem[freeHead[c] - base + 1] := base + start;
      }
      freeHead[c] := base + start;
      assert mem[..] == PushMem(m, h, base, start, words);
      assert freeHead[..] == PushHeads(h, base, start, words);
      chunks, clock := MakeFree(chunks, start, clock), clock + 1;
    }

    /** mica_alloc_remove_free_chunk_from_head */
    method RemoveFromHead(item: nat) returns (r: Found)
      requires Rep() && item > 8
      modifies this`chunks, mem, freeHead
      ensures Rep()
      ensures r.NoSpace? ==> Allocates(old(View()), item, View(), InsufficientSpace)
      ensures r.TooSmall? ==> Allocates(old(View()), item, View(), AssertFailed)
      ensures r.Got? ==> && Chosen(old(chunks), FirstClass(item), r.start)
                         && old(chunks)[r.start].size == r.words && NeedWords(item) <= r.words
                         && chunks == Loosen(old(chunks), r.start)
      ensures SameUsed(old(mem[..]), mem[..], old(chunks))
    {
      NeedHoldsItem(item);
      var minimum := RoundUp8(item) + OVERHEAD;
      ghost var first := SizeToClassRoundUp(minimum);
      var c := SizeToClassRoundUp(minimum);
      while c < NUM_CLASSES && freeHead[c] == NULL
        invariant first <= c <= NUM_CLASSES
        invariant forall d :: first <= d < c ==> freeHead[d] == NULL
      {
        c := c + 1;
      }
      if c == NUM_CLASSES {
        NoHeadMeansNone(mem[..], freeHead[..], base, chunks, clock, first);
        return NoSpace;
      }
      FirstHeadIsChosen(mem[..], freeHead[..], base, chunks, clock, first, c);
      var start := freeHead[c] - base;
      assert TagOk(mem[..], chunks, start) && chunks[start].size <= mem.Length;
      TagRoundTrip(8 * chunks[start].size, FREE);
      assert TagStatus(mem[start]) == FREE;
      var size := TagSize(mem[start]);
      if size < minimum {
        assert ChosenTooSmall(View(), item, start);
        return TooSmall;
      }
      RemoveFromFreeList(start, size / 8);
      return Got(start, size / 8);
    }

    /** mica_alloc_coalese_free_chunk_left */
    method CoalesceLeft(start: nat, words: nat) returns (start': nat, words': nat)
      requires Rep() && OnlyLoose(chunks, start) && chunks[start].size == words
      modifies this`chunks, mem, freeHead
      ensures Rep() && chunks == JoinLeft(old(chunks), start) && start' == LowEnd(old(chunks), start)
      ensures OnlyLoose(chunks, start') && chunks[start'].size == words'
      ensures SameUsed(old(mem[..]), mem[..], old(chunks))
    {
      ghost var cs, n := chunks, mem.Length;
      if start == 0 {
        NoLeft(cs, n);
        return start, words;
      }
      ghost var l := LeftNeighbour(cs, n, start, 0);
      ReadTag(mem[..], cs, l);
      if TagStatus(mem[start - 1]) == OCCUPIED {
        UsedLeft(cs, n, start, l);
        return start, words;
      }
      JoinLeftStep(cs, n, start, l);
      var adjWords := TagSize(mem[start - 1]) / 8;
      var adjStart := start - adjWords;
      RemoveFromFreeList(adjStart, adjWords);
      MergeSound(mem[..], freeHead[..], base, chunks, clock, adjStart);
      chunks := Merge(chunks, adjStart);
      return adjStart, words + adjWords;
    }

    /** mica_alloc_coalese_free_chunk_right */
    method CoalesceRight(start: nat, words: nat) returns (words': nat)
      requires Rep() && OnlyLoose(chunks, start) && chunks[start].size == words
      modifies this`chunks, mem, freeHead
      ensures Rep() && chunks == JoinRight(old(chunks), start)
      ensures OnlyLoose(chunks, start) && chunks[start].size == words'
      ensures SameUsed(old(mem[..]), mem[..], old(chunks))
    {
      ghost var cs, n := chunks, mem.Length;
      assert Followed(cs, n, start);
      if start + words == mem.Length {
        NoChunkAtEnd(cs, n);
        return words;
      }
      ReadTag(mem[..], cs, start + words);
      if TagStatus(mem[start + words]) == OCCUPIED {
        return words;
      }
      JoinRightStep(cs, n, start);
      var adjStart := start + words;
      var adjWords := TagSize(mem[adjStart]) / 8;
      RemoveFromFreeList(adjStart, adjWords);
      MergeSound(mem[..], freeHead[..], base, chunks, clock, start);
      chunks := Merge(chunks, start);
      return words + adjWords;
    }

    /** mica_alloc_deallocate. The caller passes the offset of an item it holds. */
    method Deallocate(offset: nat)
      requires Valid() && offset >= 8 && OffsetOf(StartOf(offset)) == offset && IsUsed(chunks, StartOf(offset))
      modifies this`chunks, this`clock, mem, freeHead
      ensures Valid() && Frees(old(View()), offset, View())
      ensures SameUsed(old(mem[..]), mem[..], chunks)
    {
      var start := StartOf(offset);
      ghost var m, cs, s := mem[..], chunks, start;
      ReadTag(m, cs, start);
      assert TagStatus(mem[start]) == OCCUPIED;
      var words := TagSize(mem[start]) / 8;
      ReleaseFirstStage(cs, |m|, start, clock);
      LoosenUsedSound(m, freeHead[..], base, cs, clock, start);
      chunks := Loosen(cs, start);
      ghost var cs1 := chunks;
      start, words := CoalesceLeft(start, words);
      ghost var m2, cs2 := mem[..], chunks;
      ReleaseSecondStage(cs2, |m|, start, clock);
      words := CoalesceRight(start, words);
      ghost var m3, cs3 := mem[..], chunks;
      SameUsedTrans(m, m2, m3, cs1, cs2);
      InsertFreeChunk(start, words);
      SameUsedTrans(m, m3, mem[..], cs2, cs3);
      FreeDone(Heap(cs, old(clock)), |m|, s, View());
    }

    /** The leftover part of mica_alloc_allocate: a tail large enough becomes a free chunk. */
    method TrimChunk(start: nat, words: nat, need: nat) returns (words': nat)
      requires Rep() && IsLoose(chunks, start) && chunks[start].size == words && RightNotFree(chunks, start)
      requires MIN_WORDS <= need <= words
      modifies this`chunks, this`clock, mem, freeHead
      ensures Rep() && chunks == Trim(old(chunks), start, need, old(clock)) && clock == old(clock) + 1
      ensures IsLoose(chunks, start) && chunks[start].size == words'
      ensures SameUsed(old(mem[..]), mem[..], old(chunks)) && UsedWithin(old(chunks), chunks)
    {
      if words - need >= MIN_WORDS {
        ghost var cs := chunks;
        SplitTail(cs, mem.Length, start, need);
        SplitSound(mem[..], freeHead[..], base, cs, clock, start, need);
        chunks := Split(cs, start, need);
        InsertFreeChunk(start + need, words - need);
        return need;
      }
      clock := clock + 1;
      return words;
    }

    /** The last part of mica_alloc_allocate: both tags and the item's size field. */
    method Occupy(start: nat, words: nat, item: nat)
      requires Rep() && IsLoose(chunks, start) && chunks[start].size == words
      modifies this`chunks, mem
      ensures Rep() && chunks == MakeUsed(old(chunks), start, item)
      ensures SameUsed(old(mem[..]), mem[..], old(chunks))
      ensures start + 1 < mem.Length && mem[start + 1] == item
    {
      ghost var m, cs := mem[..], chunks;
      OccupySound(m, freeHead[..], base, cs, clock, start, item);
      mem[start + words - 1] := TagVec(8 * words, OCCUPIED);
      mem[start] := TagVec(8 * words, OCCUPIED);
      ghost var m1 := mem[..];
      assert m1 == OccupyMem(m, start, words);
      chunks := MakeUsed(cs, start, item);
      ItemWriteSound(m1, freeHead[..], base, chunks, clock, start, start + 1, item);
      mem[start + 1] := item;
      assert mem[..] == m1[start + 1 := item];
      ItemWriteElsewhere(m, m1, cs, start, start + 1, item);
    }

    /** The part of mica_alloc_allocate after a chunk was found. `h` and `m` are the heap and
        memory allocation started from. */
    method CarveItem(start: nat, words: nat, item: nat, ghost h: Heap, ghost m: seq<nat>)
      requires Rep() && item > 8 && Inv(h.chunks, mem.Length, h.clock)
      requires Chosen(h.chunks, FirstClass(item), start) && NeedWords(item) <= words == h.chunks[start].size
      requires chunks == Loosen(h.chunks, start) && clock == h.clock && SameUsed(m, mem[..], h.chunks)
      modifies this`chunks, this`clock, mem, freeHead
      ensures Valid() && Allocates(h, item, View(), At(OffsetOf(start)))
      ensures SameUsed(m, mem[..], h.chunks)
      ensures start + 1 < mem.Length && mem[start + 1] == item
    {
      ghost var m1, cs1 := mem[..], chunks;
      NeedHoldsItem(item);
      CarveStages(h.chunks, mem.Length, start, NeedWords(item), item, clock);
      var rest := TrimChunk(start, words, NeedWords(item));
      ghost var m2, cs2 := mem[..], chunks;
      Occupy(start, rest, item);
      SameUsedBack(m1, m2, mem[..], cs1, cs2);
      SameUsedBack(m, m1, mem[..], h.chunks, cs1);
      AllocateDone(h, mem.Length, item, start, View());
    }

    /** mica_alloc_allocate */
    method Allocate(item: nat) returns (r: Outcome, ghost start: nat)
      requires Valid() && item > 8
      modifies this`chunks, this`clock, mem, freeHead
      ensures Valid() && Allocates(old(View()), item, View(), r)
      ensures SameUsed(old(mem[..]), mem[..], old(chunks))
      ensures r.At? ==> r.offset == OffsetOf(start) && start + 1 < mem.Length && mem[start + 1] == item
    {
      ghost var m, h := mem[..], View();
      var f := RemoveFromHead(item);
      if f.NoSpace? {
        return InsufficientSpace, 0;
      } else if f.TooSmall? {
        return AssertFailed, 0;
      }
      CarveItem(f.start, f.words, item, h, m);
      return At(OffsetOf(f.start)), f.start;
    }

    /** A caller writing word `k` of an item it holds. */
    method WriteItem(offset: nat, k: nat, v: nat)
      requires Valid() && offset >= 8 && IsUsed(chunks, StartOf(offset))
      requires 8 * k + 8 <= chunks[StartOf(offset)].item
      modifies mem
      ensures Valid()
      ensures StartOf(offset) + 1 + k < mem.Length
      ensures mem[..] == old(mem[..])[StartOf(offset) + 1 + k := v]
    {
      var i := StartOf(offset) + 1 + k;
      ItemWriteSound(mem[..], freeHead[..], base, chunks, clock, StartOf(offset), i, v);
      mem[i] := v;
      assert mem[..] == old(mem[..])[i := v];
    }
  }
}
