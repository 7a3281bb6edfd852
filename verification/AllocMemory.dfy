/** What the allocator's memory words say about its chunks. Memory is word-addressed: the
    heap is words `base` .. `base + |m|` of the address space, so a stored pointer is
    `base + start`, and since `base` is not 0 no chunk has the address NULL. */
module AllocMemory {

  import opened AllocLayout
  import opened AllocChunks

  const NULL := 0

  /** Both ends of a chunk that is not being worked on carry its tag. */
  ghost predicate Tagged(m: seq<nat>, cs: Chunks) {
    && Tiled(cs, |m|)
    && forall s: nat {:trigger cs[s]} :: s in cs ==> TagOk(m, cs, s)
  }

  ghost function Status(k: Chunk): nat {
    if k.Used? then OCCUPIED else FREE
  }

  ghost predicate TagOk(m: seq<nat>, cs: Chunks, s: nat)
    requires s in cs
  {
    cs[s].Loose? ||
    (&& 0 < cs[s].size && s + cs[s].size <= |m|
     && m[s] == m[s + cs[s].size - 1] == TagVec(8 * cs[s].size, Status(cs[s])))
  }

  /** `w` is a pointer to a free chunk of class `c`. */
  ghost predicate PointsTo(base: nat, cs: Chunks, w: nat, c: nat) {
    base <= w && FreeOf(cs, w - base, c)
  }

  /** The previous pointer of free chunk `s`: NULL exactly at the head of its list;
      otherwise the chunk it names points back here and was listed later. */
  ghost predicate PrevOk(m: seq<nat>, heads: seq<nat>, base: nat, cs: Chunks, s: nat)
    requires |heads| == NUM_CLASSES && Tiled(cs, |m|) && IsFree(cs, s)
  {
    var c := Class(cs[s].size);
    var w := m[s + 1];
    if w == NULL then heads[c] == base + s
    else
      && PointsTo(base, cs, w, c)
      && m[w - base + 2] == base + s
      && cs[w - base].stamp > cs[s].stamp
  }

  /** The next pointer of free chunk `s`: NULL, or a chunk that points back here and was
      listed earlier. */
  ghost predicate NextOk(m: seq<nat>, base: nat, cs: Chunks, s: nat)
    requires Tiled(cs, |m|) && IsFree(cs, s)
  {
    var w := m[s + 2];
    w == NULL ||
    (&& PointsTo(base, cs, w, Class(cs[s].size))
     && m[w - base + 1] == base + s
     && cs[w - base].stamp < cs[s].stamp)
  }

  ghost predicate HeadOk(m: seq<nat>, heads: seq<nat>, base: nat, cs: Chunks, c: nat)
    requires |heads| == NUM_CLASSES && c < NUM_CLASSES && Tiled(cs, |m|)
  {
    var w := heads[c];
    w == NULL || (PointsTo(base, cs, w, c) && m[w - base + 1] == NULL)
  }

  /** The free lists, stated chunk by chunk. */
  ghost predicate Linked(m: seq<nat>, heads: seq<nat>, base: nat, cs: Chunks) {
    && base > 0
    && |heads| == NUM_CLASSES
    && Tiled(cs, |m|)
    && (forall s: nat {:trigger PrevOk(m, heads, base, cs, s)} ::
          IsFree(cs, s) ==> PrevOk(m, heads, base, cs, s))
    && (forall s: nat {:trigger NextOk(m, base, cs, s)} :: IsFree(cs, s) ==> NextOk(m, base, cs, s))
    && (forall c: nat {:trigger HeadOk(m, heads, base, cs, c)} ::
          c < NUM_CLASSES ==> HeadOk(m, heads, base, cs, c))
  }

  // ---------------------------------------------------------------------------
  // The lists as sequences
  // ---------------------------------------------------------------------------

  /** Following next pointers from `w`. */
  ghost function Walk(m: seq<nat>, heads: seq<nat>, base: nat, cs: Chunks, w: nat, c: nat): seq<nat>
    requires Linked(m, heads, base, cs)
    requires w == NULL || PointsTo(base, cs, w, c)
    decreases if w == NULL then 0 else cs[w - base].stamp + 1
  {
    if w == NULL then []
    else
      assert NextOk(m, base, cs, w - base);
      [w - base] + Walk(m, heads, base, cs, m[w - base + 2], c)
  }

  /** `l` lists free chunks of class `c`, later stamps first. */
  ghost predicate Falling(cs: Chunks, c: nat, l: seq<nat>) {
    && (forall i :: 0 <= i < |l| ==> FreeOf(cs, l[i], c))
    && (forall i, j :: 0 <= i < j < |l| ==> cs[l[i]].stamp > cs[l[j]].stamp)
  }

  /** Along a list stamps fall, so no chunk repeats and the walk ends. */
  lemma {:induction false} WalkFalls(m: seq<nat>, heads: seq<nat>, base: nat, cs: Chunks, w: nat, c: nat)
    requires Linked(m, heads, base, cs)
    requires w == NULL || PointsTo(base, cs, w, c)
    ensures Falling(cs, c, Walk(m, heads, base, cs, w, c))
    decreases if w == NULL then 0 else cs[w - base].stamp + 1
  {
    if w != NULL {
      assert NextOk(m, base, cs, w - base);
      var w' := m[w - base + 2];
      WalkFalls(m, heads, base, cs, w', c);
      var l' := Walk(m, heads, base, cs, w', c);
      assert w' != NULL ==> l'[0] == w' - base;
      var l := [w - base] + l';
      forall i, j | 0 <= i < j < |l| ensures cs[l[i]].stamp > cs[l[j]].stamp {
        assert l[j] == l'[j - 1];
        assert cs[l'[0]].stamp >= cs[l'[j - 1]].stamp;
      }
      assert l == Walk(m, heads, base, cs, w, c);
    }
  }

  /** From any chunk of a list, previous pointers lead back to the head; so walking from
      the head meets the chunk. */
  lemma {:induction false} HeadReaches(m: seq<nat>, heads: seq<nat>, base: nat, cs: Chunks, clock: nat, s: nat)
    requires Linked(m, heads, base, cs) && Stamped(cs, clock) && IsFree(cs, s)
    ensures var c := Class(cs[s].size);
            && HeadOk(m, heads, base, cs, c)
            && heads[c] != NULL
            && cs[heads[c] - base].stamp >= cs[s].stamp
            && s in Walk(m, heads, base, cs, heads[c], c)
    decreases clock - cs[s].stamp
  {
    var c := Class(cs[s].size);
    assert HeadOk(m, heads, base, cs, c) && PrevOk(m, heads, base, cs, s);
    var w := m[s + 1];
    if w != NULL {
      HeadReaches(m, heads, base, cs, clock, w - base);
      SuccessorMet(m, heads, base, cs, heads[c], c, w - base);
    }
  }

  lemma {:induction false} SuccessorMet(m: seq<nat>, heads: seq<nat>, base: nat, cs: Chunks, w: nat, c: nat, p: nat)
    requires Linked(m, heads, base, cs)
    requires w == NULL || PointsTo(base, cs, w, c)
    requires p in Walk(m, heads, base, cs, w, c) && IsFree(cs, p) && m[p + 2] >= base
    ensures m[p + 2] - base in Walk(m, heads, base, cs, w, c)
    decreases if w == NULL then 0 else cs[w - base].stamp + 1
  {
    assert NextOk(m, base, cs, w - base);
    var w' := m[w - base + 2];
    if p != w - base {
      SuccessorMet(m, heads, base, cs, w', c, p);
    } else {
      assert Walk(m, heads, base, cs, w', c)[0] == w' - base;
    }
  }

  /** Each class's list, read from its head, is finite, repeats nothing, and holds exactly
      the free chunks of the class, the most recently listed first. */
  lemma ListHoldsClass(m: seq<nat>, heads: seq<nat>, base: nat, cs: Chunks, clock: nat, c: nat)
    requires Linked(m, heads, base, cs) && Stamped(cs, clock) && c < NUM_CLASSES
    ensures HeadOk(m, heads, base, cs, c)
    ensures var l := Walk(m, heads, base, cs, heads[c], c);
            && (forall s: nat :: s in l <==> FreeOf(cs, s, c))
            && (forall i, j :: 0 <= i < j < |l| ==> l[i] != l[j])
            && Falling(cs, c, l)
  {
    assert HeadOk(m, heads, base, cs, c);
    var l := Walk(m, heads, base, cs, heads[c], c);
    WalkFalls(m, heads, base, cs, heads[c], c);
    forall s: nat | FreeOf(cs, s, c) ensures s in l {
      HeadReaches(m, heads, base, cs, clock, s);
    }
  }

  // ---------------------------------------------------------------------------
  // Taking a chunk off its list
  // ---------------------------------------------------------------------------

  /** Words of different chunks are different words. */
  lemma ChunksApart(cs: Chunks, n: nat, s: nat, t: nat)
    requires Tiled(cs, n) && s in cs && t in cs && s != t
    ensures s + cs[s].size <= t || t + cs[t].size <= s
    ensures cs[s].size >= MIN_WORDS && cs[t].size >= MIN_WORDS
  {
    assert s < t ==> Before(cs, s, t);
    assert t < s ==> Before(cs, t, s);
  }

  /** The neighbours of `s` on its list, when it has them, are free chunks. */
  ghost predicate CanUnlink(m: seq<nat>, base: nat, s: nat) {
    && s + 2 < |m|
    && (m[s + 1] != NULL ==> base <= m[s + 1] && m[s + 1] - base + 2 < |m|)
    && (m[s + 2] != NULL ==> base <= m[s + 2] && m[s + 2] - base + 1 < |m|)
  }

  ghost function UnlinkMem(m: seq<nat>, base: nat, s: nat): (m': seq<nat>)
    requires CanUnlink(m, base, s)
    ensures |m'| == |m|
  {
    var p, q := m[s + 1], m[s + 2];
    var m1 := if p != NULL then m[p - base + 2 := q] else m;
    if q != NULL then m1[q - base + 1 := p] else m1
  }

  ghost function UnlinkHeads(m: seq<nat>, heads: seq<nat>, c: nat, s: nat): (h': seq<nat>)
    requires s + 2 < |m| && c < |heads|
    ensures |h'| == |heads|
  {
    if m[s + 1] == NULL then heads[c := m[s + 2]] else heads
  }

  lemma ListedCanUnlink(m: seq<nat>, heads: seq<nat>, base: nat, cs: Chunks, s: nat)
    requires Linked(m, heads, base, cs) && IsFree(cs, s)
    ensures CanUnlink(m, base, s)
  {
    assert PrevOk(m, heads, base, cs, s) && NextOk(m, base, cs, s);
  }

  /** After unlinking, word `i` is the old one unless it is the next pointer of the previous
      chunk or the previous pointer of the next chunk. */
  lemma UnlinkAt(m: seq<nat>, heads: seq<nat>, base: nat, cs: Chunks, s: nat, t: nat)
    requires Linked(m, heads, base, cs) && IsFree(cs, s) && t in cs && CanUnlink(m, base, s)
    ensures t + 2 < |m|
    ensures UnlinkMem(m, base, s)[t + 1] == if m[s + 2] == base + t then m[s + 1] else m[t + 1]
    ensures UnlinkMem(m, base, s)[t + 2] == if m[s + 1] == base + t then m[s + 2] else m[t + 2]
  {
    assert PrevOk(m, heads, base, cs, s) && NextOk(m, base, cs, s);
    var p, q := m[s + 1], m[s + 2];
    if p != NULL && p - base != t { ChunksApart(cs, |m|, p - base, t); }
    if q != NULL && q - base != t { ChunksApart(cs, |m|, q - base, t); }
  }

  /** The previous pointer of the chunk after `s` now names the chunk before `s`. */
  lemma UnlinkPrevOfNext(m: seq<nat>, heads: seq<nat>, base: nat, cs: Chunks, s: nat, t: nat)
    requires Linked(m, heads, base, cs) && IsFree(cs, s) && CanUnlink(m, base, s)
    requires Tiled(Loosen(cs, s), |m|) && IsFree(Loosen(cs, s), t) && m[s + 2] == base + t
    ensures PrevOk(UnlinkMem(m, base, s), UnlinkHeads(m, heads, Class(cs[s].size), s), base, Loosen(cs, s), t)
  {
    assert PrevOk(m, heads, base, cs, s) && NextOk(m, base, cs, s) && PrevOk(m, heads, base, cs, t);
    UnlinkAt(m, heads, base, cs, s, t);
    if m[s + 1] != NULL { UnlinkAt(m, heads, base, cs, s, m[s + 1] - base); }
  }

  lemma UnlinkPrev(m: seq<nat>, heads: seq<nat>, base: nat, cs: Chunks, s: nat, t: nat)
    requires Linked(m, heads, base, cs) && IsFree(cs, s) && CanUnlink(m, base, s)
    requires Tiled(Loosen(cs, s), |m|) && IsFree(Loosen(cs, s), t)
    ensures PrevOk(UnlinkMem(m, base, s), UnlinkHeads(m, heads, Class(cs[s].size), s), base, Loosen(cs, s), t)
  {
    if m[s + 2] == base + t {
      UnlinkPrevOfNext(m, heads, base, cs, s, t);
    } else {
      assert PrevOk(m, heads, base, cs, s) && PrevOk(m, heads, base, cs, t);
      UnlinkAt(m, heads, base, cs, s, t);
      if m[t + 1] != NULL {
        assert NextOk(m, base, cs, m[t + 1] - base);
        UnlinkAt(m, heads, base, cs, s, m[t + 1] - base);
      }
    }
  }

  lemma UnlinkNext(m: seq<nat>, heads: seq<nat>, base: nat, cs: Chunks, s: nat, t: nat)
    requires Linked(m, heads, base, cs) && IsFree(cs, s) && CanUnlink(m, base, s)
    requires Tiled(Loosen(cs, s), |m|) && IsFree(Loosen(cs, s), t)
    ensures NextOk(UnlinkMem(m, base, s), base, Loosen(cs, s), t)
  {
    assert PrevOk(m, heads, base, cs, s) && NextOk(m, base, cs, s) && NextOk(m, base, cs, t);
    UnlinkAt(m, heads, base, cs, s, t);
    var q, w := m[s + 2], m[t + 2];
    if m[s + 1] == base + t {
      if q != NULL { UnlinkAt(m, heads, base, cs, s, q - base); }
    } else if w != NULL {
      UnlinkAt(m, heads, base, cs, s, w - base);
    }
  }

  lemma UnlinkHead(m: seq<nat>, heads: seq<nat>, base: nat, cs: Chunks, s: nat, d: nat)
    requires Linked(m, heads, base, cs) && IsFree(cs, s) && CanUnlink(m, base, s)
    requires Tiled(Loosen(cs, s), |m|) && d < NUM_CLASSES
    ensures HeadOk(UnlinkMem(m, base, s), UnlinkHeads(m, heads, Class(cs[s].size), s), base, Loosen(cs, s), d)
  {
    assert PrevOk(m, heads, base, cs, s) && NextOk(m, base, cs, s) && HeadOk(m, heads, base, cs, d);
    var w := UnlinkHeads(m, heads, Class(cs[s].size), s)[d];
    if w != NULL { UnlinkAt(m, heads, base, cs, s, w - base); }
  }

  lemma UnlinkKeepsLinked(m: seq<nat>, heads: seq<nat>, base: nat, cs: Chunks, s: nat)
    requires Linked(m, heads, base, cs) && IsFree(cs, s) && CanUnlink(m, base, s)
    ensures Linked(UnlinkMem(m, base, s), UnlinkHeads(m, heads, Class(cs[s].size), s), base, Loosen(cs, s))
  {
    var m', cs' := UnlinkMem(m, base, s), Loosen(cs, s);
    var h' := UnlinkHeads(m, heads, Class(cs[s].size), s);
    RelabelKeepsTiling(cs, |m|, s, Loose(cs[s].size));
    forall t: nat | IsFree(cs', t) ensures PrevOk(m', h', base, cs', t) && NextOk(m', base, cs', t) {
      UnlinkPrev(m, heads, base, cs, s, t);
      UnlinkNext(m, heads, base, cs, s, t);
    }
    forall d: nat | d < NUM_CLASSES ensures HeadOk(m', h', base, cs', d) {
      UnlinkHead(m, heads, base, cs, s, d);
    }
  }

  /** Words outside free chunks, and tags, stay as they are. */
  lemma UnlinkKeepsWord(m: seq<nat>, heads: seq<nat>, base: nat, cs: Chunks, s: nat, t: nat, i: nat)
    requires Linked(m, heads, base, cs) && IsFree(cs, s) && CanUnlink(m, base, s)
    requires t in cs && t <= i < t + cs[t].size && i < |m|
    requires !cs[t].Free? || i == t || i == t + cs[t].size - 1
    ensures UnlinkMem(m, base, s)[i] == m[i]
  {
    assert PrevOk(m, heads, base, cs, s) && NextOk(m, base, cs, s);
    var p, q := m[s + 1], m[s + 2];
    assert cs[t].size >= MIN_WORDS;
    if p != NULL && p - base != t { ChunksApart(cs, |m|, p - base, t); }
    if q != NULL && q - base != t { ChunksApart(cs, |m|, q - base, t); }
  }

  lemma UnlinkKeepsTags(m: seq<nat>, heads: seq<nat>, base: nat, cs: Chunks, s: nat)
    requires Linked(m, heads, base, cs) && Tagged(m, cs) && IsFree(cs, s) && CanUnlink(m, base, s)
    ensures Tagged(UnlinkMem(m, base, s), Loosen(cs, s))
  {
    var m', cs' := UnlinkMem(m, base, s), Loosen(cs, s);
    RelabelKeepsTiling(cs, |m|, s, Loose(cs[s].size));
    forall t: nat | t in cs' ensures TagOk(m', cs', t) {
      assert TagOk(m, cs, t);
      if t != s {
        UnlinkKeepsWord(m, heads, base, cs, s, t, t);
        UnlinkKeepsWord(m, heads, base, cs, s, t, t + cs[t].size - 1);
      }
    }
  }

  // ---------------------------------------------------------------------------
  // Putting a chunk on the front of its list
  // ---------------------------------------------------------------------------

  ghost predicate CanPush(m: seq<nat>, heads: seq<nat>, base: nat, s: nat, z: nat) {
    && MIN_WORDS <= z && s + z <= |m| && |heads| == NUM_CLASSES
    && (heads[Class(z)] != NULL ==> base <= heads[Class(z)] && heads[Class(z)] - base + 1 < |m|)
  }

  ghost function PushMem(m: seq<nat>, heads: seq<nat>, base: nat, s: nat, z: nat): (m': seq<nat>)
    requires CanPush(m, heads, base, s, z)
    ensures |m'| == |m|
  {
    var tag := TagVec(8 * z, FREE);
    var h := heads[Class(z)];
    var m1 := m[s + z - 1 := tag][s := tag][s + 1 := NULL][s + 2 := h];
    if h != NULL then m1[h - base + 1 := base + s] else m1
  }

  ghost function PushHeads(heads: seq<nat>, base: nat, s: nat, z: nat): (h': seq<nat>)
    requires MIN_WORDS <= z && |heads| == NUM_CLASSES
    ensures |h'| == |heads|
  {
    heads[Class(z) := base + s]
  }

  lemma HeadsCanPush(m: seq<nat>, heads: seq<nat>, base: nat, cs: Chunks, s: nat)
    requires Linked(m, heads, base, cs) && s in cs
    ensures CanPush(m, heads, base, s, cs[s].size)
  {
    assert cs[s].size >= MIN_WORDS;
    assert HeadOk(m, heads, base, cs, Class(cs[s].size));
  }

  /** After pushing `s`, the pointers of any other chunk are the old ones, except that the
      old head now points back to `s`. */
  lemma PushAt(m: seq<nat>, heads: seq<nat>, base: nat, cs: Chunks, s: nat, t: nat)
    requires Linked(m, heads, base, cs) && IsLoose(cs, s) && CanPush(m, heads, base, s, cs[s].size)
    requires t in cs
    ensures t + 2 < |m|
    ensures var m' := PushMem(m, heads, base, s, cs[s].size);
            var h := heads[Class(cs[s].size)];
            if t == s then
              m'[t + 1] == NULL && m'[t + 2] == h
            else
              && m'[t + 1] == (if h == base + t then base + s else m[t + 1])
              && m'[t + 2] == m[t + 2]
  {
    var c := Class(cs[s].size);
    assert HeadOk(m, heads, base, cs, c);
    var h := heads[c];
    if t != s { ChunksApart(cs, |m|, s, t); }
    if h != NULL && h - base != t { ChunksApart(cs, |m|, h - base, t); }
    if h != NULL { ChunksApart(cs, |m|, h - base, s); }
  }

  lemma PushPrev(m: seq<nat>, heads: seq<nat>, base: nat, cs: Chunks, s: nat, clock: nat, t: nat)
    requires Linked(m, heads, base, cs) && IsLoose(cs, s) && Stamped(cs, clock)
    requires CanPush(m, heads, base, s, cs[s].size)
    requires Tiled(MakeFree(cs, s, clock), |m|) && IsFree(MakeFree(cs, s, clock), t)
    ensures var z := cs[s].size;
            PrevOk(PushMem(m, heads, base, s, z), PushHeads(heads, base, s, z), base, MakeFree(cs, s, clock), t)
  {
    var c := Class(cs[s].size);
    assert HeadOk(m, heads, base, cs, c);
    PushAt(m, heads, base, cs, s, t);
    if t != s {
      assert PrevOk(m, heads, base, cs, t);
      if heads[c] == base + t {
        PushAt(m, heads, base, cs, s, s);
      } else if m[t + 1] != NULL {
        PushAt(m, heads, base, cs, s, m[t + 1] - base);
      }
    }
  }

  lemma PushNext(m: seq<nat>, heads: seq<nat>, base: nat, cs: Chunks, s: nat, clock: nat, t: nat)
    requires Linked(m, heads, base, cs) && IsLoose(cs, s) && Stamped(cs, clock)
    requires CanPush(m, heads, base, s, cs[s].size)
    requires Tiled(MakeFree(cs, s, clock), |m|) && IsFree(MakeFree(cs, s, clock), t)
    ensures NextOk(PushMem(m, heads, base, s, cs[s].size), base, MakeFree(cs, s, clock), t)
  {
    var c := Class(cs[s].size);
    assert HeadOk(m, heads, base, cs, c);
    PushAt(m, heads, base, cs, s, t);
    var w := if t == s then heads[c] else m[t + 2];
    assert t != s ==> NextOk(m, base, cs, t);
    if w != NULL { PushAt(m, heads, base, cs, s, w - base); }
  }

  lemma PushHead(m: seq<nat>, heads: seq<nat>, base: nat, cs: Chunks, s: nat, clock: nat, d: nat)
    requires Linked(m, heads, base, cs) && IsLoose(cs, s) && Stamped(cs, clock)
    requires CanPush(m, heads, base, s, cs[s].size)
    requires Tiled(MakeFree(cs, s, clock), |m|) && d < NUM_CLASSES
    ensures var z := cs[s].size;
            HeadOk(PushMem(m, heads, base, s, z), PushHeads(heads, base, s, z), base, MakeFree(cs, s, clock), d)
  {
    assert HeadOk(m, heads, base, cs, d) && HeadOk(m, heads, base, cs, Class(cs[s].size));
    PushAt(m, heads, base, cs, s, s);
    if heads[d] != NULL { PushAt(m, heads, base, cs, s, heads[d] - base); }
  }

  lemma PushKeepsLinked(m: seq<nat>, heads: seq<nat>, base: nat, cs: Chunks, s: nat, clock: nat)
    requires Linked(m, heads, base, cs) && IsLoose(cs, s) && Stamped(cs, clock)
    requires CanPush(m, heads, base, s, cs[s].size)
    ensures var z := cs[s].size;
            Linked(PushMem(m, heads, base, s, z), PushHeads(heads, base, s, z), base, MakeFree(cs, s, clock))
  {
    var z, cs' := cs[s].size, MakeFree(cs, s, clock);
    var m', h' := PushMem(m, heads, base, s, z), PushHeads(heads, base, s, z);
    RelabelKeepsTiling(cs, |m|, s, Free(z, clock));
    forall t: nat | IsFree(cs', t) ensures PrevOk(m', h', base, cs', t) && NextOk(m', base, cs', t) {
      PushPrev(m, heads, base, cs, s, clock, t);
      PushNext(m, heads, base, cs, s, clock, t);
    }
    forall d: nat | d < NUM_CLASSES ensures HeadOk(m', h', base, cs', d) {
      PushHead(m, heads, base, cs, s, clock, d);
    }
  }

  lemma PushKeepsWord(m: seq<nat>, heads: seq<nat>, base: nat, cs: Chunks, s: nat, t: nat, i: nat)
    requires Linked(m, heads, base, cs) && IsLoose(cs, s) && CanPush(m, heads, base, s, cs[s].size)
    requires t in cs && t != s && t <= i < t + cs[t].size && i < |m|
    requires !cs[t].Free? || i == t || i == t + cs[t].size - 1
    ensures PushMem(m, heads, base, s, cs[s].size)[i] == m[i]
  {
    var h := heads[Class(cs[s].size)];
    assert HeadOk(m, heads, base, cs, Class(cs[s].size));
    ChunksApart(cs, |m|, s, t);
    if h != NULL && h - base != t { ChunksApart(cs, |m|, h - base, t); }
  }

  lemma PushKeepsTags(m: seq<nat>, heads: seq<nat>, base: nat, cs: Chunks, s: nat, clock: nat)
    requires Linked(m, heads, base, cs) && Tagged(m, cs) && IsLoose(cs, s)
    requires CanPush(m, heads, base, s, cs[s].size)
    ensures Tagged(PushMem(m, heads, base, s, cs[s].size), MakeFree(cs, s, clock))
  {
    var z, cs' := cs[s].size, MakeFree(cs, s, clock);
    var m' := PushMem(m, heads, base, s, z);
    RelabelKeepsTiling(cs, |m|, s, Free(z, clock));
    forall t: nat | t in cs' ensures TagOk(m', cs', t) {
      if t != s {
        assert TagOk(m, cs, t);
        PushKeepsWord(m, heads, base, cs, s, t, t);
        PushKeepsWord(m, heads, base, cs, s, t, t + cs[t].size - 1);
      } else {
        var h := heads[Class(z)];
        assert HeadOk(m, heads, base, cs, Class(z));
        if h != NULL { ChunksApart(cs, |m|, h - base, s); }
      }
    }
  }

  // ---------------------------------------------------------------------------
  // Searching the heads
  // ---------------------------------------------------------------------------

  /** The head of the first non-empty list from class `c` on is the chunk to allocate from. */
  lemma FirstHeadIsChosen(m: seq<nat>, heads: seq<nat>, base: nat, cs: Chunks, clock: nat, c: nat, k: nat)
    requires Linked(m, heads, base, cs) && Stamped(cs, clock) && c <= k < NUM_CLASSES
    requires forall d :: c <= d < k ==> heads[d] == NULL
    requires heads[k] != NULL
    ensures PointsTo(base, cs, heads[k], k) && Chosen(cs, c, heads[k] - base)
  {
    assert HeadOk(m, heads, base, cs, k);
    var s := heads[k] - base;
    forall t: nat | IsFree(cs, t) && cs[t].size >= MIN_WORDS && c <= Class(cs[t].size)
      ensures k <= Class(cs[t].size)
      ensures k == Class(cs[t].size) ==> cs[t].stamp <= cs[s].stamp
    {
      HeadReaches(m, heads, base, cs, clock, t);
    }
  }

  lemma NoHeadMeansNone(m: seq<nat>, heads: seq<nat>, base: nat, cs: Chunks, clock: nat, c: nat)
    requires Linked(m, heads, base, cs) && Stamped(cs, clock) && c <= NUM_CLASSES
    requires forall d :: c <= d < NUM_CLASSES ==> heads[d] == NULL
    ensures NoneFrom(cs, c)
  {
    forall t: nat | IsFree(cs, t) && cs[t].size >= MIN_WORDS ensures Class(cs[t].size) < c {
      HeadReaches(m, heads, base, cs, clock, t);
    }
  }

  // ---------------------------------------------------------------------------
  // Steps that write no list pointer
  // ---------------------------------------------------------------------------

  ghost predicate SameFree(cs: Chunks, cs': Chunks) {
    forall s: nat {:trigger IsFree(cs, s)} {:trigger IsFree(cs', s)} ::
      (IsFree(cs, s) <==> IsFree(cs', s)) && (IsFree(cs, s) ==> cs[s] == cs'[s])
  }

  ghost predicate SamePointers(m: seq<nat>, m': seq<nat>, s: nat) {
    s + 2 < |m| && |m'| == |m| && m'[s + 1] == m[s + 1] && m'[s + 2] == m[s + 2]
  }

  /** The lists depend only on the free chunks and their pointer words. */
  lemma LinkedDependsOnFree(m: seq<nat>, heads: seq<nat>, base: nat, cs: Chunks, m': seq<nat>, cs': Chunks)
    requires Linked(m, heads, base, cs) && |m'| == |m| && Tiled(cs', |m|) && SameFree(cs, cs')
    requires forall s: nat {:trigger SamePointers(m, m', s)} :: IsFree(cs, s) ==> SamePointers(m, m', s)
    ensures Linked(m', heads, base, cs')
  {
    forall s: nat | IsFree(cs', s) ensures PrevOk(m', heads, base, cs', s) && NextOk(m', base, cs', s) {
      assert IsFree(cs, s) && SamePointers(m, m', s);
      assert PrevOk(m, heads, base, cs, s) && NextOk(m, base, cs, s);
      assert m[s + 1] != NULL ==> IsFree(cs, m[s + 1] - base) && SamePointers(m, m', m[s + 1] - base);
      assert m[s + 2] != NULL ==> IsFree(cs, m[s + 2] - base) && SamePointers(m, m', m[s + 2] - base);
    }
    forall c: nat | c < NUM_CLASSES ensures HeadOk(m', heads, base, cs', c) {
      assert HeadOk(m, heads, base, cs, c);
      assert heads[c] != NULL ==> IsFree(cs, heads[c] - base) && SamePointers(m, m', heads[c] - base);
    }
  }

  /** The words of used chunks are unchanged from `m` to `m'`. */
  ghost predicate SameUsed(m: seq<nat>, m': seq<nat>, cs: Chunks) {
    && |m| == |m'|
    && forall t: nat, i: nat {:trigger cs[t], m'[i]} ::
         t in cs && cs[t].Used? && t <= i < t + cs[t].size && i < |m| ==> m'[i] == m[i]
  }

  lemma UnlinkSameUsed(m: seq<nat>, heads: seq<nat>, base: nat, cs: Chunks, s: nat)
    requires Linked(m, heads, base, cs) && IsFree(cs, s) && CanUnlink(m, base, s)
    ensures SameUsed(m, UnlinkMem(m, base, s), cs)
  {
    var m' := UnlinkMem(m, base, s);
    forall t: nat, i: nat | IsUsed(cs, t) && t <= i < t + cs[t].size && i < |m| ensures m'[i] == m[i] {
      UnlinkKeepsWord(m, heads, base, cs, s, t, i);
    }
  }

  lemma PushSameUsed(m: seq<nat>, heads: seq<nat>, base: nat, cs: Chunks, s: nat)
    requires Linked(m, heads, base, cs) && IsLoose(cs, s) && CanPush(m, heads, base, s, cs[s].size)
    ensures SameUsed(m, PushMem(m, heads, base, s, cs[s].size), cs)
  {
    var m' := PushMem(m, heads, base, s, cs[s].size);
    forall t: nat, i: nat | IsUsed(cs, t) && t <= i < t + cs[t].size && i < |m| ensures m'[i] == m[i] {
      PushKeepsWord(m, heads, base, cs, s, t, i);
    }
  }

  /** A caller may write its item as it likes: any word strictly between the tags of a used
      chunk can change without disturbing tags or lists. */
  lemma ItemWriteKeeps(m: seq<nat>, heads: seq<nat>, base: nat, cs: Chunks, s: nat, i: nat, v: nat)
    requires Linked(m, heads, base, cs) && Tagged(m, cs)
    requires IsUsed(cs, s) && s < i < s + cs[s].size - 1
    ensures i < |m| && Linked(m[i := v], heads, base, cs) && Tagged(m[i := v], cs)
  {
    assert s + cs[s].size <= |m|;
    var m' := m[i := v];
    forall t: nat | IsFree(cs, t) ensures SamePointers(m, m', t) {
      ChunksApart(cs, |m|, s, t);
    }
    LinkedDependsOnFree(m, heads, base, cs, m', cs);
    forall t: nat | t in cs ensures TagOk(m', cs, t) {
      assert TagOk(m, cs, t);
      if t != s { ChunksApart(cs, |m|, s, t); }
    }
  }

  ghost function OccupyMem(m: seq<nat>, s: nat, z: nat): (m': seq<nat>)
    requires 0 < z && s + z <= |m|
    ensures |m'| == |m|
  {
    m[s + z - 1 := TagVec(8 * z, OCCUPIED)][s := TagVec(8 * z, OCCUPIED)]
  }

  lemma OccupyKeepsWord(m: seq<nat>, cs: Chunks, s: nat, t: nat, i: nat)
    requires Tiled(cs, |m|) && s in cs && t in cs && t != s && t <= i < t + cs[t].size
    ensures 0 < cs[s].size && s + cs[s].size <= |m| && i < |m|
    ensures OccupyMem(m, s, cs[s].size)[i] == m[i]
  {
    ChunksApart(cs, |m|, s, t);
  }

  /** Tagging loose chunk `s` as used. */
  lemma OccupyKeepsLinked(m: seq<nat>, heads: seq<nat>, base: nat, cs: Chunks, s: nat, item: nat)
    requires Linked(m, heads, base, cs) && IsLoose(cs, s)
    ensures 0 < cs[s].size && s + cs[s].size <= |m|
    ensures Linked(OccupyMem(m, s, cs[s].size), heads, base, MakeUsed(cs, s, item))
  {
    var z, cs' := cs[s].size, MakeUsed(cs, s, item);
    var m' := OccupyMem(m, s, z);
    RelabelKeepsTiling(cs, |m|, s, Used(z, item));
    forall t: nat | IsFree(cs, t) ensures SamePointers(m, m', t) {
      assert cs[t].size >= MIN_WORDS;
      OccupyKeepsWord(m, cs, s, t, t + 1);
      OccupyKeepsWord(m, cs, s, t, t + 2);
    }
    LinkedDependsOnFree(m, heads, base, cs, m', cs');
  }

  lemma OccupyKeepsTags(m: seq<nat>, cs: Chunks, s: nat, item: nat)
    requires Tagged(m, cs) && IsLoose(cs, s)
    ensures 0 < cs[s].size && s + cs[s].size <= |m|
    ensures Tagged(OccupyMem(m, s, cs[s].size), MakeUsed(cs, s, item))
    ensures SameUsed(m, OccupyMem(m, s, cs[s].size), cs)
  {
    var z, cs' := cs[s].size, MakeUsed(cs, s, item);
    var m' := OccupyMem(m, s, z);
    RelabelKeepsTiling(cs, |m|, s, Used(z, item));
    forall t: nat | t in cs' ensures TagOk(m', cs', t) {
      if t != s {
        assert TagOk(m, cs, t) && cs[t].size > 0;
        OccupyKeepsWord(m, cs, s, t, t);
        OccupyKeepsWord(m, cs, s, t, t + cs[t].size - 1);
      }
    }
    forall t: nat, i: nat | IsUsed(cs, t) && t <= i < t + cs[t].size && i < |m| ensures m'[i] == m[i] {
      OccupyKeepsWord(m, cs, s, t, i);
    }
  }

  /** Changing which part of the heap is loose changes no word. */
  lemma LoosenUsedKeeps(m: seq<nat>, heads: seq<nat>, base: nat, cs: Chunks, s: nat)
    requires Linked(m, heads, base, cs) && Tagged(m, cs) && IsUsed(cs, s)
    ensures Linked(m, heads, base, Loosen(cs, s)) && Tagged(m, Loosen(cs, s))
  {
    var cs' := Loosen(cs, s);
    RelabelKeepsTiling(cs, |m|, s, Loose(cs[s].size));
    forall t: nat | IsFree(cs, t) ensures SamePointers(m, m, t) { assert cs[t].size >= MIN_WORDS; }
    LinkedDependsOnFree(m, heads, base, cs, m, cs');
    forall t: nat | t in cs' ensures TagOk(m, cs', t) { assert TagOk(m, cs, t); }
  }

  lemma MergeKeepsMemory(m: seq<nat>, heads: seq<nat>, base: nat, cs: Chunks, s: nat)
    requires Linked(m, heads, base, cs) && Tagged(m, cs) && IsLoose(cs, s) && IsLoose(cs, End(cs, s))
    ensures Linked(m, heads, base, Merge(cs, s)) && Tagged(m, Merge(cs, s))
  {
    var cs' := Merge(cs, s);
    MergeKeepsTiling(cs, |m|, s);
    forall t: nat | IsFree(cs, t) ensures SamePointers(m, m, t) { assert cs[t].size >= MIN_WORDS; }
    LinkedDependsOnFree(m, heads, base, cs, m, cs');
    forall t: nat | t in cs' ensures TagOk(m, cs', t) { assert TagOk(m, cs, t); }
  }

  lemma SplitKeepsMemory(m: seq<nat>, heads: seq<nat>, base: nat, cs: Chunks, s: nat, k: nat)
    requires Linked(m, heads, base, cs) && Tagged(m, cs) && IsLoose(cs, s)
    requires MIN_WORDS <= k && k + MIN_WORDS <= cs[s].size
    ensures Linked(m, heads, base, Split(cs, s, k)) && Tagged(m, Split(cs, s, k))
  {
    var cs' := Split(cs, s, k);
    SplitKeepsTiling(cs, |m|, s, k);
    InsideNoChunk(cs, |m|, s, s + k);
    forall t: nat | IsFree(cs, t) ensures SamePointers(m, m, t) { assert cs[t].size >= MIN_WORDS; }
    LinkedDependsOnFree(m, heads, base, cs, m, cs');
    forall t: nat | t in cs' ensures TagOk(m, cs', t) {
      if t != s && t != s + k { assert TagOk(m, cs, t); }
    }
  }

  // ---------------------------------------------------------------------------
  // All of it together
  // ---------------------------------------------------------------------------

  /** Memory, lists and chunks agree; some chunks may be loose. */
  ghost predicate Sound(m: seq<nat>, heads: seq<nat>, base: nat, cs: Chunks, clock: nat) {
    Linked(m, heads, base, cs) && Tagged(m, cs) && Coalesced(cs) && Stamped(cs, clock)
  }

  lemma UnlinkSound(m: seq<nat>, heads: seq<nat>, base: nat, cs: Chunks, clock: nat, s: nat)
    requires Sound(m, heads, base, cs, clock) && IsFree(cs, s)
    ensures CanUnlink(m, base, s) && cs[s].size >= MIN_WORDS
    ensures m[s + 1] == NULL ==> heads[Class(cs[s].size)] == base + s
    ensures Sound(UnlinkMem(m, base, s), UnlinkHeads(m, heads, Class(cs[s].size), s), base, Loosen(cs, s), clock)
    ensures SameUsed(m, UnlinkMem(m, base, s), cs)
  {
    ListedCanUnlink(m, heads, base, cs, s);
    assert PrevOk(m, heads, base, cs, s);
    UnlinkKeepsLinked(m, heads, base, cs, s);
    UnlinkKeepsTags(m, heads, base, cs, s);
    UnlinkSameUsed(m, heads, base, cs, s);
    LoosenKeeps(cs, |m|, s, clock);
  }

  lemma PushSound(m: seq<nat>, heads: seq<nat>, base: nat, cs: Chunks, clock: nat, s: nat)
    requires Sound(m, heads, base, cs, clock) && IsLoose(cs, s) && LeftNotFree(cs, s) && RightNotFree(cs, s)
    ensures CanPush(m, heads, base, s, cs[s].size)
    ensures var z := cs[s].size;
            && Sound(PushMem(m, heads, base, s, z), PushHeads(heads, base, s, z), base,
                     MakeFree(cs, s, clock), clock + 1)
            && SameUsed(m, PushMem(m, heads, base, s, z), cs)
  {
    HeadsCanPush(m, heads, base, cs, s);
    PushKeepsLinked(m, heads, base, cs, s, clock);
    PushKeepsTags(m, heads, base, cs, s, clock);
    PushSameUsed(m, heads, base, cs, s);
    MakeFreeKeeps(cs, |m|, s, clock);
  }

  lemma LoosenUsedSound(m: seq<nat>, heads: seq<nat>, base: nat, cs: Chunks, clock: nat, s: nat)
    requires Sound(m, heads, base, cs, clock) && IsUsed(cs, s)
    ensures Sound(m, heads, base, Loosen(cs, s), clock)
  {
    LoosenUsedKeeps(m, heads, base, cs, s);
    LoosenKeeps(cs, |m|, s, clock);
  }

  lemma MergeSound(m: seq<nat>, heads: seq<nat>, base: nat, cs: Chunks, clock: nat, s: nat)
    requires Sound(m, heads, base, cs, clock) && IsLoose(cs, s) && IsLoose(cs, End(cs, s))
    ensures Sound(m, heads, base, Merge(cs, s), clock)
  {
    MergeKeepsMemory(m, heads, base, cs, s);
    MergeKeeps(cs, |m|, s, clock);
  }

  lemma SplitSound(m: seq<nat>, heads: seq<nat>, base: nat, cs: Chunks, clock: nat, s: nat, k: nat)
    requires Sound(m, heads, base, cs, clock) && IsLoose(cs, s)
    requires MIN_WORDS <= k && k + MIN_WORDS <= cs[s].size
    ensures Sound(m, heads, base, Split(cs, s, k), clock)
    ensures s + k !in cs
  {
    SplitKeepsMemory(m, heads, base, cs, s, k);
    InsideNoChunk(cs, |m|, s, s + k);
    var cs' := Split(cs, s, k);
    forall t: nat | t in cs' ensures Apart(cs', t) {
      if t != s && t != s + k { assert Apart(cs, t); }
    }
  }

  lemma OccupySound(m: seq<nat>, heads: seq<nat>, base: nat, cs: Chunks, clock: nat, s: nat, item: nat)
    requires Sound(m, heads, base, cs, clock) && IsLoose(cs, s)
    ensures cs[s].size >= MIN_WORDS && s + cs[s].size <= |m|
    ensures Sound(OccupyMem(m, s, cs[s].size), heads, base, MakeUsed(cs, s, item), clock)
    ensures SameUsed(m, OccupyMem(m, s, cs[s].size), cs)
  {
    OccupyKeepsLinked(m, heads, base, cs, s, item);
    OccupyKeepsTags(m, cs, s, item);
    var cs' := MakeUsed(cs, s, item);
    forall t: nat | t in cs' ensures Apart(cs', t) { assert Apart(cs, t); }
  }

  lemma ItemWriteSound(m: seq<nat>, heads: seq<nat>, base: nat, cs: Chunks, clock: nat, s: nat, i: nat, v: nat)
    requires Sound(m, heads, base, cs, clock) && IsUsed(cs, s) && s < i < s + cs[s].size - 1
    ensures i < |m| && Sound(m[i := v], heads, base, cs, clock)
  {
    ItemWriteKeeps(m, heads, base, cs, s, i, v);
  }

  /** Either end of a chunk gives back its status and size. */
  lemma ReadTag(m: seq<nat>, cs: Chunks, s: nat)
    requires Tagged(m, cs) && 8 * |m| <= MAX_SIZE && s in cs && !cs[s].Loose?
    ensures 0 < cs[s].size && s + cs[s].size <= |m|
    ensures m[s] == m[s + cs[s].size - 1]
    ensures TagStatus(m[s]) == Status(cs[s]) && TagSize(m[s]) == 8 * cs[s].size
  {
    assert TagOk(m, cs, s) && cs[s].size <= |m|;
    TagRoundTrip(8 * cs[s].size, Status(cs[s]));
  }

  lemma SameUsedTrans(m: seq<nat>, m1: seq<nat>, m2: seq<nat>, cs: Chunks, cs': Chunks)
    requires SameUsed(m, m1, cs) && SameUsed(m1, m2, cs') && UsedWithin(cs', cs)
    ensures SameUsed(m, m2, cs')
  {
    forall t: nat, i: nat | IsUsed(cs', t) && t <= i < t + cs'[t].size && i < |m| ensures m2[i] == m[i] {
      assert m1[i] == m[i];
    }
  }

  lemma SameUsedBack(m: seq<nat>, m1: seq<nat>, m2: seq<nat>, cs: Chunks, cs': Chunks)
    requires SameUsed(m, m1, cs) && SameUsed(m1, m2, cs') && UsedWithin(cs, cs')
    ensures SameUsed(m, m2, cs)
  {
    forall t: nat, i: nat | IsUsed(cs, t) && t <= i < t + cs[t].size && i < |m| ensures m2[i] == m[i] {
      assert m1[i] == m[i];
      assert cs'[t] == cs[t];
    }
  }

  /** Writing inside loose chunk `s` touches no used chunk. */
  lemma ItemWriteElsewhere(m: seq<nat>, m1: seq<nat>, cs: Chunks, s: nat, i: nat, v: nat)
    requires Tiled(cs, |m|) && SameUsed(m, m1, cs) && IsLoose(cs, s) && s <= i < s + cs[s].size && i < |m|
    ensures SameUsed(m, m1[i := v], cs)
  {
    forall t: nat, j: nat | IsUsed(cs, t) && t <= j < t + cs[t].size && j < |m|
      ensures m1[i := v][j] == m[j]
    {
      assert m1[j] == m[j];
      ChunksApart(cs, |m|, s, t);
    }
  }

  /** A heap that is one loose chunk, with all lists empty. */
  lemma OneLoose(m: seq<nat>, heads: seq<nat>, base: nat)
    requires |m| >= MIN_WORDS && base > 0 && |heads| == NUM_CLASSES
    requires forall c :: 0 <= c < NUM_CLASSES ==> heads[c] == NULL
    ensures var cs: Chunks := map[0 := Loose(|m|)];
            && Sound(m, heads, base, cs, 0) && OnlyLoose(cs, 0)
            && LeftNotFree(cs, 0) && RightNotFree(cs, 0)
  {
    var cs: Chunks := map[0 := Loose(|m|)];
    forall s: nat | s in cs ensures Followed(cs, |m|, s) && Apart(cs, s) {
    }
    forall c: nat | c < NUM_CLASSES ensures HeadOk(m, heads, base, cs, c) {
    }
  }
}
