/** Index accounting of the send queue: posting lists of work requests, and retiring them
    when a signaled one completes (drivers/libmlx5-1.0.2mlnx1/src/qp.c and cq.c). */
module SendQueue {

  import opened IndexMath
  import opened SqSizing

  /** A work request: its identity, the ring blocks it takes and the segments it gathers. */
  datatype Wr = Wr(id: nat, blocks: nat, numSge: nat)

  /** The driver's state. `head`, `tail` and `scurPost` are 32-bit counters; `nreq` counts the
      requests of the list being posted, which `head` does not include yet. */
  datatype Sq = Sq(cfg: Config, head: nat, tail: nat, scurPost: nat, nreq: nat,
                   wrid: seq<nat>, wqeHead: seq<nat>)

  /** mlx5_wq_overflow, in unsigned arithmetic. */
  predicate Overflow(s: Sq) {
    (s.head - s.tail) % WRAP32 + s.nreq >= s.cfg.maxPost
  }

  predicate CanPost(s: Sq, wr: Wr) {
    !Overflow(s) && wr.numSge <= s.cfg.maxGs
  }

  /** One turn of the loop in __mlx5_post_send. */
  function PostOne(s: Sq, wr: Wr): Sq
    requires s.cfg.wqeCnt > 0 && |s.wrid| == |s.wqeHead| == s.cfg.wqeCnt
  {
    var idx := Pos(s.scurPost, s.cfg.wqeCnt);
    s.(wrid := s.wrid[idx := wr.id],
       wqeHead := s.wqeHead[idx := (s.head + s.nreq) % WRAP32],
       scurPost := (s.scurPost + wr.blocks) % WRAP32,
       nreq := s.nreq + 1)
  }

  /** The end of __mlx5_post_send, where hardware is told. */
  function EndList(s: Sq): Sq {
    s.(head := (s.head + s.nreq) % WRAP32, nreq := 0)
  }

  /** A send completion carrying block counter `ctr`: the identity reported and the state. */
  function PollSend(s: Sq, ctr: nat): (nat, Sq)
    requires s.cfg.wqeCnt > 0 && |s.wrid| == |s.wqeHead| == s.cfg.wqeCnt
  {
    var idx := Pos(ctr, s.cfg.wqeCnt);
    (s.wrid[idx], s.(tail := (s.wqeHead[idx] + 1) % WRAP32))
  }

  // ---------------------------------------------------------------------------
  // Histories
  // ---------------------------------------------------------------------------

  /** A request posted: its identity and the blocks it occupies, counted from the start. */
  datatype Req = Req(id: nat, start: nat, blocks: nat)

  /** All requests posted so far, how many hardware has been told of and how many are
      retired. */
  datatype Hist = Hist(log: seq<Req>, told: nat, retired: nat)

  ghost function BlocksUsed(log: seq<Req>): nat {
    if log == [] then 0 else log[|log| - 1].start + log[|log| - 1].blocks
  }

  ghost predicate Contiguous(log: seq<Req>, maxBlocks: nat) {
    && (log != [] ==> log[0].start == 0)
    && (forall h {:trigger log[h]} :: 0 <= h < |log| ==> 1 <= log[h].blocks <= maxBlocks)
    && (forall h {:trigger Follows(log, h)} :: 0 < h < |log| ==> Follows(log, h))
  }

  ghost predicate Follows(log: seq<Req>, h: int)
    requires 0 < h < |log|
  {
    log[h].start == log[h - 1].start + log[h - 1].blocks
  }

  /** The two side tables remember request `h` in its first block's slot. */
  ghost predicate Remembered(s: Sq, log: seq<Req>, h: nat)
    requires h < |log| && s.cfg.wqeCnt > 0 && |s.wrid| == |s.wqeHead| == s.cfg.wqeCnt
  {
    var idx := Pos(log[h].start, s.cfg.wqeCnt);
    s.wrid[idx] == log[h].id && s.wqeHead[idx] == h % WRAP32
  }

  ghost predicate Inv(s: Sq, g: Hist) {
    && Sized(s.cfg) && s.cfg.maxPost < WRAP32
    && |s.wrid| == |s.wqeHead| == s.cfg.wqeCnt
    && Contiguous(g.log, s.cfg.maxBlocks)
    && g.retired <= g.told && g.told + s.nreq == |g.log| <= g.retired + s.cfg.maxPost
    && s.head == g.told % WRAP32
    && s.tail == g.retired % WRAP32
    && s.scurPost == BlocksUsed(g.log) % WRAP32
    && forall h: nat {:trigger Remembered(s, g.log, h)} :: g.retired <= h < |g.log| ==> Remembered(s, g.log, h)
  }

  // ---------------------------------------------------------------------------
  // Arithmetic of counters
  // ---------------------------------------------------------------------------

  /** The distance of two counters kept modulo 2^32. */
  lemma Distance(h: nat, t: nat)
    requires t <= h < t + WRAP32
    ensures (h % WRAP32 - t % WRAP32) % WRAP32 == h - t
  {
  }

  lemma AddWrap(a: nat, b: nat)
    ensures (a % WRAP32 + b) % WRAP32 == (a + b) % WRAP32
  {
  }

  /** A block counter kept in 16 or 32 bits names the same slot. */
  lemma PosWrapped(n: nat, cnt: nat)
    requires cnt > 0 && WRAP16 % cnt == 0
    ensures Pos(n % WRAP16, cnt) == Pos(n, cnt)
    ensures Pos(n % WRAP32, cnt) == Pos(n, cnt)
  {
    var k := WRAP16 / cnt;
    assert WRAP16 == cnt * k && k > 0;
    assert WRAP32 == cnt * (k * WRAP16) by { assert cnt * (k * WRAP16) == (cnt * k) * WRAP16; }
    ModMod(n, cnt, k);
    ModMod(n, cnt, k * WRAP16);
    PosIsMod(n, cnt);
    PosIsMod(n % WRAP16, cnt);
    PosIsMod(n % WRAP32, cnt);
  }

  /** The blocks of consecutive requests: at most `maxBlocks` each, at least one. */
  lemma {:induction false} Span(log: seq<Req>, maxBlocks: nat, a: nat, b: nat)
    requires Contiguous(log, maxBlocks) && a < b <= |log|
    ensures log[a].start + (b - a) <= log[b - 1].start + log[b - 1].blocks <= log[a].start + (b - a) * maxBlocks
  {
    if b > a + 1 {
      Span(log, maxBlocks, a, b - 1);
      assert Follows(log, b - 1);
      assert (b - a) * maxBlocks == (b - 1 - a) * maxBlocks + maxBlocks;
    }
  }

  /** All blocks not retired lie within one lap of the ring. */
  lemma Window(s: Sq, g: Hist, h: nat)
    requires Inv(s, g) && g.retired <= h < |g.log|
    ensures g.log[h].start + g.log[h].blocks <= BlocksUsed(g.log)
    ensures BlocksUsed(g.log) <= g.log[h].start + s.cfg.wqeCnt
    ensures |g.log| < g.retired + s.cfg.maxPost ==>
              BlocksUsed(g.log) + s.cfg.maxBlocks <= g.log[h].start + s.cfg.wqeCnt
  {
    var n, mb := |g.log|, s.cfg.maxBlocks;
    Span(g.log, mb, h, n);
    if h + 1 < n {
      Span(g.log, mb, h + 1, n);
      assert Follows(g.log, h + 1);
    }
    MulMono(n - h, s.cfg.maxPost, mb);
    if n < g.retired + s.cfg.maxPost {
      MulMono(n - h + 1, s.cfg.maxPost, mb);
      assert (n - h + 1) * mb == (n - h) * mb + mb;
    }
  }

  // ---------------------------------------------------------------------------
  // What each step keeps
  // ---------------------------------------------------------------------------

  ghost function Posted(g: Hist, wr: Wr): Hist {
    g.(log := g.log + [Req(wr.id, BlocksUsed(g.log), wr.blocks)])
  }

  ghost function Told(g: Hist): Hist {
    g.(told := |g.log|)
  }

  ghost predicate Fits(s: Sq, wr: Wr) {
    1 <= wr.blocks <= s.cfg.maxBlocks
  }

  /** The overflow test lets a request through exactly when fewer than `maxPost` requests
      are not retired. */
  lemma OverflowExact(s: Sq, g: Hist)
    requires Inv(s, g)
    ensures Overflow(s) <==> |g.log| == g.retired + s.cfg.maxPost
  {
    Distance(g.told, g.retired);
  }

  /** The new request's blocks fall on no slot of a request that is not retired. */
  lemma BlocksSafe(s: Sq, g: Hist, wr: Wr, h: nat, i: nat, j: nat)
    requires Inv(s, g) && CanPost(s, wr) && Fits(s, wr) && g.retired <= h < |g.log|
    requires i < g.log[h].blocks && j < wr.blocks
    ensures Pos(g.log[h].start + i, s.cfg.wqeCnt) != Pos(s.scurPost + j, s.cfg.wqeCnt)
  {
    OverflowExact(s, g);
    Window(s, g, h);
    var used := BlocksUsed(g.log);
    PosDiffer(g.log[h].start + i, used + j, s.cfg.wqeCnt);
    PosShift(used, j, s.cfg.wqeCnt);
  }

  lemma PosShift(n: nat, j: nat, cnt: nat)
    requires cnt > 0 && WRAP16 % cnt == 0
    ensures Pos(n % WRAP32 + j, cnt) == Pos(n + j, cnt)
  {
    PosWrapped(n + j, cnt);
    PosWrapped(n % WRAP32 + j, cnt);
    AddWrap(n, j);
  }

  lemma PostKeepsInv(s: Sq, g: Hist, wr: Wr)
    requires Inv(s, g) && CanPost(s, wr) && Fits(s, wr)
    ensures Inv(PostOne(s, wr), Posted(g, wr))
  {
    var s', g', cnt := PostOne(s, wr), Posted(g, wr), s.cfg.wqeCnt;
    OverflowExact(s, g);
    PosWrapped(BlocksUsed(g.log), cnt);
    AddWrap(g.told, s.nreq);
    AddWrap(BlocksUsed(g.log), wr.blocks);
    PostKeepsLog(g.log, s.cfg.maxBlocks, Req(wr.id, BlocksUsed(g.log), wr.blocks));
    forall h: nat | g'.retired <= h < |g'.log| ensures Remembered(s', g'.log, h) {
      if h < |g.log| {
        assert Remembered(s, g.log, h);
        BlocksSafe(s, g, wr, h, 0, 0);
      }
    }
  }

  lemma PostKeepsLog(log: seq<Req>, maxBlocks: nat, r: Req)
    requires Contiguous(log, maxBlocks) && r.start == BlocksUsed(log) && 1 <= r.blocks <= maxBlocks
    ensures Contiguous(log + [r], maxBlocks)
  {
    var log' := log + [r];
    forall h | 0 < h < |log'| ensures Follows(log', h) {
      assert h < |log| ==> Follows(log, h);
    }
  }

  lemma EndKeepsInv(s: Sq, g: Hist)
    requires Inv(s, g)
    ensures Inv(EndList(s), Told(g))
  {
    AddWrap(g.told, s.nreq);
    var s' := EndList(s);
    forall h: nat | g.retired <= h < |g.log| ensures Remembered(s', g.log, h) {
      assert Remembered(s, g.log, h);
    }
  }

  /** Polling the completion of request `h` reports `h`'s identity and retires everything up
      to it, the unsignaled requests before it included. */
  lemma PollKeepsInv(s: Sq, g: Hist, h: nat)
    requires Inv(s, g) && g.retired <= h < g.told
    ensures var (id, s') := PollSend(s, g.log[h].start % WRAP16);
            && id == g.log[h].id
            && s'.tail == (h + 1) % WRAP32
            && Inv(s', g.(retired := h + 1))
  {
    assert Remembered(s, g.log, h);
    PosWrapped(g.log[h].start, s.cfg.wqeCnt);
    AddWrap(h, 1);
    var s' := PollSend(s, g.log[h].start % WRAP16).1;
    forall k: nat | h + 1 <= k < |g.log| ensures Remembered(s', g.log, k) {
      assert Remembered(s, g.log, k);
    }
  }

  // ---------------------------------------------------------------------------
  // Runs
  // ---------------------------------------------------------------------------

  /** Steps in any order: a request of the current list, the end of the list (also after a
      rejected request), a completion of a request hardware knows of. */
  datatype Step = Post(wr: Wr) | End | Complete(h: nat, id: nat)

  datatype State = State(sq: Sq, hist: Hist)

  ghost predicate Init(st: State) {
    && Sized(st.sq.cfg) && st.sq.cfg.maxPost < WRAP32
    && |st.sq.wrid| == |st.sq.wqeHead| == st.sq.cfg.wqeCnt
    && st.sq.head == st.sq.tail == st.sq.scurPost == st.sq.nreq == 0
    && st.hist == Hist([], 0, 0)
  }

  ghost predicate Next(st: State, step: Step, st': State) {
    && st.sq.cfg.wqeCnt > 0 && |st.sq.wrid| == |st.sq.wqeHead| == st.sq.cfg.wqeCnt
    && match step
       case Post(wr) =>
         && CanPost(st.sq, wr) && Fits(st.sq, wr)
         && st' == State(PostOne(st.sq, wr), Posted(st.hist, wr))
       case End =>
         st' == State(EndList(st.sq), Told(st.hist))
       case Complete(h, id) =>
         && st.hist.retired <= h < st.hist.told && h < |st.hist.log|
         && var (id', sq') := PollSend(st.sq, st.hist.log[h].start % WRAP16);
            id == id' && st' == State(sq', st.hist.(retired := h + 1))
  }

  ghost predicate Run(sts: seq<State>, steps: seq<Step>) {
    && |sts| == |steps| + 1 && Init(sts[0])
    && forall i :: 0 <= i < |steps| ==> Next(sts[i], steps[i], sts[i + 1])
  }

  lemma {:induction false} RunKeepsInv(sts: seq<State>, steps: seq<Step>, i: nat)
    requires Run(sts, steps) && i < |sts|
    ensures Inv(sts[i].sq, sts[i].hist)
  {
    if i > 0 {
      RunKeepsInv(sts, steps, i - 1);
      var st := sts[i - 1];
      match steps[i - 1]
      case Post(wr) => PostKeepsInv(st.sq, st.hist, wr);
      case End => EndKeepsInv(st.sq, st.hist);
      case Complete(h, id) => PollKeepsInv(st.sq, st.hist, h);
    }
  }

  /** In every interleaving, requests not retired never exceed `maxPost`, and a post is
      turned away for lack of room exactly when that many are outstanding. */
  lemma RunBounded(sts: seq<State>, steps: seq<Step>, i: nat)
    requires Run(sts, steps) && i < |sts|
    ensures var st := sts[i];
            && |st.hist.log| - st.hist.retired <= st.sq.cfg.maxPost
            && (Overflow(st.sq) <==> |st.hist.log| - st.hist.retired == st.sq.cfg.maxPost)
  {
    RunKeepsInv(sts, steps, i);
    OverflowExact(sts[i].sq, sts[i].hist);
  }

  /** In every interleaving, no post writes a block of a request that is not retired. */
  lemma RunKeepsBlocks(sts: seq<State>, steps: seq<Step>, i: nat, h: nat, a: nat, b: nat)
    requires Run(sts, steps) && i < |steps| && steps[i].Post?
    requires sts[i].hist.retired <= h < |sts[i].hist.log|
    requires a < sts[i].hist.log[h].blocks && b < steps[i].wr.blocks
    ensures var sq, r := sts[i].sq, sts[i].hist.log[h];
            sq.cfg.wqeCnt > 0 && Pos(r.start + a, sq.cfg.wqeCnt) != Pos(sq.scurPost + b, sq.cfg.wqeCnt)
  {
    RunKeepsInv(sts, steps, i);
    assert Next(sts[i], steps[i], sts[i + 1]);
    BlocksSafe(sts[i].sq, sts[i].hist, steps[i].wr, h, a, b);
  }

  /** In every interleaving, polling request `h` reports the identity it was posted with and
      moves the tail to just after it, never past the head. */
  lemma RunReportsRight(sts: seq<State>, steps: seq<Step>, i: nat)
    requires Run(sts, steps) && i < |steps| && steps[i].Complete?
    ensures var g, h := sts[i].hist, steps[i].h;
            && h < |g.log| && steps[i].id == g.log[h].id
            && sts[i + 1].sq.tail == (h + 1) % WRAP32
            && sts[i + 1].hist.retired == h + 1 <= sts[i + 1].hist.told
  {
    RunKeepsInv(sts, steps, i);
    assert Next(sts[i], steps[i], sts[i + 1]);
    PollKeepsInv(sts[i].sq, sts[i].hist, steps[i].h);
  }

  // ---------------------------------------------------------------------------
  // The queue in memory
  // ---------------------------------------------------------------------------

  /** The state after the first `n` requests of a list. */
  ghost function PostMany(s: Sq, wrs: seq<Wr>, n: nat): (r: Sq)
    requires s.cfg.wqeCnt > 0 && |s.wrid| == |s.wqeHead| == s.cfg.wqeCnt && n <= |wrs|
    ensures r.cfg == s.cfg && |r.wrid| == |r.wqeHead| == s.cfg.wqeCnt
  {
    if n == 0 then s else PostOne(PostMany(s, wrs, n - 1), wrs[n - 1])
  }

  ghost function HistMany(g: Hist, wrs: seq<Wr>, n: nat): Hist
    requires n <= |wrs|
  {
    if n == 0 then g else Posted(HistMany(g, wrs, n - 1), wrs[n - 1])
  }

  /** Posting a list appends its requests, in order, and changes nothing else. */
  lemma {:induction false} HistManyLog(g: Hist, wrs: seq<Wr>, n: nat)
    requires n <= |wrs|
    ensures Appended(g.log, wrs, n, HistMany(g, wrs, n).log)
    ensures HistMany(g, wrs, n).told == g.told && HistMany(g, wrs, n).retired == g.retired
  {
    if n > 0 { HistManyLog(g, wrs, n - 1); }
  }

  /** A request is turned away exactly when as many are outstanding as may be, or it gathers too
      many segments. */
  lemma TurnedAway(s: Sq, g: Hist, wr: Wr)
    requires Inv(s, g)
    ensures !CanPost(s, wr) <==> |g.log| == g.retired + s.cfg.maxPost || wr.numSge > s.cfg.maxGs
  {
    Distance(g.told, g.retired);
  }

  /** `log'` continues `log` with the first `n` requests of `wrs`, in order. */
  ghost predicate Appended(log: seq<Req>, wrs: seq<Wr>, n: nat, log': seq<Req>) {
    && n <= |wrs| && |log'| == |log| + n && log <= log'
    && forall k: nat {:trigger wrs[k]} :: k < n ==>
         log'[|log| + k].id == wrs[k].id && log'[|log| + k].blocks == wrs[k].blocks
  }

  class Queue {
    const cfg: Config
    const wrid: array<nat>
    const wqeHead: array<nat>
    var head: nat
    var tail: nat
    var scurPost: nat
    ghost var hist: Hist

    ghost function View(nreq: nat): Sq
      reads this, wrid, wqeHead
    {
      Sq(cfg, head, tail, scurPost, nreq, wrid[..], wqeHead[..])
    }

    ghost predicate Valid()
      reads this, wrid, wqeHead
    {
      wrid != wqeHead && Inv(View(0), hist)
    }

    /** A new queue: mlx5_init_qp_indices, and the side tables mlx5_alloc_qp_buf allocates. */
    constructor (cfg: Config)
      requires Sized(cfg) && cfg.maxPost < WRAP32
      ensures Valid() && fresh(wrid) && fresh(wqeHead) && this.cfg == cfg && hist == Hist([], 0, 0)
    {
      this.cfg := cfg;
      wrid := new nat[cfg.wqeCnt](_ => 0);
      wqeHead := new nat[cfg.wqeCnt](_ => 0);
      head, tail, scurPost := 0, 0, 0;
      hist := Hist([], 0, 0);
    }

    /** The bookkeeping of one request, the `nreq`-th of its list. */
    method PutOne(wr: Wr, nreq: nat)
      requires wrid != wqeHead && cfg.wqeCnt > 0 && wrid.Length == wqeHead.Length == cfg.wqeCnt
      modifies this`scurPost, wrid, wqeHead
      ensures View(nreq + 1) == PostOne(old(View(nreq)), wr)
    {
      var idx := Pos(scurPost, cfg.wqeCnt);
      wrid[idx] := wr.id;
      wqeHead[idx] := (head + nreq) % WRAP32;
      scurPost := (scurPost + wr.blocks) % WRAP32;
    }

    /** One turn of the loop in __mlx5_post_send: the `nreq`-th request of the list is posted or
        turned away. */
    method PostNext(wr: Wr, nreq: nat) returns (ok: bool)
      requires wrid != wqeHead && Inv(View(nreq), hist) && 1 <= wr.blocks <= cfg.maxBlocks
      modifies this`scurPost, this`hist, wrid, wqeHead
      ensures ok == CanPost(old(View(nreq)), wr)
      ensures !ok <==> |old(hist).log| == old(hist).retired + cfg.maxPost || wr.numSge > cfg.maxGs
      ensures if ok then Inv(View(nreq + 1), hist) && View(nreq + 1) == PostOne(old(View(nreq)), wr)
                         && hist == Posted(old(hist), wr)
              else View(nreq) == old(View(nreq)) && hist == old(hist)
    {
      ghost var s := View(nreq);
      TurnedAway(s, hist, wr);
      if (head - tail) % WRAP32 + nreq >= cfg.maxPost || wr.numSge > cfg.maxGs {
        return false;
      }
      PostKeepsInv(s, hist, wr);
      PutOne(wr, nreq);
      hist := Posted(hist, wr);
      assert View(nreq + 1) == PostOne(s, wr);
      return true;
    }

    /** The end of __mlx5_post_send, where hardware is told. */
    method TellHardware(nreq: nat)
      requires wrid != wqeHead && Inv(View(nreq), hist)
      modifies this`head, this`hist
      ensures Valid() && View(0) == EndList(old(View(nreq))) && hist == Told(old(hist))
    {
      EndKeepsInv(View(nreq), hist);
      ghost var s := View(nreq);
      head := (head + nreq) % WRAP32;
      hist := Told(hist);
      assert View(0) == EndList(s);
    }

    /** __mlx5_post_send: posts requests until one is turned away, then tells hardware. */
    method PostSend(wrs: seq<Wr>) returns (n: nat, ok: bool)
      requires Valid() && forall k :: 0 <= k < |wrs| ==> 1 <= wrs[k].blocks <= cfg.maxBlocks
      modifies this`head, this`scurPost, this`hist, wrid, wqeHead
      ensures Valid()
      ensures n <= |wrs| && (ok <==> n == |wrs|)
      ensures View(0) == EndList(PostMany(old(View(0)), wrs, n))
      ensures !ok ==> !CanPost(PostMany(old(View(0)), wrs, n), wrs[n])
      ensures hist == Told(HistMany(old(hist), wrs, n)) && Appended(old(hist).log, wrs, n, hist.log)
      ensures hist.told == |hist.log| && hist.retired == old(hist).retired
      ensures forall k :: 0 <= k < n ==> wrs[k].numSge <= cfg.maxGs
      ensures !ok <==> n < |wrs| && (|hist.log| == hist.retired + cfg.maxPost || wrs[n].numSge > cfg.maxGs)
    {
      ghost var s0, g0 := View(0), hist;
      n := 0;
      ok := true;
      while n < |wrs|
        invariant n <= |wrs| && wrid != wqeHead && ok
        invariant View(n) == PostMany(s0, wrs, n) && Inv(View(n), hist)
        invariant hist == HistMany(g0, wrs, n)
        invariant forall k :: 0 <= k < n ==> wrs[k].numSge <= cfg.maxGs
      {
        ok := PostNext(wrs[n], n);
        if !ok { break; }
        n := n + 1;
      }
      HistManyLog(g0, wrs, n);
      TellHardware(n);
    }

    /** The MLX5_CQE_REQ case of mlx5_poll_one, for the completion of request `h`. */
    method PollReq(wqeCtr: nat, ghost h: nat) returns (id: nat)
      requires h < |hist.log| && hist.retired <= h < hist.told && wqeCtr == hist.log[h].start % WRAP16 && Valid()
      modifies this`tail, this`hist
      ensures hist == old(hist).(retired := h + 1) && id == old(hist).log[h].id
      ensures Valid()
    {
      PollKeepsInv(View(0), hist, h);
      ghost var s := View(0);
      var idx := Pos(wqeCtr, cfg.wqeCnt);
      id := wrid[idx];
      tail := (wqeHead[idx] + 1) % WRAP32;
      hist := hist.(retired := h + 1);
      assert View(0) == PollSend(s, wqeCtr).1;
    }
  }
}
