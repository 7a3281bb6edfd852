/** What every step of the request protocol keeps. */
module WindowInv {

  import opened IndexMath
  import opened WindowState

  // ---------------------------------------------------------------------------
  // Totals over a client's workers
  // ---------------------------------------------------------------------------

  datatype Count = SentCount | AnsweredCount | ReceivedCount

  ghost function Value(p: Pair, k: Count): nat {
    match k
    case SentCount => |p.sent|
    case AnsweredCount => p.answered
    case ReceivedCount => p.received
  }

  ghost function Total(row: seq<Pair>, k: Count): nat {
    if row == [] then 0 else Total(row[..|row| - 1], k) + Value(row[|row| - 1], k)
  }

  lemma {:induction false} TotalUpdate(row: seq<Pair>, w: nat, p: Pair, k: Count)
    requires w < |row|
    ensures Total(row[w := p], k) == Total(row, k) - Value(row[w], k) + Value(p, k)
  {
    var n := |row| - 1;
    if w < n {
      TotalUpdate(row[..n], w, p, k);
      assert row[w := p][..n] == row[..n][w := p];
    } else {
      assert row[w := p][..n] == row[..n];
    }
  }

  lemma {:induction false} TotalSame(row: seq<Pair>, w: nat, p: Pair, k: Count)
    requires w < |row| && Value(p, k) == Value(row[w], k)
    ensures Total(row[w := p], k) == Total(row, k)
  {
    TotalUpdate(row, w, p, k);
  }

  /** One pair's outstanding requests are at most the client's. */
  lemma {:induction false} OneOfTotal(row: seq<Pair>, w: nat)
    requires w < |row| && forall i :: 0 <= i < |row| ==> row[i].received <= |row[i].sent|
    ensures 0 <= |row[w].sent| - row[w].received <= Total(row, SentCount) - Total(row, ReceivedCount)
  {
    var n := |row| - 1;
    if n > 0 { OneOfTotal(row[..n], if w < n then w else 0); }
  }

  /** If less has come back than was sent, some worker owes something. */
  lemma {:induction false} SomeoneOwes(row: seq<Pair>) returns (w: nat)
    requires Total(row, ReceivedCount) < Total(row, SentCount)
    ensures w < |row| && row[w].received < |row[w].sent|
  {
    var n := |row| - 1;
    if row[n].received < |row[n].sent| {
      w := n;
    } else {
      w := SomeoneOwes(row[..n]);
    }
  }

  // ---------------------------------------------------------------------------
  // Writes on the wire
  // ---------------------------------------------------------------------------

  /** The posted WRITEs of client `c`, oldest first, are for each worker exactly the requests
      from `from` on, each aimed at the slot its number says. */
  ghost predicate WireOk(mode: Mode, c: nat, wire: seq<Write>, row: seq<Pair>, from: seq<nat>)
    requires |from| == |row|
    decreases |wire|
  {
    if wire == [] then
      forall w {:trigger row[w]} {:trigger from[w]} :: 0 <= w < |row| ==> from[w] == |row[w].sent|
    else
      var e := wire[0];
      && e.worker < |row| && e.number == from[e.worker] < |row[e.worker].sent|
      && IsRequest(mode, e.cell.op) && e.cell.req == row[e.worker].sent[e.number]
      && e.offset == Offset(e.worker, c, Pos(e.number, WINDOW))
      && WireOk(mode, c, wire[1..], row, from[e.worker := e.number + 1])
  }

  /** Only what was sent matters. */
  lemma {:induction false} WireSame(mode: Mode, c: nat, wire: seq<Write>, row: seq<Pair>, row': seq<Pair>,
                                    from: seq<nat>)
    requires |from| == |row| == |row'| && WireOk(mode, c, wire, row, from)
    requires forall w {:trigger row[w]} {:trigger row'[w]} :: 0 <= w < |row| ==> row'[w].sent == row[w].sent
    ensures WireOk(mode, c, wire, row', from)
    decreases |wire|
  {
    if wire != [] {
      var e := wire[0];
      WireSame(mode, c, wire[1..], row, row', from[e.worker := e.number + 1]);
    }
  }

  /** A request sent joins the end of the wire. */
  lemma {:induction false} WireAppend(mode: Mode, c: nat, wire: seq<Write>, row: seq<Pair>, from: seq<nat>, w: nat,
                                      cell: Cell)
    requires |from| == |row| && WireOk(mode, c, wire, row, from) && w < |row| && IsRequest(mode, cell.op)
    ensures var n := |row[w].sent|;
            WireOk(mode, c, wire + [Write(w, Offset(w, c, Pos(n, WINDOW)), cell, n)],
                   row[w := row[w].(sent := row[w].sent + [cell.req])], from)
    decreases |wire|
  {
    var n := |row[w].sent|;
    var e := Write(w, Offset(w, c, Pos(n, WINDOW)), cell, n);
    var row' := row[w := row[w].(sent := row[w].sent + [cell.req])];
    if wire == [] {
      assert wire + [e] == [e] && [e][1..] == [];
      assert from[w] == n && row'[w].sent[n] == cell.req;
      assert WireOk(mode, c, [], row', from[w := n + 1]);
    } else {
      var d := wire[0];
      WireAppend(mode, c, wire[1..], row, from[d.worker := d.number + 1], w, cell);
      assert (wire + [e])[1..] == wire[1..] + [e];
      assert row'[d.worker].sent[d.number] == row[d.worker].sent[d.number];
    }
  }

  // ---------------------------------------------------------------------------
  // Invariants
  // ---------------------------------------------------------------------------

  ghost function Delivered(row: seq<Pair>): (d: seq<nat>)
    ensures |d| == |row|
  {
    if row == [] then [] else Delivered(row[..|row| - 1]) + [row[|row| - 1].delivered]
  }

  lemma {:induction false} DeliveredAt(row: seq<Pair>, w: nat)
    requires w < |row|
    ensures Delivered(row)[w] == row[w].delivered
  {
    if w < |row| - 1 { DeliveredAt(row[..|row| - 1], w); }
  }

  lemma DeliveredUpdate(row: seq<Pair>, w: nat, p: Pair)
    requires w < |row|
    ensures Delivered(row[w := p]) == Delivered(row)[w := p.delivered]
  {
    var row' := row[w := p];
    forall i | 0 <= i < |row| ensures Delivered(row')[i] == Delivered(row)[w := p.delivered][i] {
      DeliveredAt(row, i);
      DeliveredAt(row', i);
    }
  }

  ghost predicate PairOk(p: Pair) {
    && p.received <= p.answered <= |p.got| <= p.delivered <= |p.sent|
    && p.got == p.sent[..|p.got|]
  }

  ghost predicate PairsOk(row: seq<Pair>) {
    forall w {:trigger row[w]} :: 0 <= w < |row| ==> PairOk(row[w])
  }

  /** The window slot to use next, per worker. */
  ghost predicate SlotsOk(ws: seq<nat>, row: seq<Pair>) {
    |ws| == |row| && forall w {:trigger ws[w]} :: 0 <= w < |row| ==> ws[w] == Pos(|row[w].sent|, WINDOW)
  }

  /** A window is sent after everything of the one before has come back; RECVs are posted a
      window ahead. */
  ghost predicate CountsOk(cl: Client) {
    && Total(cl.row, SentCount) == cl.nbTx
    && Total(cl.row, ReceivedCount) == cl.roundStart + cl.comps
    && cl.recvs + Total(cl.row, ReceivedCount) == cl.roundStart + (if cl.phase == NeedPoll then 2 * WINDOW else WINDOW)
    && cl.roundStart % WINDOW == 0
    && (if cl.phase == Sending then cl.roundStart <= cl.nbTx < cl.roundStart + WINDOW
        else cl.nbTx == cl.roundStart + WINDOW)
  }

  /** A client by itself. */
  ghost predicate ClientOk(mode: Mode, c: nat, cl: Client) {
    && PairsOk(cl.row) && SlotsOk(cl.ws, cl.row) && CountsOk(cl)
    && WireOk(mode, c, cl.wire, cl.row, Delivered(cl.row))
  }

  /** The slot of request `j` of a pair, once the worker has taken `taken` requests of
      `delivered` written: it holds the request if that has been written, and otherwise
      nothing that looks like one. */
  ghost predicate SlotOk(mode: Mode, region: seq<Cell>, w: nat, c: nat, p: Pair, j: nat) {
    var at := Offset(w, c, Pos(j, WINDOW));
    && at < |region| && p.delivered <= |p.sent|
    && (j < p.delivered ==> IsRequest(mode, region[at].op) && region[at].req == p.sent[j])
    && (j >= p.delivered ==> !IsNew(mode, region[at].op))
  }

  /** A client and a worker together. */
  ghost predicate WindowOk(mode: Mode, region: seq<Cell>, w: nat, c: nat, p: Pair, slot: nat) {
    && slot == Pos(|p.got|, WINDOW)
    && p.delivered <= |p.got| + WINDOW
    && forall j: nat {:trigger SlotOk(mode, region, w, c, p, j)} ::
         |p.got| <= j < |p.got| + WINDOW ==> SlotOk(mode, region, w, c, p, j)
  }

  /** How many requests of client `c` a batch holds. */
  ghost function InBatch(batch: seq<Item>, c: nat): nat {
    if batch == [] then 0 else InBatch(batch[1..], c) + (if batch[0].client == c then 1 else 0)
  }

  ghost predicate BatchOk(wk: Worker, c: nat, p: Pair) {
    |p.got| == p.answered + InBatch(wk.batch, c)
  }

  ghost predicate Inv(cfg: Config, s: State) {
    && Shaped(cfg, s)
    && (forall c: nat {:trigger ClientOk(cfg.mode, c, s.clients[c])} ::
          c < NUM_CLIENTS ==> ClientOk(cfg.mode, c, s.clients[c]))
    && (forall c: nat, w: nat {:trigger WindowAt(cfg, s, c, w)} ::
          c < NUM_CLIENTS && w < cfg.numWorkers ==> WindowAt(cfg, s, c, w))
    && (forall w: nat {:trigger s.workers[w]} :: w < cfg.numWorkers ==>
          && (s.workers[w].replying ==> s.workers[w].batch != [])
          && forall k {:trigger s.workers[w].batch[k]} :: 0 <= k < |s.workers[w].batch| ==>
            s.workers[w].batch[k].client < NUM_CLIENTS)
  }

  ghost predicate WindowAt(cfg: Config, s: State, c: nat, w: nat)
    requires Shaped(cfg, s) && c < NUM_CLIENTS && w < cfg.numWorkers
  {
    var p := s.clients[c].row[w];
    WindowOk(cfg.mode, s.region, w, c, p, s.workers[w].ws[c]) && BatchOk(s.workers[w], c, p)
  }

  // ---------------------------------------------------------------------------
  // What a client's steps keep
  // ---------------------------------------------------------------------------

  lemma {:induction false} TotalLe(row: seq<Pair>)
    requires forall i :: 0 <= i < |row| ==> row[i].received <= |row[i].sent|
    ensures Total(row, ReceivedCount) <= Total(row, SentCount)
  {
    if row != [] { TotalLe(row[..|row| - 1]); }
  }

  lemma {:induction false} AnsweredLe(row: seq<Pair>)
    requires PairsOk(row)
    ensures Total(row, AnsweredCount) <= Total(row, SentCount)
  {
    if row != [] {
      var front := row[..|row| - 1];
      forall w | 0 <= w < |front| ensures PairOk(front[w]) { assert front[w] == row[w]; }
      AnsweredLe(front);
      assert PairOk(row[|row| - 1]);
    }
  }

  lemma SendWire(mode: Mode, c: nat, cl: Client, w: nat, cell: Cell)
    requires ClientOk(mode, c, cl) && w < |cl.row| && IsRequest(mode, cell.op)
    ensures var cl' := Send(cl, c, w, cell);
            WireOk(mode, c, cl'.wire, cl'.row, Delivered(cl'.row))
  {
    var p' := cl.row[w].(sent := cl.row[w].sent + [cell.req]);
    WireAppend(mode, c, cl.wire, cl.row, Delivered(cl.row), w, cell);
    DeliveredAt(cl.row, w);
    DeliveredUpdate(cl.row, w, p');
    assert Delivered(cl.row)[w := p'.delivered] == Delivered(cl.row);
  }

  lemma RoundEnds(start: nat, n: nat)
    requires start % WINDOW == 0 && start < n <= start + WINDOW
    ensures n % WINDOW == 0 <==> n == start + WINDOW
  {
  }

  lemma SendCounts(cl: Client, c: nat, w: nat, cell: Cell)
    requires CountsOk(cl) && cl.phase == Sending && w < |cl.row| && w < |cl.ws|
    ensures CountsOk(Send(cl, c, w, cell))
  {
    var p' := cl.row[w].(sent := cl.row[w].sent + [cell.req]);
    TotalUpdate(cl.row, w, p', SentCount);
    TotalSame(cl.row, w, p', ReceivedCount);
    RoundEnds(cl.roundStart, cl.nbTx + 1);
  }

  lemma SendOk(mode: Mode, c: nat, cl: Client, w: nat, cell: Cell)
    requires ClientOk(mode, c, cl) && cl.phase == Sending && w < |cl.row| && IsRequest(mode, cell.op)
    ensures ClientOk(mode, c, Send(cl, c, w, cell))
  {
    PosNext(|cl.row[w].sent|, WINDOW);
    SendCounts(cl, c, w, cell);
    SendWire(mode, c, cl, w, cell);
  }

  lemma RefillOk(mode: Mode, c: nat, cl: Client)
    requires ClientOk(mode, c, cl) && cl.phase == NeedRefill
    ensures ClientOk(mode, c, Refill(cl))
  {
  }

  lemma PollWindowOk(mode: Mode, c: nat, cl: Client)
    requires ClientOk(mode, c, cl) && cl.phase == NeedPoll && cl.comps >= WINDOW
    ensures ClientOk(mode, c, PollWindow(cl))
  {
    TotalLe(cl.row);
  }

  /** A step that changes one pair but neither what it sent nor what it received. */
  lemma RowOk(mode: Mode, c: nat, cl: Client, w: nat, p: Pair)
    requires ClientOk(mode, c, cl) && w < |cl.row| && PairOk(p)
    requires p.sent == cl.row[w].sent && p.received == cl.row[w].received && p.delivered == cl.row[w].delivered
    ensures ClientOk(mode, c, cl.(row := cl.row[w := p]))
  {
    TotalSame(cl.row, w, p, SentCount);
    TotalSame(cl.row, w, p, ReceivedCount);
    DeliveredAt(cl.row, w);
    DeliveredUpdate(cl.row, w, p);
    assert Delivered(cl.row)[w := p.delivered] == Delivered(cl.row);
    WireSame(mode, c, cl.wire, cl.row, cl.row[w := p], Delivered(cl.row));
  }

  /** A RECV is posted for every response on its way. */
  lemma RecvPosted(mode: Mode, c: nat, cl: Client, w: nat)
    requires ClientOk(mode, c, cl) && w < |cl.row| && cl.row[w].received < cl.row[w].answered
    ensures cl.recvs > 0
  {
    OneOfTotal(cl.row, w);
  }

  lemma ReceiveOk(mode: Mode, c: nat, cl: Client, w: nat)
    requires ClientOk(mode, c, cl) && w < |cl.row| && cl.row[w].received < cl.row[w].answered && cl.recvs > 0
    ensures ClientOk(mode, c, Receive(cl, w))
  {
    var p := cl.row[w].(received := cl.row[w].received + 1);
    TotalSame(cl.row, w, p, SentCount);
    TotalUpdate(cl.row, w, p, ReceivedCount);
    DeliveredAt(cl.row, w);
    DeliveredUpdate(cl.row, w, p);
    assert Delivered(cl.row)[w := p.delivered] == Delivered(cl.row);
    WireSame(mode, c, cl.wire, cl.row, cl.row[w := p], Delivered(cl.row));
  }

  /** The oldest WRITE is the next request its worker's window is due. */
  lemma WireHead(mode: Mode, c: nat, cl: Client)
    requires ClientOk(mode, c, cl) && cl.wire != []
    ensures var e := cl.wire[0];
            && e.worker < |cl.row| && e.number == cl.row[e.worker].delivered < |cl.row[e.worker].sent|
            && IsRequest(mode, e.cell.op) && e.cell.req == cl.row[e.worker].sent[e.number]
            && e.offset == Offset(e.worker, c, Pos(e.number, WINDOW))
  {
    DeliveredAt(cl.row, cl.wire[0].worker);
  }

  lemma ShiftOk(mode: Mode, c: nat, cl: Client)
    requires ClientOk(mode, c, cl) && cl.wire != [] && cl.wire[0].worker < |cl.row|
    ensures ClientOk(mode, c, Shift(cl))
  {
    WireHead(mode, c, cl);
    var w := cl.wire[0].worker;
    var p := cl.row[w].(delivered := cl.row[w].delivered + 1);
    ShiftCounts(cl, w, p);
    ShiftWire(mode, c, cl, w, p);
  }

  lemma ShiftCounts(cl: Client, w: nat, p: Pair)
    requires CountsOk(cl) && w < |cl.row| && p == cl.row[w].(delivered := cl.row[w].delivered + 1) && cl.wire != []
    ensures CountsOk(cl.(wire := cl.wire[1..], row := cl.row[w := p]))
  {
    TotalSame(cl.row, w, p, SentCount);
    TotalSame(cl.row, w, p, ReceivedCount);
  }

  lemma ShiftWire(mode: Mode, c: nat, cl: Client, w: nat, p: Pair)
    requires cl.wire != [] && w == cl.wire[0].worker < |cl.row|
    requires WireOk(mode, c, cl.wire, cl.row, Delivered(cl.row))
    requires p == cl.row[w].(delivered := cl.row[w].delivered + 1)
    ensures WireOk(mode, c, cl.wire[1..], cl.row[w := p], Delivered(cl.row[w := p]))
  {
    DeliveredAt(cl.row, w);
    DeliveredUpdate(cl.row, w, p);
    WireSame(mode, c, cl.wire[1..], cl.row, cl.row[w := p], Delivered(cl.row)[w := p.delivered]);
  }

  /** Less than a window of a client's requests to one worker is untaken before a request
      that is still on the wire. */
  lemma WindowHasRoom(mode: Mode, c: nat, cl: Client, w: nat)
    requires ClientOk(mode, c, cl) && w < |cl.row|
    ensures |cl.row[w].sent| <= cl.row[w].received + WINDOW <= |cl.row[w].got| + WINDOW
  {
    OneOfTotal(cl.row, w);
  }

  // ---------------------------------------------------------------------------
  // What steps keep of the windows
  // ---------------------------------------------------------------------------

  /** How the region is laid out: a window's slots one after the other, then the next client's window,
      and after the last client's the next worker's. */
  lemma OffsetLayout(w: nat, c: nat, k: nat)
    requires c < NUM_CLIENTS && k < WINDOW
    ensures Offset(0, 0, 0) == 0
    ensures var next := Offset(w, c, k) + 1;
            if k + 1 < WINDOW then next == Offset(w, c, k + 1)
            else if c + 1 < NUM_CLIENTS then next == Offset(w, c + 1, 0)
            else next == Offset(w + 1, 0, 0)
  {
  }

  /** OFFSET gives every slot of every window its own place. */
  lemma OffsetInjective(w: nat, c: nat, k: nat, w': nat, c': nat, k': nat)
    requires c < NUM_CLIENTS && c' < NUM_CLIENTS && k < WINDOW && k' < WINDOW
    requires Offset(w, c, k) == Offset(w', c', k')
    ensures w == w' && c == c' && k == k'
  {
  }

  lemma OffsetInRegion(w: nat, c: nat, k: nat, numWorkers: nat)
    requires w < numWorkers && c < NUM_CLIENTS && k < WINDOW
    ensures Offset(w, c, k) < numWorkers * WORKER_SLOTS
  {
  }

  const HERD_WORKERS := 12
  const HERD_REGION := 16 * 1024 * 1024
  const SEQUENCER_WORKERS := 6
  const SEQUENCER_REGION := 2 * 1024 * 1024

  /** Every slot of every window lies inside its program's region: 64-byte requests in HERD, 8-byte
      ones in the sequencer. */
  lemma RegionsSuffice(w: nat, c: nat, k: nat)
    requires c < NUM_CLIENTS && k < WINDOW
    ensures w < HERD_WORKERS ==> 64 * (Offset(w, c, k) + 1) <= HERD_REGION
    ensures w < SEQUENCER_WORKERS ==> 8 * (Offset(w, c, k) + 1) <= SEQUENCER_REGION
  {
  }

  lemma SendWindow(mode: Mode, region: seq<Cell>, w: nat, c: nat, p: Pair, slot: nat, req: nat)
    requires WindowOk(mode, region, w, c, p, slot) && PairOk(p)
    ensures WindowOk(mode, region, w, c, p.(sent := p.sent + [req]), slot)
  {
    var p' := p.(sent := p.sent + [req]);
    forall j: nat | |p.got| <= j < |p.got| + WINDOW ensures SlotOk(mode, region, w, c, p', j) {
      assert SlotOk(mode, region, w, c, p, j);
    }
  }

  /** Writes outside a pair's window leave it alone. */
  lemma OtherWindow(mode: Mode, region: seq<Cell>, w: nat, c: nat, p: Pair, slot: nat, at: nat, cell: Cell)
    requires WindowOk(mode, region, w, c, p, slot) && at < |region|
    requires forall k: nat :: k < WINDOW ==> Offset(w, c, k) != at
    ensures WindowOk(mode, region[at := cell], w, c, p, slot)
  {
    var region' := region[at := cell];
    forall j: nat | |p.got| <= j < |p.got| + WINDOW ensures SlotOk(mode, region', w, c, p, j) {
      assert SlotOk(mode, region, w, c, p, j);
      assert Pos(j, WINDOW) < WINDOW;
    }
  }

  /** A request delivered lands in a slot that holds none. */
  lemma DeliverWindow(mode: Mode, region: seq<Cell>, w: nat, c: nat, p: Pair, slot: nat, cell: Cell)
    requires WindowOk(mode, region, w, c, p, slot) && PairOk(p) && c < NUM_CLIENTS
    requires p.delivered < |p.sent| <= |p.got| + WINDOW
    requires IsRequest(mode, cell.op) && cell.req == p.sent[p.delivered]
    ensures var at := Offset(w, c, Pos(p.delivered, WINDOW));
            && at < |region| && !IsNew(mode, region[at].op)
            && WindowOk(mode, region[at := cell], w, c, p.(delivered := p.delivered + 1), slot)
  {
    var d := p.delivered;
    var at := Offset(w, c, Pos(d, WINDOW));
    assert SlotOk(mode, region, w, c, p, d);
    var p' := p.(delivered := d + 1);
    var region' := region[at := cell];
    forall j: nat | |p.got| <= j < |p.got| + WINDOW ensures SlotOk(mode, region', w, c, p', j) {
      assert SlotOk(mode, region, w, c, p, j);
      if j < d { PosDiffer(j, d, WINDOW); }
      if d < j { PosDiffer(d, j, WINDOW); }
    }
  }

  /** A worker finds a request in the slot it looks at exactly when one it has not taken has
      been delivered, and then it is the next one in the order of sending. */
  lemma FindsNext(mode: Mode, region: seq<Cell>, w: nat, c: nat, p: Pair, slot: nat)
    requires WindowOk(mode, region, w, c, p, slot) && PairOk(p)
    ensures var at := Offset(w, c, slot);
            && at < |region|
            && (IsNew(mode, region[at].op) <==> |p.got| < p.delivered)
            && (|p.got| < p.delivered ==> IsRequest(mode, region[at].op) && region[at].req == p.sent[|p.got|])
  {
    assert SlotOk(mode, region, w, c, p, |p.got|);
  }

  lemma TakeWindow(mode: Mode, region: seq<Cell>, w: nat, c: nat, p: Pair, slot: nat)
    requires WindowOk(mode, region, w, c, p, slot) && PairOk(p) && c < NUM_CLIENTS && |p.got| < p.delivered
    ensures var at := Offset(w, c, slot);
            && at < |region| && Mark(mode, region[at].op) >= 0
            && WindowOk(mode, region[at := region[at].(op := Mark(mode, region[at].op))], w, c,
                        p.(got := p.got + [region[at].req]), Bumped(slot, WINDOW))
  {
    var n, at := |p.got|, Offset(w, c, slot);
    FindsNext(mode, region, w, c, p, slot);
    PosNext(n, WINDOW);
    var region' := region[at := region[at].(op := Mark(mode, region[at].op))];
    var p' := p.(got := p.got + [region[at].req]);
    forall j: nat | n + 1 <= j < n + 1 + WINDOW ensures SlotOk(mode, region', w, c, p', j) {
      if j < n + WINDOW {
        assert SlotOk(mode, region, w, c, p, j);
        PosDiffer(n, j, WINDOW);
      } else {
        assert Pos(j, WINDOW) == Pos(n, WINDOW);
      }
    }
  }
}
