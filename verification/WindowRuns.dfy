/** Safety of the request protocol over every interleaving of clients, deliveries and
    workers. */
module WindowRuns {

  import opened IndexMath
  import opened WindowState
  import opened WindowInv

  lemma SetClientShaped(cfg: Config, s: State, c: nat, cl: Client)
    requires Shaped(cfg, s) && c < NUM_CLIENTS && |cl.ws| == |cl.row| == cfg.numWorkers
    ensures Shaped(cfg, SetClient(s, c, cl))
  {
  }

  /** A step of one client that leaves the region and all workers alone. */
  lemma ClientStep(cfg: Config, s: State, c: nat, cl: Client)
    requires Inv(cfg, s) && c < NUM_CLIENTS && |cl.ws| == |cl.row| == cfg.numWorkers
    requires ClientOk(cfg.mode, c, cl)
    requires forall w: nat {:trigger cl.row[w]} :: w < cfg.numWorkers ==>
               && WindowOk(cfg.mode, s.region, w, c, cl.row[w], s.workers[w].ws[c])
               && BatchOk(s.workers[w], c, cl.row[w])
    ensures Inv(cfg, SetClient(s, c, cl))
  {
    var s' := SetClient(s, c, cl);
    SetClientShaped(cfg, s, c, cl);
    forall d: nat | d < NUM_CLIENTS ensures ClientOk(cfg.mode, d, s'.clients[d]) {
      assert ClientOk(cfg.mode, d, s.clients[d]);
    }
    forall d: nat, w: nat | d < NUM_CLIENTS && w < cfg.numWorkers ensures WindowAt(cfg, s', d, w) {
      if d != c { assert WindowAt(cfg, s, d, w); } else { assert s'.clients[d].row[w] == cl.row[w]; }
    }
  }

  lemma SendKeeps(cfg: Config, s: State, c: nat, w: nat, cell: Cell)
    requires Inv(cfg, s) && c < NUM_CLIENTS && w < cfg.numWorkers && IsRequest(cfg.mode, cell.op)
    requires s.clients[c].phase == Sending
    ensures Inv(cfg, SetClient(s, c, Send(s.clients[c], c, w, cell)))
  {
    var cl := s.clients[c];
    assert ClientOk(cfg.mode, c, cl);
    SendOk(cfg.mode, c, cl, w, cell);
    var cl' := Send(cl, c, w, cell);
    forall v: nat | v < cfg.numWorkers
      ensures && WindowOk(cfg.mode, s.region, v, c, cl'.row[v], s.workers[v].ws[c])
              && BatchOk(s.workers[v], c, cl'.row[v])
    {
      assert WindowAt(cfg, s, c, v);
      assert PairOk(cl.row[v]);
      if v == w { SendWindow(cfg.mode, s.region, w, c, cl.row[w], s.workers[w].ws[c], cell.req); }
    }
    ClientStep(cfg, s, c, cl');
  }

  /** Client steps that touch no request. */
  lemma QuietKeeps(cfg: Config, s: State, c: nat, cl: Client)
    requires Inv(cfg, s) && c < NUM_CLIENTS && ClientOk(cfg.mode, c, cl) && cl.row == s.clients[c].row
    ensures Inv(cfg, SetClient(s, c, cl))
  {
    assert ClientOk(cfg.mode, c, s.clients[c]);
    forall v: nat | v < cfg.numWorkers
      ensures && WindowOk(cfg.mode, s.region, v, c, cl.row[v], s.workers[v].ws[c])
              && BatchOk(s.workers[v], c, cl.row[v])
    {
      assert WindowAt(cfg, s, c, v);
    }
    ClientStep(cfg, s, c, cl);
  }

  lemma ReceiveKeeps(cfg: Config, s: State, c: nat, w: nat)
    requires Inv(cfg, s) && c < NUM_CLIENTS && w < cfg.numWorkers && s.clients[c].recvs > 0
    requires s.clients[c].row[w].received < s.clients[c].row[w].answered
    ensures Inv(cfg, SetClient(s, c, Receive(s.clients[c], w)))
  {
    var cl := s.clients[c];
    assert ClientOk(cfg.mode, c, cl);
    ReceiveOk(cfg.mode, c, cl, w);
    var cl' := Receive(cl, w);
    forall v: nat | v < cfg.numWorkers
      ensures && WindowOk(cfg.mode, s.region, v, c, cl'.row[v], s.workers[v].ws[c])
              && BatchOk(s.workers[v], c, cl'.row[v])
    {
      assert WindowAt(cfg, s, c, v);
      if v == w { SameWindow(cfg.mode, s.region, w, c, cl.row[w], cl'.row[w], s.workers[w].ws[c]); }
    }
    ClientStep(cfg, s, c, cl');
  }

  /** A window depends on what was sent, delivered and taken. */
  lemma SameWindow(mode: Mode, region: seq<Cell>, w: nat, c: nat, p: Pair, p': Pair, slot: nat)
    requires WindowOk(mode, region, w, c, p, slot)
    requires p'.sent == p.sent && p'.delivered == p.delivered && p'.got == p.got
    ensures WindowOk(mode, region, w, c, p', slot)
  {
    forall j: nat | |p.got| <= j < |p.got| + WINDOW ensures SlotOk(mode, region, w, c, p', j) {
      assert SlotOk(mode, region, w, c, p, j);
    }
  }

  // ---------------------------------------------------------------------------
  // Delivery
  // ---------------------------------------------------------------------------

  ghost function Deliver(s: State, c: nat): State
    requires c < |s.clients| && s.clients[c].wire != []
    requires s.clients[c].wire[0].worker < |s.clients[c].row| && s.clients[c].wire[0].offset < |s.region|
  {
    var e := s.clients[c].wire[0];
    SetClient(s, c, Shift(s.clients[c])).(region := s.region[e.offset := e.cell])
  }

  /** A client never overwrites a request that has not been taken: the slot a WRITE lands in
      holds none. */
  lemma NeverOverwrites(cfg: Config, s: State, c: nat)
    requires Inv(cfg, s) && c < NUM_CLIENTS && s.clients[c].wire != []
    ensures var e := s.clients[c].wire[0];
            && e.worker < cfg.numWorkers && e.offset < |s.region|
            && !IsNew(cfg.mode, s.region[e.offset].op)
  {
    var cl := s.clients[c];
    assert ClientOk(cfg.mode, c, cl);
    WireHead(cfg.mode, c, cl);
    var w := cl.wire[0].worker;
    assert WindowAt(cfg, s, c, w);
    WindowHasRoom(cfg.mode, c, cl, w);
    DeliverWindow(cfg.mode, s.region, w, c, cl.row[w], s.workers[w].ws[c], cl.wire[0].cell);
  }

  lemma DeliverWindows(cfg: Config, s: State, c: nat, d: nat, v: nat)
    requires Inv(cfg, s) && c < NUM_CLIENTS && s.clients[c].wire != []
    requires s.clients[c].wire[0].worker < cfg.numWorkers && s.clients[c].wire[0].offset < |s.region|
    requires d < NUM_CLIENTS && v < cfg.numWorkers
    requires Shaped(cfg, Deliver(s, c))
    ensures WindowAt(cfg, Deliver(s, c), d, v)
  {
    var cl, s' := s.clients[c], Deliver(s, c);
    var e := cl.wire[0];
    assert ClientOk(cfg.mode, c, cl);
    WireHead(cfg.mode, c, cl);
    assert WindowAt(cfg, s, d, v);
    if d == c && v == e.worker {
      WindowHasRoom(cfg.mode, c, cl, v);
      DeliverWindow(cfg.mode, s.region, v, c, cl.row[v], s.workers[v].ws[c], e.cell);
    } else {
      forall k: nat | k < WINDOW ensures Offset(v, d, k) != e.offset {
        if Offset(v, d, k) == e.offset { OffsetInjective(v, d, k, e.worker, c, Pos(e.number, WINDOW)); }
      }
      OtherWindow(cfg.mode, s.region, v, d, s.clients[d].row[v], s.workers[v].ws[d], e.offset, e.cell);
    }
  }

  lemma DeliverKeeps(cfg: Config, s: State, c: nat)
    requires Inv(cfg, s) && c < NUM_CLIENTS && s.clients[c].wire != []
    requires s.clients[c].wire[0].worker < cfg.numWorkers && s.clients[c].wire[0].offset < |s.region|
    ensures Inv(cfg, Deliver(s, c))
  {
    var cl, s' := s.clients[c], Deliver(s, c);
    assert ClientOk(cfg.mode, c, cl);
    ShiftOk(cfg.mode, c, cl);
    SetClientShaped(cfg, s, c, Shift(cl));
    forall d: nat | d < NUM_CLIENTS ensures ClientOk(cfg.mode, d, s'.clients[d]) {
      assert ClientOk(cfg.mode, d, s.clients[d]);
    }
    forall d: nat, v: nat | d < NUM_CLIENTS && v < cfg.numWorkers ensures WindowAt(cfg, s', d, v) {
      DeliverWindows(cfg, s, c, d, v);
    }
  }

  // ---------------------------------------------------------------------------
  // Workers
  // ---------------------------------------------------------------------------

  lemma {:induction false} InBatchAppend(batch: seq<Item>, x: Item, c: nat)
    ensures InBatch(batch + [x], c) == InBatch(batch, c) + if x.client == c then 1 else 0
  {
    if batch == [] {
      assert batch + [x] == [x] && [x][1..] == [];
    } else {
      InBatchAppend(batch[1..], x, c);
      assert (batch + [x])[1..] == batch[1..] + [x];
    }
  }

  /** A worker takes a request exactly when there is one it has not taken. */
  lemma PollSlotTakes(cfg: Config, s: State, w: nat)
    requires Inv(cfg, s) && w < cfg.numWorkers
    ensures var c := NextClient(s.workers[w]);
            var at := Offset(w, c, s.workers[w].ws[c]);
            var p := s.clients[c].row[w];
            && c < NUM_CLIENTS && at < |s.region|
            && (IsNew(cfg.mode, s.region[at].op) <==> |p.got| < p.delivered)
            && p.delivered <= |p.sent|
            && (|p.got| < p.delivered ==> Mark(cfg.mode, s.region[at].op) >= 0 && s.region[at].req == p.sent[|p.got|])
  {
    var c := NextClient(s.workers[w]);
    assert ClientOk(cfg.mode, c, s.clients[c]);
    assert WindowAt(cfg, s, c, w);
    var p := s.clients[c].row[w];
    assert PairOk(p);
    FindsNext(cfg.mode, s.region, w, c, p, s.workers[w].ws[c]);
    if |p.got| < p.delivered { TakeWindow(cfg.mode, s.region, w, c, p, s.workers[w].ws[c]); }
  }

  lemma PollSlotShaped(cfg: Config, s: State, w: nat)
    requires Inv(cfg, s) && w < cfg.numWorkers
    requires Offset(w, NextClient(s.workers[w]), s.workers[w].ws[NextClient(s.workers[w])]) < |s.region|
    ensures Shaped(cfg, PollSlot(cfg, s, w))
  {
    var s' := PollSlot(cfg, s, w);
    forall v: nat | v < cfg.numWorkers
      ensures |s'.workers[v].ws| == |s'.numbered[v]| == NUM_CLIENTS && s'.workers[v].cltI < NUM_CLIENTS
    {
      assert |s.workers[v].ws| == NUM_CLIENTS;
    }
    forall c: nat | c < NUM_CLIENTS ensures |s'.clients[c].ws| == |s'.clients[c].row| == cfg.numWorkers {
      assert |s.clients[c].ws| == cfg.numWorkers;
    }
  }

  lemma PollSlotClients(cfg: Config, s: State, w: nat, d: nat)
    requires Inv(cfg, s) && w < cfg.numWorkers && d < NUM_CLIENTS
    requires Offset(w, NextClient(s.workers[w]), s.workers[w].ws[NextClient(s.workers[w])]) < |s.region|
    ensures ClientOk(cfg.mode, d, PollSlot(cfg, s, w).clients[d])
  {
    assert ClientOk(cfg.mode, d, s.clients[d]);
    PollSlotTakes(cfg, s, w);
    var c := NextClient(s.workers[w]);
    if d == c {
      var p := s.clients[c].row[w];
      assert PairOk(p);
      if |p.got| < p.delivered {
        RowOk(cfg.mode, c, s.clients[c], w, p.(got := p.got + [p.sent[|p.got|]]));
      }
    }
  }

  lemma PollSlotWindows(cfg: Config, s: State, w: nat, d: nat, v: nat)
    requires Inv(cfg, s) && w < cfg.numWorkers && d < NUM_CLIENTS && v < cfg.numWorkers
    requires Offset(w, NextClient(s.workers[w]), s.workers[w].ws[NextClient(s.workers[w])]) < |s.region|
    requires Shaped(cfg, PollSlot(cfg, s, w))
    ensures WindowAt(cfg, PollSlot(cfg, s, w), d, v)
  {
    var wk, s' := s.workers[w], PollSlot(cfg, s, w);
    var c := NextClient(wk);
    var p := s.clients[c].row[w];
    var at := Offset(w, c, wk.ws[c]);
    PollSlotTakes(cfg, s, w);
    assert WindowAt(cfg, s, d, v) && WindowAt(cfg, s, c, w);
    if |p.got| < p.delivered {
      InBatchAppend(wk.batch, Item(c, |p.got|), d);
      if d == c && v == w {
        assert ClientOk(cfg.mode, c, s.clients[c]) && PairOk(p);
        TakeWindow(cfg.mode, s.region, w, c, p, wk.ws[c]);
      } else {
        forall k: nat | k < WINDOW ensures Offset(v, d, k) != at {
          if Offset(v, d, k) == at { OffsetInjective(v, d, k, w, c, wk.ws[c]); }
        }
        OtherWindow(cfg.mode, s.region, v, d, s.clients[d].row[v], s.workers[v].ws[d], at, s'.region[at]);
      }
    }
  }

  lemma PollSlotKeeps(cfg: Config, s: State, w: nat)
    requires Inv(cfg, s) && w < cfg.numWorkers
    requires Offset(w, NextClient(s.workers[w]), s.workers[w].ws[NextClient(s.workers[w])]) < |s.region|
    ensures Inv(cfg, PollSlot(cfg, s, w))
  {
    var s' := PollSlot(cfg, s, w);
    PollSlotShaped(cfg, s, w);
    forall d: nat | d < NUM_CLIENTS ensures ClientOk(cfg.mode, d, s'.clients[d]) {
      PollSlotClients(cfg, s, w, d);
    }
    forall d: nat, v: nat | d < NUM_CLIENTS && v < cfg.numWorkers ensures WindowAt(cfg, s', d, v) {
      PollSlotWindows(cfg, s, w, d, v);
    }
  }

  lemma CloseKeeps(cfg: Config, s: State, w: nat)
    requires Inv(cfg, s) && w < cfg.numWorkers
    ensures Inv(cfg, Close(cfg, s, w))
  {
    var s' := Close(cfg, s, w);
    forall d: nat | d < NUM_CLIENTS ensures ClientOk(cfg.mode, d, s'.clients[d]) {
      assert ClientOk(cfg.mode, d, s.clients[d]);
    }
    forall d: nat, v: nat | d < NUM_CLIENTS && v < cfg.numWorkers ensures WindowAt(cfg, s', d, v) {
      assert WindowAt(cfg, s, d, v);
    }
  }

  lemma AnswerPair(cfg: Config, s: State, w: nat)
    requires Inv(cfg, s) && w < cfg.numWorkers && s.workers[w].batch != []
    ensures var c := s.workers[w].batch[0].client;
            && c < NUM_CLIENTS
            && var p := s.clients[c].row[w];
               var p' := p.(answered := p.answered + 1);
               && ClientOk(cfg.mode, c, s.clients[c].(row := s.clients[c].row[w := p']))
               && WindowOk(cfg.mode, s.region, w, c, p', s.workers[w].ws[c])
               && |p'.got| == p'.answered + InBatch(s.workers[w].batch[1..], c)
  {
    var wk := s.workers[w];
    var c := wk.batch[0].client;
    var p := s.clients[c].row[w];
    assert ClientOk(cfg.mode, c, s.clients[c]) && PairOk(p);
    assert WindowAt(cfg, s, c, w);
    var p' := p.(answered := p.answered + 1);
    RowOk(cfg.mode, c, s.clients[c], w, p');
    SameWindow(cfg.mode, s.region, w, c, p, p', wk.ws[c]);
  }

  lemma AnswerWindows(cfg: Config, s: State, w: nat, d: nat, v: nat)
    requires Inv(cfg, s) && w < cfg.numWorkers && s.workers[w].batch != []
    requires s.workers[w].batch[0].client < NUM_CLIENTS && Shaped(cfg, Answer(cfg, s, w))
    requires d < NUM_CLIENTS && v < cfg.numWorkers
    ensures WindowAt(cfg, Answer(cfg, s, w), d, v)
  {
    AnswerPair(cfg, s, w);
    assert WindowAt(cfg, s, d, v);
  }

  lemma AnswerKeeps(cfg: Config, s: State, w: nat)
    requires Inv(cfg, s) && w < cfg.numWorkers && s.workers[w].batch != []
    ensures s.workers[w].batch[0].client < NUM_CLIENTS
    ensures Inv(cfg, Answer(cfg, s, w))
  {
    AnswerPair(cfg, s, w);
    var s' := Answer(cfg, s, w);
    forall v | 0 <= v < cfg.numWorkers
      ensures |s'.workers[v].ws| == |s'.numbered[v]| == NUM_CLIENTS && s'.workers[v].cltI < NUM_CLIENTS
    {
      assert |s.workers[v].ws| == |s.numbered[v]| == NUM_CLIENTS;
    }
    assert Shaped(cfg, s');
    forall d: nat | d < NUM_CLIENTS ensures ClientOk(cfg.mode, d, s'.clients[d]) {
      assert ClientOk(cfg.mode, d, s.clients[d]);
    }
    forall d: nat, v: nat | d < NUM_CLIENTS && v < cfg.numWorkers ensures WindowAt(cfg, s', d, v) {
      AnswerWindows(cfg, s, w, d, v);
    }
  }

  // ---------------------------------------------------------------------------
  // Runs
  // ---------------------------------------------------------------------------

  lemma {:induction false} NoTotal(row: seq<Pair>, k: Count)
    requires forall w {:trigger row[w]} :: 0 <= w < |row| ==> row[w] == Pair([], 0, [], 0, 0)
    ensures Total(row, k) == 0
  {
    if row != [] {
      var front := row[..|row| - 1];
      forall w | 0 <= w < |front| ensures front[w] == Pair([], 0, [], 0, 0) { assert front[w] == row[w]; }
      NoTotal(front, k);
      assert row[|row| - 1] == Pair([], 0, [], 0, 0);
    }
  }

  lemma InitClient(mode: Mode, c: nat, cl: Client)
    requires |cl.ws| == |cl.row|
    requires cl.nbTx == cl.comps == cl.roundStart == 0 && cl.recvs == WINDOW && cl.wire == [] && cl.phase == Sending
    requires forall w {:trigger cl.row[w]} :: 0 <= w < |cl.row| ==>
               cl.row[w] == Pair([], 0, [], 0, 0) && cl.ws[w] == 0
    ensures ClientOk(mode, c, cl)
  {
    NoTotal(cl.row, SentCount);
    NoTotal(cl.row, ReceivedCount);
    assert SlotsOk(cl.ws, cl.row) by {
      forall w | 0 <= w < |cl.row| ensures cl.ws[w] == Pos(|cl.row[w].sent|, WINDOW) { assert cl.row[w] == cl.row[w]; }
    }
    forall w | 0 <= w < |cl.row| ensures Delivered(cl.row)[w] == |cl.row[w].sent| { DeliveredAt(cl.row, w); }
  }

  lemma InitKeeps(cfg: Config, s: State)
    requires Init(cfg, s)
    ensures Inv(cfg, s)
  {
    forall c: nat | c < NUM_CLIENTS ensures ClientOk(cfg.mode, c, s.clients[c]) {
      var cl := s.clients[c];
      assert |cl.ws| == |cl.row| == cfg.numWorkers;
      forall w: nat | w < cfg.numWorkers ensures cl.row[w] == Pair([], 0, [], 0, 0) && cl.ws[w] == 0 {
        assert s.clients[c].row[w] == Pair([], 0, [], 0, 0);
      }
      InitClient(cfg.mode, c, cl);
    }
    forall c: nat, w: nat | c < NUM_CLIENTS && w < cfg.numWorkers ensures WindowAt(cfg, s, c, w) {
      var p := s.clients[c].row[w];
      assert p == Pair([], 0, [], 0, 0);
      assert s.workers[w].ws[c] == 0;
      forall j: nat | j < WINDOW ensures SlotOk(cfg.mode, s.region, w, c, p, j) {
        OffsetInRegion(w, c, Pos(j, WINDOW), cfg.numWorkers);
      }
    }
  }

  lemma StepKeeps(cfg: Config, s: State, step: Step, s': State)
    requires Inv(cfg, s) && Next(cfg, s, step, s')
    ensures Inv(cfg, s')
  {
    match step
    case DoSend(c, w, cell) => SendKeeps(cfg, s, c, w, cell);
    case DoRefill(c) =>
      assert ClientOk(cfg.mode, c, s.clients[c]);
      RefillOk(cfg.mode, c, s.clients[c]);
      QuietKeeps(cfg, s, c, Refill(s.clients[c]));
    case DoPollWindow(c) =>
      assert ClientOk(cfg.mode, c, s.clients[c]);
      PollWindowOk(cfg.mode, c, s.clients[c]);
      QuietKeeps(cfg, s, c, PollWindow(s.clients[c]));
    case DoDeliver(c) => DeliverKeeps(cfg, s, c);
    case DoPollSlot(w) => PollSlotKeeps(cfg, s, w);
    case DoClose(w) => CloseKeeps(cfg, s, w);
    case DoAnswer(w) => AnswerKeeps(cfg, s, w);
    case DoReceive(c, w) => ReceiveKeeps(cfg, s, c, w);
  }

  lemma {:induction false} RunKeeps(cfg: Config, ss: seq<State>, steps: seq<Step>, i: nat)
    requires Run(cfg, ss, steps) && i < |ss|
    ensures Inv(cfg, ss[i])
  {
    if i == 0 {
      InitKeeps(cfg, ss[0]);
    } else {
      RunKeeps(cfg, ss, steps, i - 1);
      StepKeeps(cfg, ss[i - 1], steps[i - 1], ss[i]);
    }
  }

  /** In every interleaving, whatever WRITE is delivered next lands in a slot that no worker will read
      again: it holds no untaken request, and the request it held before, one window earlier, has
      been answered and the response received. No request sent before and not yet answered, and so
      none a worker still works on, has that slot. */
  lemma SlotsNeverOverwritten(cfg: Config, ss: seq<State>, steps: seq<Step>, i: nat, c: nat)
    requires Run(cfg, ss, steps) && i < |ss| && c < NUM_CLIENTS
    requires c < |ss[i].clients| && ss[i].clients[c].wire != []
    ensures var e := ss[i].clients[c].wire[0];
            && e.worker < |ss[i].clients[c].row| && e.offset < |ss[i].region|
            && !IsNew(cfg.mode, ss[i].region[e.offset].op)
            && var p := ss[i].clients[c].row[e.worker];
               && e.offset == Offset(e.worker, c, Pos(e.number, WINDOW))
               && e.number < p.received + WINDOW <= p.answered + WINDOW
               && forall n: nat {:trigger Pos(n, WINDOW)} :: p.answered <= n < e.number ==>
                    Offset(e.worker, c, Pos(n, WINDOW)) != e.offset
  {
    RunKeeps(cfg, ss, steps, i);
    NeverOverwrites(cfg, ss[i], c);
    var cl := ss[i].clients[c];
    assert ClientOk(cfg.mode, c, cl);
    WireHead(cfg.mode, c, cl);
    var e := cl.wire[0];
    WindowHasRoom(cfg.mode, c, cl, e.worker);
    assert PairOk(cl.row[e.worker]);
    forall n: nat | cl.row[e.worker].answered <= n < e.number
      ensures Offset(e.worker, c, Pos(n, WINDOW)) != e.offset
    {
      PosDiffer(n, e.number, WINDOW);
    }
  }

  /** In every interleaving, what a worker has taken from a client is the beginning of what
      the client sent it: every request once, in the order of sending, none invented. */
  lemma TakenInOrder(cfg: Config, ss: seq<State>, steps: seq<Step>, i: nat, c: nat, w: nat)
    requires Run(cfg, ss, steps) && i < |ss| && c < NUM_CLIENTS && w < cfg.numWorkers
    ensures Shaped(cfg, ss[i])
    ensures var p := ss[i].clients[c].row[w];
            p.got <= p.sent && p.received <= p.answered <= |p.got| && |p.sent| <= p.received + WINDOW
  {
    RunKeeps(cfg, ss, steps, i);
    assert ClientOk(cfg.mode, c, ss[i].clients[c]);
    assert PairOk(ss[i].clients[c].row[w]);
    WindowHasRoom(cfg.mode, c, ss[i].clients[c], w);
  }

  /** In every interleaving, as many RECVs are posted as responses are on their way, all workers
      together, and never more than two windows of them. */
  lemma RecvsSuffice(cfg: Config, ss: seq<State>, steps: seq<Step>, i: nat, c: nat)
    requires Run(cfg, ss, steps) && i < |ss| && c < NUM_CLIENTS
    ensures c < |ss[i].clients|
    ensures var cl := ss[i].clients[c];
            Total(cl.row, AnsweredCount) - Total(cl.row, ReceivedCount) <= cl.recvs <= 2 * WINDOW
  {
    RunKeeps(cfg, ss, steps, i);
    var cl := ss[i].clients[c];
    assert ClientOk(cfg.mode, c, cl);
    AnsweredLe(cl.row);
  }

  /** A client waiting for its window is waiting for somebody: unless all responses are
      there, some worker has a request of this window that has not been answered or whose
      response is on its way. */
  lemma WaitsForSomebody(cfg: Config, ss: seq<State>, steps: seq<Step>, i: nat, c: nat) returns (w: nat)
    requires Run(cfg, ss, steps) && i < |ss| && c < NUM_CLIENTS
    requires c < |ss[i].clients| && ss[i].clients[c].phase == NeedPoll && ss[i].clients[c].comps < WINDOW
    ensures w < |ss[i].clients[c].row| && ss[i].clients[c].row[w].received < |ss[i].clients[c].row[w].sent|
  {
    RunKeeps(cfg, ss, steps, i);
    assert ClientOk(cfg.mode, c, ss[i].clients[c]);
    w := SomeoneOwes(ss[i].clients[c].row);
  }
}
