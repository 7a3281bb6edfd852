/** The request protocol shared by HERD (herd/client.c, herd/worker.c) and the WRITE/SEND
    sequencer (ws-sequencer/client.c, ws-sequencer/worker.c): clients write requests into
    per-worker windows of a shared region, workers poll the windows and send responses.

    A system state and its steps. Delivery is reliable and in order per connected queue pair,
    and the write of one request is atomic. */
module WindowState {

  import opened IndexMath

  const NUM_CLIENTS := 70
  const WINDOW := 32
  const WORKER_SLOTS := 2240 // NUM_CLIENTS * WINDOW

  const HERD_OP_GET := 121
  const HERD_OP_PUT := 122
  const HERD_MICA_OFFSET := 10

  datatype Mode = Herd | Sequencer

  datatype Config = Config(mode: Mode, numWorkers: nat, postlist: nat)

  /** A slot of the request region: the word a worker looks at, and the rest of the request. */
  datatype Cell = Cell(op: nat, req: nat)

  /** Whether the polled word says there is a request. */
  predicate IsNew(mode: Mode, op: nat) {
    match mode
    case Herd => op >= HERD_OP_GET
    case Sequencer => op != 0
  }

  /** What a worker leaves in the slot: the converted opcode, or zero. */
  function Mark(mode: Mode, op: nat): int {
    match mode
    case Herd => op - HERD_MICA_OFFSET
    case Sequencer => 0
  }

  /** The words clients send. */
  predicate IsRequest(mode: Mode, op: nat) {
    match mode
    case Herd => op == HERD_OP_GET || op == HERD_OP_PUT
    case Sequencer => op == 1
  }

  /** OFFSET(wn, cn, ws) */
  function Offset(w: nat, c: nat, slot: nat): nat {
    w * WORKER_SLOTS + c * WINDOW + slot
  }

  // ---------------------------------------------------------------------------
  // State
  // ---------------------------------------------------------------------------

  /** What has happened so far between one client and one worker: the requests the client
      sent, those the worker took, in order; and how many were written to the region, answered
      and received back. */
  datatype Pair = Pair(sent: seq<nat>, delivered: nat, got: seq<nat>, answered: nat, received: nat)

  /** A posted WRITE that has not reached the region. `number` counts this client's requests
      to this worker. */
  datatype Write = Write(worker: nat, offset: nat, cell: Cell, number: nat)

  /** Where a client is in its loop: sending, or after a full window about to post RECVs, or
      waiting for a window's worth of responses. */
  datatype Phase = Sending | NeedRefill | NeedPoll

  /** `recvs` are posted RECVs not yet consumed, `comps` responses received but not polled.
      `roundStart` is the value of `nbTx` at which the current window began. */
  datatype Client = Client(
    nbTx: nat, ws: seq<nat>, wire: seq<Write>, recvs: nat, comps: nat, phase: Phase,
    roundStart: nat, row: seq<Pair>)

  datatype Item = Item(client: nat, number: nat)

  /** `cltI` is the client polled last; `batch` holds the requests taken in this pass; once
      the pass is over they are answered in order. */
  datatype Worker = Worker(ws: seq<nat>, cltI: nat, batch: seq<Item>, replying: bool)

  /** The request number `number` that client `client` sent to worker `worker`. */
  datatype Request = Request(worker: nat, client: nat, number: nat)

  /** A sequence number handed out to a request. */
  datatype Ticket = Ticket(req: Request, value: nat)

  /** `counter` is shared by the sequencer's workers. `numbered[w][c]` counts the requests of
      client `c` that worker `w` has taken a number for. */
  datatype State = State(
    clients: seq<Client>, workers: seq<Worker>, region: seq<Cell>,
    counter: nat, issued: seq<Ticket>, numbered: seq<seq<nat>>)

  /** HRD_MOD_ADD: the next of `n` positions. */
  function Bumped(x: nat, n: nat): nat {
    if x + 1 == n then 0 else x + 1
  }

  lemma {:induction false} PosNext(n: nat, size: nat)
    requires size > 0
    ensures Pos(n + 1, size) == Bumped(Pos(n, size), size)
  {
    if n >= size { PosNext(n - size, size); }
  }

  // ---------------------------------------------------------------------------
  // Steps of a client
  // ---------------------------------------------------------------------------

  /** One turn of the send loop: the request goes into the next slot of worker `w`'s window. */
  function Send(cl: Client, c: nat, w: nat, cell: Cell): Client
    requires w < |cl.ws| && w < |cl.row|
  {
    var p := cl.row[w];
    cl.(nbTx := cl.nbTx + 1,
        ws := cl.ws[w := Bumped(cl.ws[w], WINDOW)],
        wire := cl.wire + [Write(w, Offset(w, c, cl.ws[w]), cell, |p.sent|)],
        phase := if (cl.nbTx + 1) % WINDOW == 0 then NeedRefill else Sending,
        row := cl.row[w := p.(sent := p.sent + [cell.req])])
  }

  function Refill(cl: Client): Client {
    cl.(recvs := cl.recvs + WINDOW, phase := NeedPoll)
  }

  function PollWindow(cl: Client): Client
    requires cl.comps >= WINDOW
  {
    cl.(comps := cl.comps - WINDOW, phase := Sending, roundStart := cl.nbTx)
  }

  /** A response arrives: it takes a posted RECV. */
  function Receive(cl: Client, w: nat): Client
    requires w < |cl.row| && cl.recvs > 0
  {
    var p := cl.row[w];
    cl.(recvs := cl.recvs - 1, comps := cl.comps + 1, row := cl.row[w := p.(received := p.received + 1)])
  }

  /** The oldest posted WRITE reaches the region. */
  function Shift(cl: Client): Client
    requires cl.wire != [] && cl.wire[0].worker < |cl.row|
  {
    var w := cl.wire[0].worker;
    var p := cl.row[w];
    cl.(wire := cl.wire[1..], row := cl.row[w := p.(delivered := p.delivered + 1)])
  }

  // ---------------------------------------------------------------------------
  // Steps of the system
  // ---------------------------------------------------------------------------

  datatype Step =
    | DoSend(c: nat, w: nat, cell: Cell)
    | DoRefill(c: nat)
    | DoPollWindow(c: nat)
    | DoDeliver(c: nat)
    | DoPollSlot(w: nat)
    | DoClose(w: nat)
    | DoAnswer(w: nat)
    | DoReceive(c: nat, w: nat)

  ghost predicate Shaped(cfg: Config, s: State) {
    && |s.clients| == NUM_CLIENTS && |s.workers| == |s.numbered| == cfg.numWorkers
    && |s.region| == cfg.numWorkers * WORKER_SLOTS
    && (forall c {:trigger s.clients[c]} :: 0 <= c < NUM_CLIENTS ==>
          |s.clients[c].ws| == |s.clients[c].row| == cfg.numWorkers)
    && (forall w {:trigger s.workers[w]} :: 0 <= w < cfg.numWorkers ==>
          |s.workers[w].ws| == |s.numbered[w]| == NUM_CLIENTS && s.workers[w].cltI < NUM_CLIENTS)
  }

  ghost function SetClient(s: State, c: nat, cl: Client): State
    requires c < |s.clients|
  {
    s.(clients := s.clients[c := cl])
  }

  /** The client a worker looks at next. */
  function NextClient(wk: Worker): nat {
    Bumped(wk.cltI, NUM_CLIENTS)
  }

  /** A worker looks at one slot, and takes the request in it if there is one. */
  ghost function PollSlot(cfg: Config, s: State, w: nat): State
    requires Shaped(cfg, s) && w < cfg.numWorkers
    requires NextClient(s.workers[w]) < NUM_CLIENTS
    requires Offset(w, NextClient(s.workers[w]), s.workers[w].ws[NextClient(s.workers[w])]) < |s.region|
  {
    var wk := s.workers[w];
    var c := NextClient(wk);
    var at := Offset(w, c, wk.ws[c]);
    var cell := s.region[at];
    if !IsNew(cfg.mode, cell.op) || Mark(cfg.mode, cell.op) < 0 then
      s.(workers := s.workers[w := wk.(cltI := c)])
    else
      var p := s.clients[c].row[w];
      s.(workers := s.workers[w := wk.(cltI := c,
                                        ws := wk.ws[c := Bumped(wk.ws[c], WINDOW)],
                                        batch := wk.batch + [Item(c, |p.got|)])],
         region := s.region[at := cell.(op := Mark(cfg.mode, cell.op))],
         clients := s.clients[c := s.clients[c].(row := s.clients[c].row[w := p.(got := p.got + [cell.req])])])
  }

  /** The numbers a worker puts into the responses of a batch: `base`, `base + 1`, and so on. */
  ghost function Tickets(w: nat, batch: seq<Item>, base: nat): (ts: seq<Ticket>)
    ensures |ts| == |batch|
  {
    if batch == [] then []
    else [Ticket(Request(w, batch[0].client, batch[0].number), base)] + Tickets(w, batch[1..], base + 1)
  }

  ghost function Bump(nums: seq<nat>, batch: seq<Item>): (r: seq<nat>)
    ensures |r| == |nums|
    decreases |batch|
  {
    if batch == [] then nums
    else
      var c := batch[0].client;
      Bump(if c < |nums| then nums[c := nums[c] + 1] else nums, batch[1..])
  }

  /** The pass is over. The sequencer takes as many numbers as it has requests, in one
      fetch-and-add; request `i` of the batch gets the old value plus `i`. */
  ghost function Close(cfg: Config, s: State, w: nat): State
    requires w < |s.workers| && w < |s.numbered|
  {
    var wk := s.workers[w];
    s.(workers := s.workers[w := wk.(replying := wk.batch != [])],
       counter := s.counter + |wk.batch|,
       issued := s.issued + Tickets(w, wk.batch, s.counter),
       numbered := s.numbered[w := Bump(s.numbered[w], wk.batch)])
  }

  /** The next response of the batch is handed to the network; after the last one the worker
      starts another pass. */
  ghost function Answer(cfg: Config, s: State, w: nat): State
    requires Shaped(cfg, s) && w < cfg.numWorkers && s.workers[w].batch != []
    requires s.workers[w].batch[0].client < NUM_CLIENTS
  {
    var wk := s.workers[w];
    var c := wk.batch[0].client;
    var p := s.clients[c].row[w];
    s.(workers := s.workers[w := wk.(batch := wk.batch[1..], replying := |wk.batch| > 1)],
       clients := s.clients[c := s.clients[c].(row := s.clients[c].row[w := p.(answered := p.answered + 1)])])
  }

  ghost predicate Init(cfg: Config, s: State) {
    && Shaped(cfg, s)
    && (forall c {:trigger s.clients[c]} :: 0 <= c < NUM_CLIENTS ==>
          && s.clients[c].nbTx == s.clients[c].comps == s.clients[c].roundStart == 0
          && s.clients[c].recvs == WINDOW && s.clients[c].wire == [] && s.clients[c].phase == Sending
          && (forall w {:trigger s.clients[c].row[w]} :: 0 <= w < cfg.numWorkers ==>
                s.clients[c].row[w] == Pair([], 0, [], 0, 0) && s.clients[c].ws[w] == 0))
    && (forall w {:trigger s.workers[w]} :: 0 <= w < cfg.numWorkers ==>
          && s.workers[w].batch == [] && !s.workers[w].replying
          && forall c {:trigger s.workers[w].ws[c]} :: 0 <= c < NUM_CLIENTS ==>
               s.workers[w].ws[c] == s.numbered[w][c] == 0)
    && (forall k {:trigger s.region[k]} :: 0 <= k < |s.region| ==> s.region[k].op == 0)
    && s.counter == 0 && s.issued == []
  }

  ghost predicate Next(cfg: Config, s: State, step: Step, s': State) {
    && Shaped(cfg, s)
    && match step
       case DoSend(c, w, cell) =>
         && c < NUM_CLIENTS && w < cfg.numWorkers && IsRequest(cfg.mode, cell.op)
         && s.clients[c].phase == Sending
         && s' == SetClient(s, c, Send(s.clients[c], c, w, cell))
       case DoRefill(c) =>
         && c < NUM_CLIENTS && s.clients[c].phase == NeedRefill
         && s' == SetClient(s, c, Refill(s.clients[c]))
       case DoPollWindow(c) =>
         && c < NUM_CLIENTS && s.clients[c].phase == NeedPoll && s.clients[c].comps >= WINDOW
         && s' == SetClient(s, c, PollWindow(s.clients[c]))
       case DoDeliver(c) =>
         && c < NUM_CLIENTS && s.clients[c].wire != []
         && var e := s.clients[c].wire[0];
            && e.worker < cfg.numWorkers && e.offset < |s.region|
            && s' == SetClient(s, c, Shift(s.clients[c])).(region := s.region[e.offset := e.cell])
       case DoPollSlot(w) =>
         && w < cfg.numWorkers && !s.workers[w].replying && |s.workers[w].batch| < cfg.postlist
         && var c := NextClient(s.workers[w]);
            && Offset(w, c, s.workers[w].ws[c]) < |s.region|
            && s' == PollSlot(cfg, s, w)
       case DoClose(w) =>
         && w < cfg.numWorkers && !s.workers[w].replying
         && s' == Close(cfg, s, w)
       case DoAnswer(w) =>
         && w < cfg.numWorkers && s.workers[w].replying && s.workers[w].batch != []
         && s.workers[w].batch[0].client < NUM_CLIENTS
         && s' == Answer(cfg, s, w)
       case DoReceive(c, w) =>
         && c < NUM_CLIENTS && w < cfg.numWorkers
         && s.clients[c].row[w].received < s.clients[c].row[w].answered && s.clients[c].recvs > 0
         && s' == SetClient(s, c, Receive(s.clients[c], w))
  }

  ghost predicate Run(cfg: Config, ss: seq<State>, steps: seq<Step>) {
    && |ss| == |steps| + 1 && Init(cfg, ss[0])
    && forall i :: 0 <= i < |steps| ==> Next(cfg, ss[i], steps[i], ss[i + 1])
  }
}
