/** One turn of a client's loop (herd/client.c:117-192, ws-sequencer/client.c:107-154), in place. */
module ClientLoop {

  import opened IndexMath
  import opened WindowState
  import opened WindowInv
  import opened WindowRuns

  ghost predicate FullWindow(cl: Client) {
    cl.nbTx % WINDOW == 0 && cl.nbTx > 0
  }

  /** At the head of the loop: RECVs are due exactly after a full window. */
  ghost predicate AtHead(cl: Client) {
    |cl.ws| == |cl.row| && cl.phase != NeedPoll && (cl.phase == NeedRefill <==> FullWindow(cl))
  }

  /** Past the RECVs: a window of responses is awaited exactly after a full window. */
  ghost predicate AtWait(cl: Client) {
    |cl.ws| == |cl.row| && cl.phase != NeedRefill && (cl.phase == NeedPoll <==> FullWindow(cl))
  }

  /** Between the end of the wait and the send. */
  ghost predicate AtSend(cl: Client) {
    |cl.ws| == |cl.row| && cl.phase == Sending && FullWindow(cl) && cl.roundStart == cl.nbTx
  }

  /** What the first half of a turn makes of a client: after a full window it posts RECVs. */
  ghost function Posted(cl: Client): Client {
    if cl.phase == NeedRefill then Refill(cl) else cl
  }

  /** What the second half makes of it: once the window awaited is there, it sends. */
  ghost function Sent(cl: Client, c: nat, w: nat, cell: Cell): Client
    requires AtWait(cl) && w < |cl.row| && (cl.phase == NeedPoll ==> cl.comps >= WINDOW)
  {
    Send(if cl.phase == NeedPoll then PollWindow(cl) else cl, c, w, cell)
  }

  ghost predicate Steps(cfg: Config, ss: seq<State>, steps: seq<Step>) {
    |ss| == |steps| + 1 && forall i: nat :: i < |steps| ==> Next(cfg, ss[i], steps[i], ss[i + 1])
  }

  /** The first half, up to the wait, is at most one step of the protocol, from any state. */
  lemma PostIsSteps(cfg: Config, s: State, c: nat) returns (steps: seq<Step>, ss: seq<State>)
    requires Shaped(cfg, s) && c < NUM_CLIENTS && AtHead(s.clients[c])
    ensures Steps(cfg, ss, steps) && ss[0] == s && ss[|steps|] == SetClient(s, c, Posted(s.clients[c]))
    ensures AtWait(Posted(s.clients[c]))
  {
    var cl := s.clients[c];
    if cl.phase == NeedRefill {
      var s' := SetClient(s, c, Refill(cl));
      assert Next(cfg, s, DoRefill(c), s');
      steps, ss := [DoRefill(c)], [s, s'];
    } else {
      assert s == SetClient(s, c, cl);
      steps, ss := [], [s];
    }
  }

  /** The second half, from the moment the window awaited is there, is one or two. */
  lemma SendIsSteps(cfg: Config, s: State, c: nat, w: nat, cell: Cell) returns (steps: seq<Step>, ss: seq<State>)
    requires Shaped(cfg, s) && c < NUM_CLIENTS && w < cfg.numWorkers && IsRequest(cfg.mode, cell.op)
    requires AtWait(s.clients[c]) && (s.clients[c].phase == NeedPoll ==> s.clients[c].comps >= WINDOW)
    ensures Steps(cfg, ss, steps) && ss[0] == s
    ensures ss[|steps|] == SetClient(s, c, Sent(s.clients[c], c, w, cell))
    ensures AtHead(Sent(s.clients[c], c, w, cell))
  {
    var cl := s.clients[c];
    var send := DoSend(c, w, cell);
    var last := SetClient(s, c, Sent(cl, c, w, cell));
    if cl.phase == NeedPoll {
      var s1 := SetClient(s, c, PollWindow(cl));
      assert last == SetClient(s1, c, Send(s1.clients[c], c, w, cell));
      assert Next(cfg, s, DoPollWindow(c), s1) && Next(cfg, s1, send, last);
      steps, ss := [DoPollWindow(c), send], [s, s1, last];
    } else {
      assert Next(cfg, s, send, last);
      steps, ss := [send], [s, last];
    }
  }

  /** The steps client `c` takes itself. */
  ghost predicate OwnStep(step: Step, c: nat) {
    match step
    case DoSend(d, _, _) => d == c
    case DoRefill(d) => d == c
    case DoPollWindow(d) => d == c
    case _ => false
  }

  /** Whatever else happens meanwhile leaves a client where it is in its turn. */
  lemma OthersKeepPlace(cfg: Config, s: State, step: Step, s': State, c: nat)
    requires Shaped(cfg, s) && c < NUM_CLIENTS && Next(cfg, s, step, s') && !OwnStep(step, c)
    ensures c < |s'.clients|
    ensures AtHead(s.clients[c]) <==> AtHead(s'.clients[c])
    ensures AtWait(s.clients[c]) <==> AtWait(s'.clients[c])
    ensures AtSend(s.clients[c]) <==> AtSend(s'.clients[c])
    ensures s'.clients[c].comps >= s.clients[c].comps
  {
  }

  lemma StepKeepsTurn(cfg: Config, s: State, step: Step, s': State, c: nat)
    requires Shaped(cfg, s) && Shaped(cfg, s') && c < NUM_CLIENTS && Next(cfg, s, step, s')
    requires AtHead(s.clients[c]) || AtWait(s.clients[c]) || AtSend(s.clients[c])
    ensures AtHead(s'.clients[c]) || AtWait(s'.clients[c]) || AtSend(s'.clients[c])
  {
    if !OwnStep(step, c) {
      OthersKeepPlace(cfg, s, step, s', c);
    }
  }

  /** In every interleaving a client is at one of these three places of its turn: the halves above
      are all it ever does. */
  lemma {:induction false} AlwaysInTurn(cfg: Config, ss: seq<State>, steps: seq<Step>, i: nat, c: nat)
    requires Run(cfg, ss, steps) && i < |ss| && c < NUM_CLIENTS
    ensures c < |ss[i].clients|
    ensures AtHead(ss[i].clients[c]) || AtWait(ss[i].clients[c]) || AtSend(ss[i].clients[c])
  {
    RunKeeps(cfg, ss, steps, i);
    if i > 0 {
      AlwaysInTurn(cfg, ss, steps, i - 1, c);
      RunKeeps(cfg, ss, steps, i - 1);
      StepKeepsTurn(cfg, ss[i - 1], steps[i - 1], ss[i], c);
    }
  }

  class Loop {
    const c: nat
    const ws: array<nat>
    var nbTx: nat

    // The receive queue the verbs calls act on.
    var recvs: nat
    var comps: nat

    ghost var wire: seq<Write>
    ghost var phase: Phase
    ghost var roundStart: nat
    ghost var row: seq<Pair>

    ghost function View(): Client
      reads this, ws
    {
      Client(nbTx, ws[..], wire, recvs, comps, phase, roundStart, row)
    }

    /** Before the loop: the first RECVs are posted. */
    constructor (c: nat, numWorkers: nat)
      ensures AtHead(View()) && fresh(ws) && this.c == c && |row| == numWorkers
      ensures nbTx == comps == roundStart == 0 && recvs == WINDOW && wire == [] && phase == Sending
      ensures forall w: nat :: w < numWorkers ==> row[w] == Pair([], 0, [], 0, 0) && ws[w] == 0
    {
      this.c := c;
      ws := new nat[numWorkers](_ => 0);
      nbTx, wire, recvs, comps, phase, roundStart := 0, [], 0, 0, Sending, 0;
      row := seq(numWorkers, _ => Pair([], 0, [], 0, 0));
      new;
      PostRecvs();
    }

    method PostRecvs()
      modifies `recvs
      ensures recvs == old(recvs) + WINDOW
    {
      for i := 0 to WINDOW
        invariant recvs == old(recvs) + i
      {
        recvs := recvs + 1;
      }
    }

    /** The first half of a turn: after a full window, RECVs for the next one. */
    method PostDue()
      requires AtHead(View())
      modifies this
      ensures AtWait(View()) && View() == Posted(old(View()))
    {
      if nbTx % WINDOW == 0 && nbTx > 0 {
        PostRecvs();
        phase := NeedPoll;
      }
    }

    /** The wait for a full window's responses, over once they are there. */
    method AwaitWindow()
      requires AtWait(View()) && (phase == NeedPoll ==> comps >= WINDOW)
      modifies this
      ensures View() == if old(phase) == NeedPoll then PollWindow(old(View())) else old(View())
    {
      if nbTx % WINDOW == 0 && nbTx > 0 {
        comps, phase, roundStart := comps - WINDOW, Sending, nbTx;
      }
    }

    /** The request is written to `offset`. */
    method SendOne(w: nat, cell: Cell) returns (offset: nat)
      requires |row| == ws.Length && w < ws.Length
      modifies this, ws
      ensures View() == Send(old(View()), c, w, cell)
      ensures wire != [] && wire[|wire| - 1].offset == offset
    {
      ghost var ws0 := ws[..];
      offset := Offset(w, c, ws[w]);
      wire := wire + [Write(w, offset, cell, |row[w].sent|)];
      row := row[w := row[w].(sent := row[w].sent + [cell.req])];
      nbTx := nbTx + 1;
      ws[w] := Bumped(ws[w], WINDOW);
      phase := if nbTx % WINDOW == 0 then NeedRefill else Sending;
      assert ws[..] == ws0[w := ws[w]];
    }

    /** The second half of a turn, from the end of its wait. */
    method FinishTurn(w: nat, cell: Cell) returns (offset: nat)
      requires AtWait(View()) && w < ws.Length && (phase == NeedPoll ==> comps >= WINDOW)
      modifies this, ws
      ensures AtHead(View()) && View() == Sent(old(View()), c, w, cell)
      ensures wire != [] && wire[|wire| - 1].offset == offset
    {
      AwaitWindow();
      offset := SendOne(w, cell);
    }
  }
}
