/** A waiting client gets its responses: while it waits some step towards them can be taken, and there
    are only so many such steps. */
module WindowProgress {

  import opened IndexMath
  import opened WindowState
  import opened WindowInv
  import opened WindowRuns

  // ---------------------------------------------------------------------------
  // Some step can be taken
  // ---------------------------------------------------------------------------

  /** A pass that has taken something ends. */
  ghost predicate ClosesBatch(s: State, w: nat, step: Step) {
    step == DoClose(w) && w < |s.workers| && s.workers[w].batch != []
  }

  /** The step that brings a response owed by worker `w` to client `c` nearer. */
  ghost predicate Towards(s: State, c: nat, w: nat, step: Step)
    requires c < |s.clients| && w < |s.clients[c].row|
  {
    var p := s.clients[c].row[w];
    || (p.received < p.answered && step == DoReceive(c, w))
    || (p.received == p.answered < |p.got| && (step == DoAnswer(w) || ClosesBatch(s, w, step)))
    || (p.received == |p.got| < p.delivered &&
        (step == DoAnswer(w) || ClosesBatch(s, w, step) || step == DoPollSlot(w)))
    || (p.received == p.delivered < |p.sent| && step == DoDeliver(c))
  }

  /** While a client waits, some step towards a response it is owed can be taken. */
  lemma SomeStepTowards(cfg: Config, s: State, c: nat) returns (w: nat, step: Step, s': State)
    requires Inv(cfg, s) && c < NUM_CLIENTS && cfg.postlist > 0
    requires s.clients[c].phase == NeedPoll && s.clients[c].comps < WINDOW
    ensures w < cfg.numWorkers && Towards(s, c, w, step) && Next(cfg, s, step, s')
  {
    assert ClientOk(cfg.mode, c, s.clients[c]);
    w := SomeoneOwes(s.clients[c].row);
    var p := s.clients[c].row[w];
    assert PairOk(p);
    if p.received < p.answered {
      RecvPosted(cfg.mode, c, s.clients[c], w);
      step, s' := DoReceive(c, w), SetClient(s, c, Receive(s.clients[c], w));
    } else if |p.got| < p.delivered || p.answered < |p.got| {
      step, s' := WorkerMoves(cfg, s, c, w);
    } else {
      WireWaits(cfg.mode, c, s.clients[c], w);
      NeverOverwrites(cfg, s, c);
      step, s' := DoDeliver(c), Deliver(s, c);
    }
  }

  /** A worker with something to take or to answer can move. */
  lemma WorkerMoves(cfg: Config, s: State, c: nat, w: nat) returns (step: Step, s': State)
    requires Inv(cfg, s) && c < NUM_CLIENTS && w < cfg.numWorkers && cfg.postlist > 0
    requires s.clients[c].row[w].received == s.clients[c].row[w].answered
    requires s.clients[c].row[w].answered < |s.clients[c].row[w].got|
             || |s.clients[c].row[w].got| < s.clients[c].row[w].delivered
    ensures Towards(s, c, w, step) && Next(cfg, s, step, s')
  {
    var wk := s.workers[w];
    var p := s.clients[c].row[w];
    assert WindowAt(cfg, s, c, w);
    if wk.replying {
      AnswerKeeps(cfg, s, w);
      step, s' := DoAnswer(w), Answer(cfg, s, w);
    } else if p.answered < |p.got| || |wk.batch| >= cfg.postlist {
      step, s' := DoClose(w), Close(cfg, s, w);
    } else {
      PollSlotTakes(cfg, s, w);
      step, s' := DoPollSlot(w), PollSlot(cfg, s, w);
    }
  }

  lemma WireWaits(mode: Mode, c: nat, cl: Client, w: nat)
    requires ClientOk(mode, c, cl) && w < |cl.row| && cl.row[w].delivered < |cl.row[w].sent|
    ensures cl.wire != []
  {
    DeliveredAt(cl.row, w);
  }

  // ---------------------------------------------------------------------------
  // Every such step lowers a rank
  // ---------------------------------------------------------------------------

  function Minus(a: nat, b: nat): nat {
    if b <= a then a - b else 0
  }

  /** How many looks it takes a worker that has looked at client `clt` to come to client `c`. */
  function Looks(clt: nat, c: nat): nat {
    if clt < c then c - clt else Minus(c + NUM_CLIENTS, clt)
  }

  /** What worker `w` has to do before client `c` has all its responses: give back what `c` is owed,
      take its requests, look at the clients before it, and answer what it has taken. A look may take
      a request, which takes two steps more; a request of `c` taken starts the round anew. */
  ghost function Work(s: State, c: nat, w: nat): nat
    requires c < |s.clients| && w < |s.clients[c].row| && w < |s.workers|
  {
    var p, wk := s.clients[c].row[w], s.workers[w];
    Minus(|p.sent|, p.received) + 300 * Minus(|p.sent|, |p.got|) + 3 * Looks(wk.cltI, c)
    + 2 * |wk.batch| + (if wk.replying then 0 else 1)
  }

  /** The same for the first `n` workers. */
  ghost function WorkOf(s: State, c: nat, n: nat): nat
    requires c < |s.clients| && n <= |s.clients[c].row| && n <= |s.workers|
  {
    if n == 0 then 0 else WorkOf(s, c, n - 1) + Work(s, c, n - 1)
  }

  /** How many steps client `c` is at most away from having all its responses. */
  ghost function Rank(s: State, c: nat): nat
    requires c < |s.clients| && |s.workers| <= |s.clients[c].row|
  {
    WorkOf(s, c, |s.workers|) + |s.clients[c].wire|
  }

  lemma {:induction false} WorkLowers(s: State, s': State, c: nat, w: nat, n: nat)
    requires c < |s.clients| && n <= |s.clients[c].row| && n <= |s.workers|
    requires c < |s'.clients| && n <= |s'.clients[c].row| && n <= |s'.workers|
    requires forall v: nat {:trigger Work(s, c, v)} :: v < n && v != w ==> Work(s', c, v) == Work(s, c, v)
    requires w < n ==> Work(s', c, w) < Work(s, c, w)
    ensures if w < n then WorkOf(s', c, n) < WorkOf(s, c, n) else WorkOf(s', c, n) == WorkOf(s, c, n)
  {
    if n > 0 {
      WorkLowers(s, s', c, w, n - 1);
      assert w != n - 1 ==> Work(s', c, n - 1) == Work(s, c, n - 1);
    }
  }

  lemma {:induction false} WorkSame(s: State, s': State, c: nat, n: nat)
    requires c < |s.clients| && n <= |s.clients[c].row| && n <= |s.workers|
    requires c < |s'.clients| && n <= |s'.clients[c].row| && n <= |s'.workers|
    requires forall v: nat {:trigger Work(s, c, v)} :: v < n ==> Work(s', c, v) == Work(s, c, v)
    ensures WorkOf(s', c, n) == WorkOf(s, c, n)
  {
    if n > 0 {
      WorkSame(s, s', c, n - 1);
      assert Work(s', c, n - 1) == Work(s, c, n - 1);
    }
  }

  /** A look brings the worker one client nearer, or takes the client's request. */
  lemma PollLowers(cfg: Config, s: State, c: nat, w: nat)
    requires Inv(cfg, s) && c < NUM_CLIENTS && w < cfg.numWorkers && !s.workers[w].replying
    requires |s.clients[c].row[w].got| < s.clients[c].row[w].delivered
    requires Offset(w, NextClient(s.workers[w]), s.workers[w].ws[NextClient(s.workers[w])]) < |s.region|
    ensures Shaped(cfg, PollSlot(cfg, s, w))
    ensures Work(PollSlot(cfg, s, w), c, w) < Work(s, c, w)
    ensures forall v: nat :: v < cfg.numWorkers && v != w ==> Work(PollSlot(cfg, s, w), c, v) == Work(s, c, v)
    ensures PollSlot(cfg, s, w).clients[c].wire == s.clients[c].wire
  {
    PollSlotShaped(cfg, s, w);
    PollSlotTakes(cfg, s, w);
    assert ClientOk(cfg.mode, c, s.clients[c]) && PairOk(s.clients[c].row[w]);
    assert s.workers[w].cltI < NUM_CLIENTS;
  }

  lemma AnswerLowers(cfg: Config, s: State, c: nat, w: nat)
    requires Inv(cfg, s) && c < NUM_CLIENTS && w < cfg.numWorkers && s.workers[w].replying && s.workers[w].batch != []
    requires s.workers[w].batch[0].client < NUM_CLIENTS && Shaped(cfg, Answer(cfg, s, w))
    ensures Work(Answer(cfg, s, w), c, w) < Work(s, c, w)
    ensures forall v: nat :: v < cfg.numWorkers && v != w ==> Work(Answer(cfg, s, w), c, v) == Work(s, c, v)
    ensures Answer(cfg, s, w).clients[c].wire == s.clients[c].wire
  {
  }

  /** Every step towards a response lowers the rank, whatever else the worker does by it. */
  lemma TowardsLowers(cfg: Config, s: State, c: nat, w: nat, step: Step, s': State)
    requires Inv(cfg, s) && c < NUM_CLIENTS && w < cfg.numWorkers && Towards(s, c, w, step) && Next(cfg, s, step, s')
    ensures Shaped(cfg, s') && Rank(s', c) < Rank(s, c)
  {
    StepKeeps(cfg, s, step, s');
    assert ClientOk(cfg.mode, c, s.clients[c]) && PairOk(s.clients[c].row[w]);
    var n := cfg.numWorkers;
    match step
    case DoPollSlot(_) =>
      PollLowers(cfg, s, c, w);
      WorkLowers(s, s', c, w, n);
    case DoAnswer(_) =>
      AnswerLowers(cfg, s, c, w);
      WorkLowers(s, s', c, w, n);
    case DoClose(_) =>
      WorkLowers(s, s', c, w, n);
    case DoReceive(_, _) =>
      WorkLowers(s, s', c, w, n);
    case DoDeliver(_) =>
      WorkSame(s, s', c, n);
  }

  // ---------------------------------------------------------------------------
  // The wait ends
  // ---------------------------------------------------------------------------

  /** From `ss[0]` on, every step is one towards a response client `c` is owed. */
  ghost predicate StepsTowards(cfg: Config, ss: seq<State>, steps: seq<Step>, c: nat) {
    && |ss| == |steps| + 1
    && forall i: nat {:trigger steps[i]} :: i < |steps| ==>
         Next(cfg, ss[i], steps[i], ss[i + 1]) && Helps(ss[i], c, steps[i])
  }

  ghost predicate Helps(s: State, c: nat, step: Step) {
    c < |s.clients| && exists w: nat :: w < |s.clients[c].row| && Towards(s, c, w, step)
  }

  lemma StepKeepsWaiting(cfg: Config, s: State, c: nat, w: nat, step: Step, s': State)
    requires Shaped(cfg, s) && c < NUM_CLIENTS && w < |s.clients[c].row| && s.clients[c].phase == NeedPoll
    requires Towards(s, c, w, step) && Next(cfg, s, step, s')
    ensures c < |s'.clients| && s'.clients[c].phase == NeedPoll
  {
  }

  /** Taking such steps, no more of them than the rank, brings a window of responses. */
  lemma {:induction false} ComesToWindow(cfg: Config, s: State, c: nat) returns (ss: seq<State>, steps: seq<Step>)
    requires Inv(cfg, s) && c < NUM_CLIENTS && cfg.postlist > 0 && s.clients[c].phase == NeedPoll
    ensures StepsTowards(cfg, ss, steps, c) && ss[0] == s && |steps| <= Rank(s, c)
    ensures var last := ss[|steps|];
            Inv(cfg, last) && last.clients[c].phase == NeedPoll && last.clients[c].comps >= WINDOW
    decreases Rank(s, c)
  {
    if s.clients[c].comps >= WINDOW {
      ss, steps := [s], [];
    } else {
      var w, step, s' := SomeStepTowards(cfg, s, c);
      StepKeeps(cfg, s, step, s');
      StepKeepsWaiting(cfg, s, c, w, step, s');
      TowardsLowers(cfg, s, c, w, step, s');
      var ss', steps' := ComesToWindow(cfg, s', c);
      ss, steps := [s] + ss', [step] + steps';
      assert Helps(s, c, step);
      forall i: nat | i < |steps| ensures Next(cfg, ss[i], steps[i], ss[i + 1]) && Helps(ss[i], c, steps[i]) {
        if i > 0 { assert steps[i] == steps'[i - 1]; }
      }
    }
  }

  /** No reachable state is a deadlock, and no wait need last: from every state of every interleaving
      in which a client waits, so many steps towards responses it is owed lead to all of them being
      there, and the last of them can then be followed by the end of the wait. */
  lemma NeverDeadlocked(cfg: Config, ss: seq<State>, steps: seq<Step>, i: nat, c: nat)
    returns (more: seq<State>, after: seq<Step>)
    requires Run(cfg, ss, steps) && i < |ss| && c < NUM_CLIENTS && cfg.postlist > 0
    requires c < |ss[i].clients| && ss[i].clients[c].phase == NeedPoll
    ensures StepsTowards(cfg, more, after, c) && more[0] == ss[i]
    ensures var last := more[|after|];
            && c < |last.clients| && last.clients[c].comps >= WINDOW
            && Next(cfg, last, DoPollWindow(c), SetClient(last, c, PollWindow(last.clients[c])))
  {
    RunKeeps(cfg, ss, steps, i);
    more, after := ComesToWindow(cfg, ss[i], c);
  }
}
