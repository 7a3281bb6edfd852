/** The numbers the sequencer's workers hand out, over every interleaving. A worker takes
    numbers for a whole batch in one fetch-and-add on the shared counter. */
module SequencerRuns {

  import opened IndexMath
  import opened WindowState
  import opened WindowInv
  import opened WindowRuns

  /** Every ticket is for a request counted as numbered, no two are for the same request, and
      every request counted has one. */
  ghost predicate TicketsOk(issued: seq<Request>, nums: seq<seq<nat>>) {
    && (forall i {:trigger issued[i]} :: 0 <= i < |issued| ==> Counted(nums, issued[i]))
    && (forall i, j {:trigger issued[i], issued[j]} :: 0 <= i < j < |issued| ==> issued[i] != issued[j])
    && (forall t: Request {:trigger Counted(nums, t)} :: Counted(nums, t) ==> t in issued)
  }

  ghost predicate Counted(nums: seq<seq<nat>>, t: Request) {
    t.worker < |nums| && t.client < |nums[t.worker]| && t.number < nums[t.worker][t.client]
  }

  /** The requests of a batch carry, client by client, the next numbers in line. */
  ghost predicate InLine(batch: seq<Item>, nums: seq<nat>)
    decreases |batch|
  {
    batch == [] ||
    (var c := batch[0].client;
     c < |nums| && batch[0].number == nums[c] && InLine(batch[1..], nums[c := nums[c] + 1]))
  }

  lemma {:induction false} InLineAppend(batch: seq<Item>, nums: seq<nat>, c: nat)
    requires InLine(batch, nums) && c < |nums|
    ensures InLine(batch + [Item(c, nums[c] + InBatch(batch, c))], nums)
    decreases |batch|
  {
    var x := Item(c, nums[c] + InBatch(batch, c));
    if batch == [] {
      assert batch + [x] == [x] && [x][1..] == [];
    } else {
      var d := batch[0].client;
      InLineAppend(batch[1..], nums[d := nums[d] + 1], c);
      assert (batch + [x])[1..] == batch[1..] + [x];
    }
  }

  lemma {:induction false} BumpAt(nums: seq<nat>, batch: seq<Item>, c: nat)
    requires InLine(batch, nums) && c < |nums|
    ensures Bump(nums, batch)[c] == nums[c] + InBatch(batch, c)
    decreases |batch|
  {
    if batch != [] {
      var d := batch[0].client;
      BumpAt(nums[d := nums[d] + 1], batch[1..], c);
    }
  }

  /** The requests of a batch, in order. */
  ghost function Requests(w: nat, batch: seq<Item>): (r: seq<Request>)
    ensures |r| == |batch|
  {
    if batch == [] then [] else [Request(w, batch[0].client, batch[0].number)] + Requests(w, batch[1..])
  }

  /** The requests that numbers were handed out to, in the order of handing out. */
  ghost function Reqs(issued: seq<Ticket>): (r: seq<Request>)
    ensures |r| == |issued|
    ensures forall k {:trigger issued[k]} {:trigger r[k]} :: 0 <= k < |issued| ==> r[k] == issued[k].req
  {
    if issued == [] then [] else Reqs(issued[..|issued| - 1]) + [issued[|issued| - 1].req]
  }

  /** The numbers are consecutive, from `from` on. */
  ghost predicate ValuesOk(issued: seq<Ticket>, from: nat) {
    forall k {:trigger issued[k]} :: 0 <= k < |issued| ==> issued[k].value == from + k
  }

  /** One fetch-and-add: the batch's numbers go to its requests and follow on from the counter. */
  lemma {:induction false} TicketsAre(w: nat, batch: seq<Item>, base: nat)
    ensures Reqs(Tickets(w, batch, base)) == Requests(w, batch) && ValuesOk(Tickets(w, batch, base), base)
    decreases |batch|
  {
    if batch != [] {
      TicketsAre(w, batch[1..], base + 1);
      var ts, rest := Tickets(w, batch, base), Tickets(w, batch[1..], base + 1);
      assert ts == [ts[0]] + rest;
      forall k | 0 <= k < |ts| ensures ts[k].value == base + k && ts[k].req == Requests(w, batch)[k] {
        if k > 0 { assert ts[k] == rest[k - 1] && Reqs(rest)[k - 1] == rest[k - 1].req; }
      }
    }
  }

  lemma IssueBatch(issued: seq<Ticket>, nums: seq<seq<nat>>, w: nat, batch: seq<Item>)
    requires ValuesOk(issued, 0) && TicketsOk(Reqs(issued), nums) && w < |nums| && InLine(batch, nums[w])
    ensures var issued' := issued + Tickets(w, batch, |issued|);
            ValuesOk(issued', 0) && TicketsOk(Reqs(issued'), nums[w := Bump(nums[w], batch)])
  {
    var ts := Tickets(w, batch, |issued|);
    TicketsAre(w, batch, |issued|);
    IssueAll(Reqs(issued), nums, w, batch);
    assert Reqs(issued + ts) == Reqs(issued) + Requests(w, batch);
  }

  /** One number more. */
  lemma IssueOne(issued: seq<Request>, nums: seq<seq<nat>>, w: nat, c: nat)
    requires TicketsOk(issued, nums) && w < |nums| && c < |nums[w]|
    ensures TicketsOk(issued + [Request(w, c, nums[w][c])], nums[w := nums[w][c := nums[w][c] + 1]])
  {
    var t := Request(w, c, nums[w][c]);
    var issued', nums' := issued + [t], nums[w := nums[w][c := nums[w][c] + 1]];
    assert !Counted(nums, t);
    forall i | 0 <= i < |issued'| ensures Counted(nums', issued'[i]) {
      if i < |issued| { assert Counted(nums, issued[i]); }
    }
    forall i, j | 0 <= i < j < |issued'| ensures issued'[i] != issued'[j] {
      assert Counted(nums, issued[i]);
      if j < |issued| { assert issued[i] != issued[j]; }
    }
    forall u: Request | Counted(nums', u) ensures u in issued' {
      if u != t { assert Counted(nums, u); }
    }
  }

  /** A batch of numbers. */
  lemma {:induction false} IssueAll(issued: seq<Request>, nums: seq<seq<nat>>, w: nat, batch: seq<Item>)
    requires TicketsOk(issued, nums) && w < |nums| && InLine(batch, nums[w])
    ensures TicketsOk(issued + Requests(w, batch), nums[w := Bump(nums[w], batch)])
    decreases |batch|
  {
    if batch == [] {
      assert issued + [] == issued && nums[w := nums[w]] == nums;
    } else {
      var c := batch[0].client;
      var t := Request(w, c, nums[w][c]);
      var nums1 := nums[w := nums[w][c := nums[w][c] + 1]];
      IssueOne(issued, nums, w, c);
      IssueAll(issued + [t], nums1, w, batch[1..]);
      TicketsStep(issued, nums, w, batch);
    }
  }

  lemma TicketsStep(issued: seq<Request>, nums: seq<seq<nat>>, w: nat, batch: seq<Item>)
    requires w < |nums| && batch != [] && InLine(batch, nums[w])
    ensures var c := batch[0].client;
            && issued + Requests(w, batch) == issued + [Request(w, c, nums[w][c])] + Requests(w, batch[1..])
            && (var nums1 := nums[w := nums[w][c := nums[w][c] + 1]];
                nums1[w := Bump(nums1[w], batch[1..])] == nums[w := Bump(nums[w], batch)])
  {
  }

  /** What a worker has taken and not numbered is its unclosed batch, in line. */
  ghost predicate WorkerNumbers(cfg: Config, s: State, w: nat)
    requires Shaped(cfg, s) && w < cfg.numWorkers
  {
    var wk := s.workers[w];
    && (!wk.replying ==> InLine(wk.batch, s.numbered[w]))
    && forall c: nat {:trigger s.numbered[w][c]} :: c < NUM_CLIENTS ==>
         |s.clients[c].row[w].got| == s.numbered[w][c] + (if wk.replying then 0 else InBatch(wk.batch, c))
  }

  ghost predicate NumberInv(cfg: Config, s: State) {
    && Shaped(cfg, s)
    && s.counter == |s.issued| && ValuesOk(s.issued, 0)
    && TicketsOk(Reqs(s.issued), s.numbered)
    && forall w: nat {:trigger WorkerNumbers(cfg, s, w)} :: w < cfg.numWorkers ==> WorkerNumbers(cfg, s, w)
  }

  // ---------------------------------------------------------------------------
  // Steps
  // ---------------------------------------------------------------------------

  /** Steps that neither take nor number requests. */
  lemma QuietNumbers(cfg: Config, s: State, s': State)
    requires NumberInv(cfg, s) && Shaped(cfg, s')
    requires s'.workers == s.workers && s'.numbered == s.numbered && s'.issued == s.issued && s'.counter == s.counter
    requires forall c: nat, w: nat {:trigger s'.clients[c].row[w]} :: c < NUM_CLIENTS && w < cfg.numWorkers ==>
               |s'.clients[c].row[w].got| == |s.clients[c].row[w].got|
    ensures NumberInv(cfg, s')
  {
    forall w: nat | w < cfg.numWorkers ensures WorkerNumbers(cfg, s', w) {
      assert WorkerNumbers(cfg, s, w);
    }
  }

  lemma PollNumbers(cfg: Config, s: State, w: nat)
    requires Inv(cfg, s) && NumberInv(cfg, s) && w < cfg.numWorkers && !s.workers[w].replying
    requires Offset(w, NextClient(s.workers[w]), s.workers[w].ws[NextClient(s.workers[w])]) < |s.region|
    ensures NumberInv(cfg, PollSlot(cfg, s, w))
  {
    var wk, s' := s.workers[w], PollSlot(cfg, s, w);
    var c := NextClient(wk);
    PollSlotShaped(cfg, s, w);
    assert WorkerNumbers(cfg, s, w);
    InLineAppend(wk.batch, s.numbered[w], c);
    forall v: nat | v < cfg.numWorkers ensures WorkerNumbers(cfg, s', v) {
      assert WorkerNumbers(cfg, s, v);
      forall d: nat | d < NUM_CLIENTS
        ensures |s'.clients[d].row[v].got| ==
                s'.numbered[v][d] + (if s'.workers[v].replying then 0 else InBatch(s'.workers[v].batch, d))
      {
        assert s.numbered[v][d] == s'.numbered[v][d];
        InBatchAppend(wk.batch, Item(c, |s.clients[c].row[w].got|), d);
      }
    }
  }

  lemma CloseNumbers(cfg: Config, s: State, w: nat)
    requires NumberInv(cfg, s) && w < cfg.numWorkers && !s.workers[w].replying
    ensures NumberInv(cfg, Close(cfg, s, w))
  {
    var wk, s' := s.workers[w], Close(cfg, s, w);
    forall v | 0 <= v < cfg.numWorkers
      ensures |s'.workers[v].ws| == |s'.numbered[v]| == NUM_CLIENTS && s'.workers[v].cltI < NUM_CLIENTS
    {
      assert |s.workers[v].ws| == |s.numbered[v]| == NUM_CLIENTS;
    }
    assert WorkerNumbers(cfg, s, w);
    IssueBatch(s.issued, s.numbered, w, wk.batch);
    forall v: nat | v < cfg.numWorkers ensures WorkerNumbers(cfg, s', v) {
      assert WorkerNumbers(cfg, s, v);
      forall d: nat | d < NUM_CLIENTS
        ensures |s'.clients[d].row[v].got| ==
                s'.numbered[v][d] + (if s'.workers[v].replying then 0 else InBatch(s'.workers[v].batch, d))
      {
        assert s.numbered[v][d] == s.numbered[v][d];
        if v == w { BumpAt(s.numbered[w], wk.batch, d); }
      }
    }
  }

  lemma AnswerNumbers(cfg: Config, s: State, w: nat)
    requires NumberInv(cfg, s) && w < cfg.numWorkers && s.workers[w].replying && s.workers[w].batch != []
    requires s.workers[w].batch[0].client < NUM_CLIENTS
    ensures NumberInv(cfg, Answer(cfg, s, w))
  {
    var s' := Answer(cfg, s, w);
    assert Shaped(cfg, s');
    forall v: nat | v < cfg.numWorkers ensures WorkerNumbers(cfg, s', v) {
      assert WorkerNumbers(cfg, s, v);
      forall d: nat | d < NUM_CLIENTS
        ensures |s'.clients[d].row[v].got| ==
                s'.numbered[v][d] + (if s'.workers[v].replying then 0 else InBatch(s'.workers[v].batch, d))
      {
        assert s.numbered[v][d] == s'.numbered[v][d];
      }
    }
  }

  lemma StepNumbers(cfg: Config, s: State, step: Step, s': State)
    requires Inv(cfg, s) && NumberInv(cfg, s) && Next(cfg, s, step, s')
    ensures NumberInv(cfg, s')
  {
    StepKeeps(cfg, s, step, s');
    match step
    case DoPollSlot(w) => PollNumbers(cfg, s, w);
    case DoClose(w) => CloseNumbers(cfg, s, w);
    case DoAnswer(w) => AnswerNumbers(cfg, s, w);
    case _ => QuietNumbers(cfg, s, s');
  }

  lemma InitCountsNothing(cfg: Config, s: State, t: Request)
    requires Init(cfg, s)
    ensures !Counted(s.numbered, t)
  {
    if t.worker < cfg.numWorkers {
      assert |s.workers[t.worker].ws| == NUM_CLIENTS;
      if t.client < NUM_CLIENTS { assert s.workers[t.worker].ws[t.client] == 0; }
    }
  }

  lemma InitNumbers(cfg: Config, s: State)
    requires Init(cfg, s)
    ensures NumberInv(cfg, s)
  {
    forall w: nat | w < cfg.numWorkers ensures WorkerNumbers(cfg, s, w) {
      assert s.workers[w].batch == [];
      forall c: nat | c < NUM_CLIENTS ensures |s.clients[c].row[w].got| == s.numbered[w][c] {
        assert s.workers[w].ws[c] == 0;
        assert s.clients[c].row[w] == Pair([], 0, [], 0, 0);
      }
    }
    forall t: Request ensures !Counted(s.numbered, t) { InitCountsNothing(cfg, s, t); }
  }

  lemma {:induction false} RunNumbers(cfg: Config, ss: seq<State>, steps: seq<Step>, i: nat)
    requires Run(cfg, ss, steps) && i < |ss|
    ensures Inv(cfg, ss[i]) && NumberInv(cfg, ss[i])
  {
    RunKeeps(cfg, ss, steps, i);
    if i == 0 {
      InitNumbers(cfg, ss[0]);
    } else {
      RunNumbers(cfg, ss, steps, i - 1);
      StepNumbers(cfg, ss[i - 1], steps[i - 1], ss[i]);
    }
  }

  /** In every interleaving, the k-th number handed out is k: the numbers are exactly 0 ..
      counter - 1, each once. */
  lemma NumbersConsecutive(cfg: Config, ss: seq<State>, steps: seq<Step>, i: nat, v: nat)
    requires Run(cfg, ss, steps) && i < |ss|
    ensures forall k: nat {:trigger ss[i].issued[k]} :: k < |ss[i].issued| ==> ss[i].issued[k].value == k
    ensures (exists t :: t in ss[i].issued && t.value == v) <==> v < ss[i].counter
    ensures forall t, u :: t in ss[i].issued && u in ss[i].issued && t.value == u.value ==> t == u
  {
    RunNumbers(cfg, ss, steps, i);
    if v < ss[i].counter { assert ss[i].issued[v] in ss[i].issued; }
  }

  /** In every interleaving, no two numbers go to the same request; and a request of client `c`
      taken by worker `w` has a number as soon as its batch is closed, and none before. */
  lemma NumbersExact(cfg: Config, ss: seq<State>, steps: seq<Step>, i: nat, c: nat, w: nat, n: nat)
    requires Run(cfg, ss, steps) && i < |ss| && c < NUM_CLIENTS && w < cfg.numWorkers
    ensures Shaped(cfg, ss[i])
    ensures var s := ss[i];
            var open := if s.workers[w].replying then 0 else InBatch(s.workers[w].batch, c);
            && (forall t, u :: t in s.issued && u in s.issued && t.req == u.req ==> t == u)
            && ((exists t :: t in s.issued && t.req == Request(w, c, n)) <==> n + open < |s.clients[c].row[w].got|)
  {
    RunNumbers(cfg, ss, steps, i);
    var s := ss[i];
    assert WorkerNumbers(cfg, s, w);
    assert |s.clients[c].row[w].got| ==
           s.numbered[w][c] + (if s.workers[w].replying then 0 else InBatch(s.workers[w].batch, c));
    HasNumber(s.issued, s.numbered, Request(w, c, n));
    OneNumberEach(s.issued, s.numbered);
  }

  lemma HasNumber(issued: seq<Ticket>, nums: seq<seq<nat>>, req: Request)
    requires TicketsOk(Reqs(issued), nums)
    ensures (exists t :: t in issued && t.req == req) <==> Counted(nums, req)
  {
    var reqs := Reqs(issued);
    if Counted(nums, req) {
      var k :| 0 <= k < |reqs| && reqs[k] == req;
      assert issued[k] in issued && issued[k].req == req;
    }
    forall t | t in issued && t.req == req ensures Counted(nums, req) {
      var k :| 0 <= k < |issued| && issued[k] == t;
      assert Counted(nums, reqs[k]);
    }
  }

  lemma OneNumberEach(issued: seq<Ticket>, nums: seq<seq<nat>>)
    requires TicketsOk(Reqs(issued), nums)
    ensures forall t, u :: t in issued && u in issued && t.req == u.req ==> t == u
  {
    var reqs := Reqs(issued);
    forall t, u | t in issued && u in issued && t.req == u.req ensures t == u {
      var k, m :| 0 <= k < |issued| && 0 <= m < |issued| && issued[k] == t && issued[m] == u;
      assert reqs[k] == reqs[m];
    }
  }
}
