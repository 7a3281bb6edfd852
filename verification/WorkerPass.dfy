/** One polling pass of a worker (herd/worker.c:142-260, ws-sequencer/worker.c:121-244), in
    place: the requests it takes, and the chains of responses it hands to each port. */
module WorkerPass {

  import opened IndexMath
  import opened WindowState
  import MicaStore

  /** What a pass changes; `picks` are the clients of the requests taken, in order. */
  datatype PassState = PassState(region: seq<Cell>, ws: seq<nat>, clt: nat, picks: seq<nat>)

  /** The slots the worker reads exist. */
  ghost predicate PassOk(w: nat, st: PassState) {
    && |st.ws| == NUM_CLIENTS && st.clt < NUM_CLIENTS && Offset(w + 1, 0, 0) <= |st.region|
    && forall c: nat {:trigger st.ws[c]} :: c < NUM_CLIENTS ==> st.ws[c] < WINDOW
  }

  /** One turn of the polling loop. */
  ghost function PollOne(mode: Mode, w: nat, st: PassState): (r: PassState)
    requires PassOk(w, st)
    ensures PassOk(w, r) && |st.picks| <= |r.picks| <= |st.picks| + 1
  {
    var c := Bumped(st.clt, NUM_CLIENTS);
    var at := Offset(w, c, st.ws[c]);
    var cell := st.region[at];
    if !IsNew(mode, cell.op) || Mark(mode, cell.op) < 0 then st.(clt := c)
    else
      PassState(st.region[at := cell.(op := Mark(mode, cell.op))], st.ws[c := Bumped(st.ws[c], WINDOW)], c,
                st.picks + [c])
  }

  /** The pass: up to `n` turns, ended early by a full batch. */
  ghost function Pass(mode: Mode, w: nat, st: PassState, postlist: nat, n: nat): (r: PassState)
    requires PassOk(w, st)
    ensures PassOk(w, r)
  {
    if n == 0 then st
    else
      var before := Pass(mode, w, st, postlist, n - 1);
      if |before.picks| == postlist then before else PollOne(mode, w, before)
  }

  // ---------------------------------------------------------------------------
  // The pass and the protocol
  // ---------------------------------------------------------------------------

  ghost function Clients(batch: seq<Item>): (r: seq<nat>)
    ensures |r| == |batch|
  {
    if batch == [] then [] else Clients(batch[..|batch| - 1]) + [batch[|batch| - 1].client]
  }

  /** What worker `w` sees of a system state. */
  ghost function View(s: State, w: nat): PassState
    requires w < |s.workers|
  {
    var wk := s.workers[w];
    PassState(s.region, wk.ws, wk.cltI, Clients(wk.batch))
  }

  /** A turn of the loop is the protocol's polling step, seen by the worker. */
  lemma TurnIsStep(cfg: Config, s: State, w: nat)
    requires Shaped(cfg, s) && w < cfg.numWorkers && PassOk(w, View(s, w))
    ensures var c := NextClient(s.workers[w]); c < NUM_CLIENTS && Offset(w, c, s.workers[w].ws[c]) < |s.region|
    ensures View(PollSlot(cfg, s, w), w) == PollOne(cfg.mode, w, View(s, w))
  {
    var wk := s.workers[w];
    var c := NextClient(wk);
    assert wk.ws[c] < WINDOW;
    var got := |s.clients[c].row[w].got|;
    assert (wk.batch + [Item(c, got)])[..|wk.batch|] == wk.batch;
    var s', st' := PollSlot(cfg, s, w), PollOne(cfg.mode, w, View(s, w));
    assert s'.region == st'.region;
    assert s'.workers[w].ws == st'.ws && s'.workers[w].cltI == st'.clt;
    assert Clients(s'.workers[w].batch) == st'.picks;
  }

  // ---------------------------------------------------------------------------
  // No client twice
  // ---------------------------------------------------------------------------

  /** The clients taken are among the `n` that follow `clt`, in that order. */
  ghost predicate InTurn(picks: seq<nat>, turns: seq<nat>, clt: nat, n: nat) {
    && |turns| == |picks|
    && (forall i: nat {:trigger turns[i]} :: i < |turns| ==>
          turns[i] < n && picks[i] == Pos(clt + 1 + turns[i], NUM_CLIENTS))
    && (forall i: nat, j: nat {:trigger turns[i], turns[j]} :: i < j < |turns| ==> turns[i] < turns[j])
  }

  lemma {:induction false} PassInTurn(mode: Mode, w: nat, st: PassState, postlist: nat, n: nat)
    returns (turns: seq<nat>, m: nat)
    requires PassOk(w, st) && st.picks == []
    ensures m <= n && Pass(mode, w, st, postlist, n).clt == Pos(st.clt + m, NUM_CLIENTS)
    ensures InTurn(Pass(mode, w, st, postlist, n).picks, turns, st.clt, m)
  {
    if n == 0 {
      turns, m := [], 0;
    } else {
      turns, m := PassInTurn(mode, w, st, postlist, n - 1);
      var before := Pass(mode, w, st, postlist, n - 1);
      if |before.picks| != postlist {
        turns := TurnAdded(mode, w, before, turns, st.clt, m);
        m := m + 1;
      }
    }
  }

  lemma PollOneTakes(mode: Mode, w: nat, st: PassState)
    requires PassOk(w, st)
    ensures var r := PollOne(mode, w, st);
            r.clt == Bumped(st.clt, NUM_CLIENTS) && (r.picks == st.picks || r.picks == st.picks + [r.clt])
  {
  }

  lemma TurnAdded(mode: Mode, w: nat, st: PassState, turns: seq<nat>, clt: nat, m: nat) returns (turns': seq<nat>)
    requires PassOk(w, st) && InTurn(st.picks, turns, clt, m) && st.clt == Pos(clt + m, NUM_CLIENTS)
    ensures PollOne(mode, w, st).clt == Pos(clt + m + 1, NUM_CLIENTS)
    ensures InTurn(PollOne(mode, w, st).picks, turns', clt, m + 1)
  {
    PosNext(clt + m, NUM_CLIENTS);
    PollOneTakes(mode, w, st);
    turns' := if PollOne(mode, w, st).picks == st.picks then turns else turns + [m];
  }

  // ---------------------------------------------------------------------------
  // What a pass leaves for the store
  // ---------------------------------------------------------------------------

  /** A request taken: HERD's GET has become MICA's GET and its PUT MICA's PUT; the sequencer's slot is
      cleared; the rest of the request is as the client wrote it. */
  ghost predicate Taken(mode: Mode, before: Cell, after: Cell) {
    && after.req == before.req
    && match mode
       case Herd =>
         && (before.op == HERD_OP_GET <==> after.op == MicaStore.OP_GET)
         && (before.op == HERD_OP_PUT <==> after.op == MicaStore.OP_PUT)
       case Sequencer => before.op != 0 && after.op == 0
  }

  /** The slot of client `c` that a worker whose windows stand at `ws` looks at. */
  ghost predicate IsSlot(w: nat, ws: seq<nat>, c: nat, a: nat) {
    c < |ws| && a == Offset(w, c, ws[c])
  }

  /** From `st` to `r` the clients picked, and only they, had the request in their slot taken and their
      window moved on. */
  ghost predicate Took(mode: Mode, w: nat, st: PassState, r: PassState)
    requires PassOk(w, st) && PassOk(w, r)
  {
    && |r.region| == |st.region|
    && (forall c: nat {:trigger c in r.picks} :: c < NUM_CLIENTS ==>
          r.ws[c] == if c in r.picks then Bumped(st.ws[c], WINDOW) else st.ws[c])
    && (forall a: nat, c: nat {:trigger IsSlot(w, st.ws, c, a)} :: a < |st.region| && IsSlot(w, st.ws, c, a) ==>
          if c in r.picks then Taken(mode, st.region[a], r.region[a]) else r.region[a] == st.region[a])
    && (forall a: nat {:trigger r.region[a]} :: a < |st.region| && (forall c: nat :: !IsSlot(w, st.ws, c, a)) ==>
          r.region[a] == st.region[a])
  }

  lemma PollTakes(mode: Mode, w: nat, st: PassState, st1: PassState)
    requires PassOk(w, st) && PassOk(w, st1) && Took(mode, w, st, st1)
    requires Bumped(st1.clt, NUM_CLIENTS) !in st1.picks
    ensures Took(mode, w, st, PollOne(mode, w, st1))
  {
    var r, c := PollOne(mode, w, st1), Bumped(st1.clt, NUM_CLIENTS);
    var at := Offset(w, c, st1.ws[c]);
    assert st1.ws[c] == st.ws[c] && IsSlot(w, st.ws, c, at);
    assert r.picks == st1.picks || r.picks == st1.picks + [c];
    forall a: nat, d: nat | a < |st.region| && IsSlot(w, st.ws, d, a)
      ensures if d in r.picks then Taken(mode, st.region[a], r.region[a]) else r.region[a] == st.region[a]
    {
      assert d != c ==> a != at;
    }
  }

  /** In every pass, whatever mode, batch size and windows. */
  lemma {:induction false} PassTook(mode: Mode, w: nat, st: PassState, postlist: nat, n: nat)
    requires PassOk(w, st) && st.picks == [] && n <= NUM_CLIENTS
    ensures Took(mode, w, st, Pass(mode, w, st, postlist, n))
  {
    if n > 0 {
      PassTook(mode, w, st, postlist, n - 1);
      var before := Pass(mode, w, st, postlist, n - 1);
      if |before.picks| != postlist {
        NextIsNew(mode, w, st, postlist, n - 1);
        PollTakes(mode, w, st, before);
      }
    }
  }

  lemma NextIsNew(mode: Mode, w: nat, st: PassState, postlist: nat, n: nat)
    requires PassOk(w, st) && st.picks == [] && n < NUM_CLIENTS
    ensures var r := Pass(mode, w, st, postlist, n); Bumped(r.clt, NUM_CLIENTS) !in r.picks
  {
    var r := Pass(mode, w, st, postlist, n);
    var turns, m := PassInTurn(mode, w, st, postlist, n);
    PosNext(st.clt + m, NUM_CLIENTS);
    forall i: nat | i < |r.picks| ensures r.picks[i] != Bumped(r.clt, NUM_CLIENTS) {
      assert turns[i] < m;
      PosDiffer(st.clt + 1 + turns[i], st.clt + 1 + m, NUM_CLIENTS);
    }
  }

  /** A pass that does not fill its batch looks at every client. */
  lemma {:induction false} PassGoesOn(mode: Mode, w: nat, st: PassState, postlist: nat, n: nat)
    requires PassOk(w, st) && |Pass(mode, w, st, postlist, n).picks| < postlist
    ensures Pass(mode, w, st, postlist, n).clt == Pos(st.clt + n, NUM_CLIENTS)
  {
    if n > 0 {
      PassGoesOn(mode, w, st, postlist, n - 1);
      PosNext(st.clt + n - 1, NUM_CLIENTS);
    }
  }

  /** There is a request in the slot of client `c`. */
  ghost predicate Waiting(mode: Mode, w: nat, st: PassState, c: nat)
    requires PassOk(w, st) && c < NUM_CLIENTS
  {
    var op := st.region[Offset(w, c, st.ws[c])].op;
    if mode.Herd? then op >= HERD_OP_GET else op != 0
  }

  lemma PollTakesWaiting(mode: Mode, w: nat, st: PassState)
    requires PassOk(w, st) && Bumped(st.clt, NUM_CLIENTS) !in st.picks
    ensures var c := Bumped(st.clt, NUM_CLIENTS);
            c in PollOne(mode, w, st).picks <==> Waiting(mode, w, st, c)
  {
  }

  lemma StillWaiting(mode: Mode, w: nat, st: PassState, r: PassState, c: nat)
    requires PassOk(w, st) && PassOk(w, r) && Took(mode, w, st, r) && c < NUM_CLIENTS && c !in r.picks
    ensures Waiting(mode, w, r, c) <==> Waiting(mode, w, st, c)
  {
    assert IsSlot(w, st.ws, c, Offset(w, c, st.ws[c]));
  }

  lemma NextPolled(mode: Mode, w: nat, st: PassState, st1: PassState) returns (took: bool)
    requires PassOk(w, st) && PassOk(w, st1) && Took(mode, w, st, st1)
    requires Bumped(st1.clt, NUM_CLIENTS) !in st1.picks
    ensures took <==> Waiting(mode, w, st, Bumped(st1.clt, NUM_CLIENTS))
    ensures PollOne(mode, w, st1).picks == st1.picks + if took then [Bumped(st1.clt, NUM_CLIENTS)] else []
  {
    var c := Bumped(st1.clt, NUM_CLIENTS);
    took := Waiting(mode, w, st, c);
    PollOneTakes(mode, w, st1);
    PollTakesWaiting(mode, w, st1);
    StillWaiting(mode, w, st, st1, c);
  }

  lemma NextFollows(mode: Mode, w: nat, st: PassState, postlist: nat, n: nat)
    requires PassOk(w, st) && |Pass(mode, w, st, postlist, n).picks| < postlist
    ensures Bumped(Pass(mode, w, st, postlist, n).clt, NUM_CLIENTS) == Pos(st.clt + n + 1, NUM_CLIENTS)
  {
    PassGoesOn(mode, w, st, postlist, n);
    PosNext(st.clt + n, NUM_CLIENTS);
  }

  /** The last turn of a pass. */
  lemma LastPolled(mode: Mode, w: nat, st: PassState, postlist: nat, n: nat, k: nat) returns (c: nat, took: bool)
    requires PassOk(w, st) && st.picks == [] && n == k + 1 <= NUM_CLIENTS
    requires |Pass(mode, w, st, postlist, n).picks| < postlist
    ensures c == Pos(st.clt + n, NUM_CLIENTS) < NUM_CLIENTS
    ensures c !in Pass(mode, w, st, postlist, k).picks && (took <==> Waiting(mode, w, st, c))
    ensures Pass(mode, w, st, postlist, n).picks
         == Pass(mode, w, st, postlist, k).picks + if took then [c] else []
  {
    var before := Pass(mode, w, st, postlist, k);
    assert Pass(mode, w, st, postlist, n) == PollOne(mode, w, before);
    c := Bumped(before.clt, NUM_CLIENTS);
    NextFollows(mode, w, st, postlist, k);
    NextIsNew(mode, w, st, postlist, k);
    PassTook(mode, w, st, postlist, k);
    took := NextPolled(mode, w, st, before);
  }

  lemma {:induction false} PolledIsTaken(mode: Mode, w: nat, st: PassState, postlist: nat, n: nat, t: nat)
    requires PassOk(w, st) && st.picks == [] && t < n <= NUM_CLIENTS
    requires |Pass(mode, w, st, postlist, n).picks| < postlist
    ensures var c := Pos(st.clt + 1 + t, NUM_CLIENTS);
            c in Pass(mode, w, st, postlist, n).picks <==> Waiting(mode, w, st, c)
  {
    var c, took := LastPolled(mode, w, st, postlist, n, n - 1);
    if t < n - 1 {
      PolledIsTaken(mode, w, st, postlist, n - 1, t);
      PosDiffer(st.clt + 1 + t, st.clt + n, NUM_CLIENTS);
    }
  }

  /** A pass that does not fill its batch takes the request of every client that has one, and of no other. */
  lemma AllWaitingTaken(mode: Mode, w: nat, st: PassState, postlist: nat, c: nat)
    requires PassOk(w, st) && st.picks == [] && c < NUM_CLIENTS
    requires |Pass(mode, w, st, postlist, NUM_CLIENTS).picks| < postlist
    ensures c in Pass(mode, w, st, postlist, NUM_CLIENTS).picks <==> Waiting(mode, w, st, c)
  {
    var t := if c > st.clt then c - st.clt - 1 else c + NUM_CLIENTS - st.clt - 1;
    assert Pos(c, NUM_CLIENTS) == c && Pos(c + NUM_CLIENTS, NUM_CLIENTS) == c;
    PolledIsTaken(mode, w, st, postlist, NUM_CLIENTS, t);
  }

  /** A pass takes at most one request from each client, and never more than a postlist. */
  lemma OncePerClient(mode: Mode, w: nat, st: PassState, postlist: nat, i: nat, j: nat)
    requires PassOk(w, st) && st.picks == []
    requires i < j < |Pass(mode, w, st, postlist, NUM_CLIENTS).picks|
    ensures Pass(mode, w, st, postlist, NUM_CLIENTS).picks[i] != Pass(mode, w, st, postlist, NUM_CLIENTS).picks[j]
  {
    var turns, m := PassInTurn(mode, w, st, postlist, NUM_CLIENTS);
    assert turns[i] < turns[j] < NUM_CLIENTS;
    PosDiffer(st.clt + 1 + turns[i], st.clt + 1 + turns[j], NUM_CLIENTS);
  }

  lemma {:induction false} AtMostAPostlist(mode: Mode, w: nat, st: PassState, postlist: nat, n: nat)
    requires PassOk(w, st) && |st.picks| <= postlist
    ensures |Pass(mode, w, st, postlist, n).picks| <= postlist
  {
    if n > 0 { AtMostAPostlist(mode, w, st, postlist, n - 1); }
  }

  // ---------------------------------------------------------------------------
  // Chains of responses
  // ---------------------------------------------------------------------------

  /** Which of the first `n` work requests go to port `p`, in order. */
  ghost function PortList(ports: seq<nat>, p: nat, n: nat): (r: seq<nat>)
    requires n <= |ports|
    ensures forall k: nat {:trigger r[k]} :: k < |r| ==> r[k] < n && ports[r[k]] == p
    ensures forall k: nat, m: nat {:trigger r[k], r[m]} :: k < m < |r| ==> r[k] < r[m]
  {
    if n == 0 then []
    else PortList(ports, p, n - 1) + if ports[n - 1] == p then [n - 1] else []
  }

  /** Every work request is in the list of its port. */
  lemma {:induction false} InItsList(ports: seq<nat>, i: nat, n: nat)
    requires i < n <= |ports|
    ensures i in PortList(ports, ports[i], n)
  {
    if i < n - 1 { InItsList(ports, i, n - 1); }
  }

  lemma {:induction false} PortListPrefix(ports: seq<nat>, ports': seq<nat>, p: nat, n: nat)
    requires n <= |ports| && ports <= ports'
    ensures PortList(ports', p, n) == PortList(ports, p, n)
  {
    if n > 0 { PortListPrefix(ports, ports', p, n - 1); }
  }

  ghost predicate LinkAt(next: seq<int>, list: seq<nat>, k: nat)
    requires k < |list|
  {
    list[k] < |next| && (k + 1 < |list| ==> next[list[k]] == list[k + 1])
  }

  ghost predicate ChainAt(next: seq<int>, list: seq<nat>, k: nat)
    requires k < |list|
  {
    list[k] < |next| && next[list[k]] == if k + 1 < |list| then list[k + 1] else -1
  }

  /** `list` hangs together from `first` to `last` over the `next` links; what the last link holds
      is left open. */
  ghost predicate Hangs(next: seq<int>, first: int, last: int, list: seq<nat>) {
    list != [] ==>
      && first == list[0] && last == list[|list| - 1]
      && forall k: nat {:trigger LinkAt(next, list, k)} :: k < |list| ==> LinkAt(next, list, k)
  }

  /** A chain as it is posted: `list`, then the end. */
  ghost predicate Chain(next: seq<int>, first: int, list: seq<nat>) {
    list != [] ==>
      && first == list[0]
      && forall k: nat {:trigger ChainAt(next, list, k)} :: k < |list| ==> ChainAt(next, list, k)
  }

  lemma PortListNext(ports: seq<nat>, p: nat, port: nat)
    ensures p == port ==> PortList(ports + [port], p, |ports| + 1) == PortList(ports, p, |ports|) + [|ports|]
    ensures p != port ==> PortList(ports + [port], p, |ports| + 1) == PortList(ports, p, |ports|)
  {
    PortListPrefix(ports, ports + [port], p, |ports|);
  }

  /** The port of the next client, for a number of ports that divides the number of clients. */
  lemma PortTracks(clt: nat, numPorts: nat)
    requires 0 < numPorts && NUM_CLIENTS % numPorts == 0 && clt < NUM_CLIENTS
    ensures Bumped(clt, NUM_CLIENTS) % numPorts == Bumped(clt % numPorts, numPorts)
  {
    var q, r := clt / numPorts, clt % numPorts;
    assert clt == q * numPorts + r;
    if r + 1 == numPorts {
      assert (q + 1) * numPorts == clt + 1;
      DivModUnique(clt + 1, numPorts, q + 1, 0);
    } else {
      DivModUnique(clt + 1, numPorts, q, r + 1);
    }
  }

  /** The links of one port's chain after `n` joins it. */
  lemma Joins(next: seq<int>, first: int, last: int, list: seq<nat>, n: nat)
    requires Hangs(next, first, last, list) && n < |next|
    requires forall k: nat, m: nat {:trigger list[k], list[m]} :: k < m < |list| ==> list[k] < list[m]
    ensures list == [] ==> Hangs(next, n, n, list + [n])
    ensures list != [] ==> 0 <= last < |next| && Hangs(next[last := n], first, n, list + [n])
  {
    if list != [] {
      assert LinkAt(next, list, |list| - 1);
      var list', next' := list + [n], next[last := n];
      forall k: nat | k < |list'| ensures LinkAt(next', list', k) {
        if k < |list| { assert LinkAt(next, list, k) && list'[k] == list[k]; }
        if k + 1 < |list| { assert list[k] < list[|list| - 1] && list'[k + 1] == list[k + 1]; }
      }
    } else {
      assert LinkAt(next, list + [n], 0);
    }
  }

  /** The work requests of a pass, as chains: the links, where each port's chain starts and ends,
      and how many it has. */
  datatype Links = Links(next: seq<int>, first: seq<int>, last: seq<int>, newReqs: seq<nat>)

  /** Port `p`'s responses hang together. */
  ghost predicate PortHangs(ports: seq<nat>, p: nat, l: Links) {
    && p < |l.first| && p < |l.last| && p < |l.newReqs|
    && l.newReqs[p] == |PortList(ports, p, |ports|)|
    && Hangs(l.next, l.first[p], l.last[p], PortList(ports, p, |ports|))
  }

  ghost predicate AllHang(ports: seq<nat>, numPorts: nat, l: Links) {
    && |l.first| == |l.last| == |l.newReqs| == numPorts
    && forall p: nat {:trigger PortHangs(ports, p, l)} :: p < numPorts ==> PortHangs(ports, p, l)
  }

  lemma OtherPort(ports: seq<nat>, p: nat, q: nat, next: seq<int>, first: int, last: int, i: nat, v: int)
    requires i < |ports| && i < |next| && ports[i] == p != q && Hangs(next, first, last, PortList(ports, q, |ports|))
    ensures Hangs(next[i := v], first, last, PortList(ports, q, |ports|))
  {
    var list, next' := PortList(ports, q, |ports|), next[i := v];
    forall k: nat | k < |list| ensures LinkAt(next', list, k) {
      assert LinkAt(next, list, k) && ports[list[k]] == q;
    }
  }

  /** Filling in work request `n` for `port`: the first starts the port's chain, a later one
      goes behind the last. */
  function Linked(l: Links, port: nat, n: nat): Links
    requires port < |l.first| == |l.last| == |l.newReqs| && (l.newReqs[port] != 0 ==> 0 <= l.last[port] < |l.next|)
  {
    Links(if l.newReqs[port] == 0 then l.next else l.next[l.last[port] := n],
          if l.newReqs[port] == 0 then l.first[port := n] else l.first,
          l.last[port := n],
          l.newReqs[port := l.newReqs[port] + 1])
  }

  lemma LastOfPort(ports: seq<nat>, port: nat, l: Links)
    requires PortHangs(ports, port, l) && l.newReqs[port] != 0 && |ports| <= |l.next|
    ensures 0 <= l.last[port] < |ports| && ports[l.last[port]] == port
  {
    var mine := PortList(ports, port, |ports|);
    assert l.last[port] == mine[|mine| - 1] && LinkAt(l.next, mine, |mine| - 1);
  }

  lemma LinkOwn(ports: seq<nat>, numPorts: nat, l: Links, port: nat)
    requires AllHang(ports, numPorts, l) && port < numPorts && |ports| < |l.next|
    requires l.newReqs[port] != 0 ==> 0 <= l.last[port] < |l.next|
    ensures PortHangs(ports + [port], port, Linked(l, port, |ports|))
  {
    assert PortHangs(ports, port, l);
    PortListNext(ports, port, port);
    Joins(l.next, l.first[port], l.last[port], PortList(ports, port, |ports|), |ports|);
  }

  lemma LinkOther(ports: seq<nat>, numPorts: nat, l: Links, port: nat, p: nat)
    requires AllHang(ports, numPorts, l) && port < numPorts && |ports| < |l.next| && p < numPorts && p != port
    requires l.newReqs[port] != 0 ==> 0 <= l.last[port] < |ports| && ports[l.last[port]] == port
    ensures PortHangs(ports + [port], p, Linked(l, port, |ports|))
  {
    assert PortHangs(ports, p, l);
    PortListNext(ports, p, port);
    if l.newReqs[port] != 0 {
      OtherPort(ports, port, p, l.next, l.first[p], l.last[p], l.last[port], |ports|);
    }
  }

  lemma LinkKeeps(ports: seq<nat>, numPorts: nat, l: Links, port: nat)
    requires AllHang(ports, numPorts, l) && port < numPorts && |ports| < |l.next|
    ensures l.newReqs[port] != 0 ==> 0 <= l.last[port] < |l.next|
    ensures AllHang(ports + [port], numPorts, Linked(l, port, |ports|))
  {
    assert PortHangs(ports, port, l);
    if l.newReqs[port] != 0 { LastOfPort(ports, port, l); }
    LinkOwn(ports, numPorts, l, port);
    var ports', l' := ports + [port], Linked(l, port, |ports|);
    forall p: nat | p < numPorts ensures PortHangs(ports', p, l') {
      if p != port { LinkOther(ports, numPorts, l, port, p); }
    }
  }

  /** Ending one port's chain. */
  lemma EndsChain(next: seq<int>, first: int, last: int, list: seq<nat>)
    requires Hangs(next, first, last, list) && list != []
    requires forall k: nat, m: nat {:trigger list[k], list[m]} :: k < m < |list| ==> list[k] < list[m]
    ensures 0 <= last < |next| && Chain(next[last := -1], first, list) && Hangs(next[last := -1], first, last, list)
  {
    assert LinkAt(next, list, |list| - 1);
    var next' := next[last := -1];
    forall k: nat | k < |list| ensures ChainAt(next', list, k) && LinkAt(next', list, k) {
      assert LinkAt(next, list, k);
      if k + 1 < |list| { assert list[k] < list[|list| - 1]; }
    }
  }

  lemma OtherChain(ports: seq<nat>, p: nat, q: nat, next: seq<int>, first: int, i: nat, v: int)
    requires i < |ports| && i < |next| && ports[i] == p != q && Chain(next, first, PortList(ports, q, |ports|))
    ensures Chain(next[i := v], first, PortList(ports, q, |ports|))
  {
    var list, next' := PortList(ports, q, |ports|), next[i := v];
    forall k: nat | k < |list| ensures ChainAt(next', list, k) {
      assert ChainAt(next, list, k) && ports[list[k]] == q;
    }
  }

  /** The chains of the ports before `p` are as they are posted. */
  ghost predicate Ended(ports: seq<nat>, p: nat, next: seq<int>, first: seq<int>) {
    && p <= |first|
    && forall q: nat {:trigger PortChain(ports, q, next, first)} :: q < p ==> PortChain(ports, q, next, first)
  }

  ghost predicate PortChain(ports: seq<nat>, q: nat, next: seq<int>, first: seq<int>) {
    q < |first| && Chain(next, first[q], PortList(ports, q, |ports|))
  }

  lemma EndOwn(ports: seq<nat>, p: nat, l: Links)
    requires PortHangs(ports, p, l) && l.newReqs[p] != 0
    ensures 0 <= l.last[p] < |l.next|
    ensures PortHangs(ports, p, l.(next := l.next[l.last[p] := -1]))
    ensures PortChain(ports, p, l.next[l.last[p] := -1], l.first)
  {
    EndsChain(l.next, l.first[p], l.last[p], PortList(ports, p, |ports|));
  }

  lemma EndOne(ports: seq<nat>, numPorts: nat, p: nat, l: Links)
    requires AllHang(ports, numPorts, l) && p < numPorts && l.newReqs[p] != 0 && |ports| <= |l.next|
    requires Ended(ports, p, l.next, l.first)
    ensures 0 <= l.last[p] < |l.next| && AllHang(ports, numPorts, l.(next := l.next[l.last[p] := -1]))
    ensures Ended(ports, p + 1, l.next[l.last[p] := -1], l.first)
  {
    assert PortHangs(ports, p, l);
    LastOfPort(ports, p, l);
    EndOwn(ports, p, l);
    var end := l.last[p];
    var next' := l.next[end := -1];
    var l' := l.(next := next');
    forall q: nat | q < numPorts ensures PortHangs(ports, q, l') {
      assert PortHangs(ports, q, l);
      if q != p { OtherPort(ports, p, q, l.next, l.first[q], l.last[q], end, -1); }
    }
    forall q: nat | q <= p ensures PortChain(ports, q, next', l.first) {
      if q < p {
        assert PortChain(ports, q, l.next, l.first);
        OtherChain(ports, p, q, l.next, l.first[q], end, -1);
      }
    }
  }

  /** Ending every chain, as the responses are posted port by port. */
  method EndChains(ghost ports: seq<nat>, numPorts: nat, links: Links) returns (l: Links)
    requires AllHang(ports, numPorts, links) && |ports| <= |links.next|
    ensures l.first == links.first && Ended(ports, numPorts, l.next, l.first)
  {
    l := links;
    for p := 0 to numPorts
      invariant l.first == links.first && |l.next| == |links.next|
      invariant AllHang(ports, numPorts, l) && Ended(ports, p, l.next, l.first)
    {
      assert PortHangs(ports, p, l);
      if l.newReqs[p] != 0 {
        EndOne(ports, numPorts, p, l);
        l := l.(next := l.next[l.last[p] := -1]);
      } else {
        assert PortChain(ports, p, l.next, l.first);
      }
    }
  }

  // ---------------------------------------------------------------------------
  // The loop
  // ---------------------------------------------------------------------------

  /** A full batch ends the pass. */
  lemma {:induction false} PassStays(mode: Mode, w: nat, st: PassState, postlist: nat, k: nat, n: nat)
    requires PassOk(w, st) && k <= n && |Pass(mode, w, st, postlist, k).picks| == postlist
    ensures Pass(mode, w, st, postlist, n) == Pass(mode, w, st, postlist, k)
  {
    if k < n { PassStays(mode, w, st, postlist, k, n - 1); }
  }

  /** The work requests filled in for the requests taken so far. */
  ghost predicate Filled(picks: seq<nat>, ports: seq<nat>, numPorts: nat, l: Links) {
    && 0 < numPorts && |ports| == |picks| && |l.next| == NUM_CLIENTS && AllHang(ports, numPorts, l)
    && forall i: nat {:trigger ports[i]} :: i < |ports| ==> ports[i] == picks[i] % numPorts
  }

  class Worker {
    const mode: Mode
    const w: nat
    const numPorts: nat
    const region: array<Cell>
    const ws: array<nat>
    var clt: nat
    var port: nat

    ghost function State(picks: seq<nat>): PassState
      reads this, region, ws
    {
      PassState(region[..], ws[..], clt, picks)
    }

    /** Both counters start before zero, which for a cyclic counter is its last value. */
    ghost predicate Valid()
      reads this, region, ws
    {
      && 0 < numPorts && NUM_CLIENTS % numPorts == 0 && port == clt % numPorts
      && PassOk(w, State([]))
    }

    constructor (mode: Mode, w: nat, numPorts: nat, region: array<Cell>)
      requires 0 < numPorts && NUM_CLIENTS % numPorts == 0 && Offset(w + 1, 0, 0) <= region.Length
      ensures Valid() && fresh(ws)
      ensures this.mode == mode && this.w == w && this.numPorts == numPorts && this.region == region
    {
      this.mode, this.w, this.numPorts, this.region := mode, w, numPorts, region;
      ws := new nat[NUM_CLIENTS](_ => 0);
      clt, port := NUM_CLIENTS - 1, (NUM_CLIENTS - 1) % numPorts;
    }

    /** One turn of the polling loop. */
    method Turn(ghost picks: seq<nat>) returns (taken: bool)
      requires Valid()
      modifies this, region, ws
      ensures Valid() && State(if taken then picks + [clt] else picks) == PollOne(mode, w, old(State(picks)))
      ensures taken ==> var at := Offset(w, clt, old(ws[..])[clt]);
                        at < region.Length && Taken(mode, old(region[..])[at], region[at])
    {
      PortTracks(clt, numPorts);
      clt, port := Bumped(clt, NUM_CLIENTS), Bumped(port, numPorts);
      var at := Offset(w, clt, ws[clt]);
      ghost var region0, ws0 := region[..], ws[..];
      assert ws0[clt] < WINDOW;
      var op := region[at].op;
      if !IsNew(mode, op) || Mark(mode, op) < 0 { return false; }
      region[at] := region[at].(op := Mark(mode, op));
      ws[clt] := Bumped(ws[clt], WINDOW);
      assert region[..] == region0[at := region0[at].(op := Mark(mode, op))];
      assert ws[..] == ws0[clt := Bumped(ws0[clt], WINDOW)];
      return true;
    }

    /** A turn, and the work request for the request it takes. */
    method TurnAndFill(picks: seq<nat>, ports: seq<nat>, l: Links)
      returns (picks': seq<nat>, ports': seq<nat>, l': Links)
      requires Valid() && Filled(picks, ports, numPorts, l) && |picks| < NUM_CLIENTS
      modifies this, region, ws
      ensures Valid() && State(picks') == PollOne(mode, w, old(State(picks)))
      ensures Filled(picks', ports', numPorts, l') && |picks'| <= |picks| + 1
    {
      var taken := Turn(picks);
      if !taken { return picks, ports, l; }
      LinkKeeps(ports, numPorts, l, port);
      return picks + [clt], ports + [port], Linked(l, port, |ports|);
    }

    /** A pass: what it takes is the pass of the protocol, and the responses it posts on each
        port are chained exactly in the order taken. */
    method RunPass(postlist: nat) returns (picks: seq<nat>, ports: seq<nat>, l: Links)
      requires Valid() && 0 < postlist <= NUM_CLIENTS
      modifies this, region, ws
      ensures Valid() && State(picks) == Pass(mode, w, old(State([])), postlist, NUM_CLIENTS)
      ensures PassOk(w, old(State([]))) && PassOk(w, State(picks)) && Took(mode, w, old(State([])), State(picks))
      ensures |ports| == |picks| <= postlist
      ensures forall i: nat {:trigger ports[i]} :: i < |ports| ==> ports[i] == picks[i] % numPorts
      ensures Ended(ports, numPorts, l.next, l.first)
    {
      ghost var st := State([]);
      picks, ports := [], [];
      l := Links(seq(NUM_CLIENTS, _ => 0), seq(numPorts, _ => -1), seq(numPorts, _ => -1), seq(numPorts, _ => 0));
      assert forall p: nat :: p < numPorts ==> PortHangs(ports, p, l);
      var pollI := 0;
      while pollI < NUM_CLIENTS && |picks| < postlist
        invariant pollI <= NUM_CLIENTS && |picks| <= postlist && Valid()
        invariant State(picks) == Pass(mode, w, st, postlist, pollI)
        invariant Filled(picks, ports, numPorts, l)
      {
        picks, ports, l := TurnAndFill(picks, ports, l);
        pollI := pollI + 1;
      }
      if |picks| == postlist { PassStays(mode, w, st, postlist, pollI, NUM_CLIENTS); }
      PassTook(mode, w, st, postlist, NUM_CLIENTS);
      l := EndChains(ports, numPorts, l);
    }
  }
}
