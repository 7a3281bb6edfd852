/** Selective signaling: one request in `unsig` asks for a completion, requests are collected
    into lists before they are posted, and the sender waits for a completion at fixed points.
    (README.md, rw-tput-sender/main.cc, herd/worker.c, herd/client.c, ws-sequencer/worker.c) */
module Signaling {

  import opened IndexMath

  /** Where a sender waits: before building a request whose number is a positive multiple of
      `unsig`, or before the last one of each `unsig`. */
  datatype Form = AtMultiple | AtLast

  /** One queue pair: requests built, requests handed to post_send, and the number of the
      signaled request whose completion the next wait takes. Request `n` is signaled when it
      is a multiple of `unsig`, so these are 0, unsig, 2 * unsig, ... */
  datatype Qp = Qp(built: nat, posted: nat, next: nat)

  const FRESH := Qp(0, 0, 0)

  predicate Waits(form: Form, unsig: nat, n: nat)
    requires unsig > 0
  {
    match form
    case AtMultiple => n % unsig == 0 && n != 0
    case AtLast => n % unsig == unsig - 1
  }

  /** Waiting ends only if the request waited for has been handed to post_send: the sender
      itself does nothing else meanwhile. */
  predicate WillComplete(q: Qp) {
    q.next < q.posted
  }

  predicate Stuck(form: Form, unsig: nat, q: Qp)
    requires unsig > 0
  {
    Waits(form, unsig, q.built) && !WillComplete(q)
  }

  function Build(form: Form, unsig: nat, q: Qp): Qp
    requires unsig > 0
  {
    Qp(q.built + 1, q.posted, if Waits(form, unsig, q.built) then q.next + unsig else q.next)
  }

  function Post(q: Qp): Qp {
    q.(posted := q.built)
  }

  /** Requests that the queue pair may still hold: those after the last one known complete. */
  function UnAcked(unsig: nat, q: Qp): int {
    if q.next >= unsig then q.built - (q.next - unsig + 1) else q.built
  }

  // ---------------------------------------------------------------------------
  // Runs: lists of any length up to `postlist`
  // ---------------------------------------------------------------------------

  datatype Step = DoBuild | DoPost

  ghost predicate Next(form: Form, unsig: nat, postlist: nat, q: Qp, step: Step, q': Qp)
    requires unsig > 0
  {
    match step
    case DoBuild =>
      && q.built - q.posted < postlist && !Stuck(form, unsig, q)
      && q' == Build(form, unsig, q)
    case DoPost => q' == Post(q)
  }

  ghost predicate Run(form: Form, unsig: nat, postlist: nat, qs: seq<Qp>, steps: seq<Step>)
    requires unsig > 0
  {
    && |qs| == |steps| + 1 && qs[0] == FRESH
    && forall i :: 0 <= i < |steps| ==> Next(form, unsig, postlist, qs[i], steps[i], qs[i + 1])
  }

  /** Where the next wait stands relative to what has been built. */
  ghost predicate Inv(form: Form, unsig: nat, postlist: nat, q: Qp) {
    && unsig > 0 && q.posted <= q.built <= q.posted + postlist
    && q.next % unsig == 0
    && match form
       case AtMultiple => q.built <= q.next + unsig && (q.next < q.built || q.built == q.next == 0)
       case AtLast => q.next <= q.built < q.next + unsig
  }

  /** In the window the invariant leaves, the sender waits at exactly one number. */
  lemma WaitsExactly(form: Form, unsig: nat, postlist: nat, q: Qp)
    requires Inv(form, unsig, postlist, q)
    ensures Waits(form, unsig, q.built) <==>
            q.built + (if form == AtLast then 1 else 0) == q.next + unsig
  {
    ModLap(q.next, unsig);
    match form
    case AtMultiple =>
      if q.next < q.built < q.next + unsig { SlotsDiffer(q.next, q.built, unsig); }
    case AtLast =>
      var d := q.built - q.next;
      assert q.next == (q.next / unsig) * unsig;
      DivModUnique(q.built, unsig, q.next / unsig, d);
  }

  lemma BuildKeepsInv(form: Form, unsig: nat, postlist: nat, q: Qp)
    requires Inv(form, unsig, postlist, q) && q.built - q.posted < postlist
    ensures Inv(form, unsig, postlist, Build(form, unsig, q))
  {
    WaitsExactly(form, unsig, postlist, q);
    ModLap(q.next, unsig);
  }

  lemma {:induction false} RunKeepsInv(form: Form, unsig: nat, postlist: nat, qs: seq<Qp>, steps: seq<Step>, i: nat)
    requires unsig > 0 && Run(form, unsig, postlist, qs, steps) && i < |qs|
    ensures Inv(form, unsig, postlist, qs[i])
  {
    if i > 0 {
      RunKeepsInv(form, unsig, postlist, qs, steps, i - 1);
      assert Next(form, unsig, postlist, qs[i - 1], steps[i - 1], qs[i]);
      if steps[i - 1].DoBuild? { BuildKeepsInv(form, unsig, postlist, qs[i - 1]); }
    }
  }

  /** The postlist check a form needs. */
  predicate ListsShortEnough(form: Form, unsig: nat, postlist: nat) {
    match form
    case AtMultiple => postlist <= unsig
    case AtLast => postlist < unsig
  }

  /** With the check, no wait is ever for a request that has not been posted, in a run of
      any length. */
  lemma NeverStuck(form: Form, unsig: nat, postlist: nat, qs: seq<Qp>, steps: seq<Step>, i: nat)
    requires unsig > 0 && ListsShortEnough(form, unsig, postlist)
    requires Run(form, unsig, postlist, qs, steps) && i < |qs|
    requires qs[i].built - qs[i].posted < postlist
    ensures !Stuck(form, unsig, qs[i])
  {
    RunKeepsInv(form, unsig, postlist, qs, steps, i);
    WaitsExactly(form, unsig, postlist, qs[i]);
  }

  /** Without it there is a run that hangs: the first list alone reaches a wait before
      anything is posted. */
  lemma HangsOtherwise(form: Form, unsig: nat, postlist: nat) returns (qs: seq<Qp>, steps: seq<Step>)
    requires unsig > 0 && !ListsShortEnough(form, unsig, postlist)
    ensures Run(form, unsig, postlist, qs, steps)
    ensures qs[|steps|].built - qs[|steps|].posted < postlist && Stuck(form, unsig, qs[|steps|])
  {
    var n := if form == AtLast then unsig - 1 else unsig;
    qs, steps := [FRESH], [];
    while |steps| < n
      invariant |steps| <= n && Run(form, unsig, postlist, qs, steps)
      invariant qs[|steps|] == Qp(|steps|, 0, 0)
    {
      var q := qs[|steps|];
      RunKeepsInv(form, unsig, postlist, qs, steps, |steps|);
      WaitsExactly(form, unsig, postlist, q);
      var q' := Build(form, unsig, q);
      assert Next(form, unsig, postlist, q, DoBuild, q');
      qs, steps := qs + [q'], steps + [DoBuild];
    }
    RunKeepsInv(form, unsig, postlist, qs, steps, n);
    WaitsExactly(form, unsig, postlist, qs[n]);
  }

  /** The most requests that are un-acked at a time. */
  function Bound(form: Form, unsig: nat): int {
    2 * unsig - (if form == AtMultiple then 1 else 2)
  }

  /** At most 2 * unsig - 1 requests are ever un-acked, so a queue of 2 * unsig entries, of
      which all but one may be in use, is deep enough. */
  lemma BoundedUnAcked(form: Form, unsig: nat, postlist: nat, qs: seq<Qp>, steps: seq<Step>, i: nat)
    requires unsig > 0 && Run(form, unsig, postlist, qs, steps) && i < |qs|
    ensures 0 <= UnAcked(unsig, qs[i]) <= Bound(form, unsig) <= 2 * unsig - 1
  {
    RunKeepsInv(form, unsig, postlist, qs, steps, i);
    var q := qs[i];
    if 0 < q.next < unsig { SlotsDiffer(0, q.next, unsig); }
  }

  /** The queue pair after `n` requests, each posted on its own, up to the second wait. */
  ghost function Single(form: Form, unsig: nat, n: nat): Qp {
    Qp(n, n, if n + (if form == AtLast then 1 else 0) <= unsig then 0 else unsig)
  }

  lemma SingleSteps(form: Form, unsig: nat, postlist: nat, n: nat)
    requires ListsShortEnough(form, unsig, postlist) && 0 < postlist && n < Bound(form, unsig) + 1
    requires Inv(form, unsig, postlist, Single(form, unsig, n))
    ensures var q := Build(form, unsig, Single(form, unsig, n));
            && Next(form, unsig, postlist, Single(form, unsig, n), DoBuild, q)
            && Next(form, unsig, postlist, q, DoPost, Single(form, unsig, n + 1))
  {
    WaitsExactly(form, unsig, postlist, Single(form, unsig, n));
  }

  /** The bound is reached by a run, whatever the lists' length. */
  lemma BoundIsTight(form: Form, unsig: nat, postlist: nat) returns (qs: seq<Qp>, steps: seq<Step>)
    requires ListsShortEnough(form, unsig, postlist) && 0 < postlist
    ensures Run(form, unsig, postlist, qs, steps)
    ensures UnAcked(unsig, qs[|steps|]) == Bound(form, unsig)
  {
    qs, steps := [FRESH], [];
    var n := 0;
    while n < Bound(form, unsig) + 1
      invariant n <= Bound(form, unsig) + 1
      invariant Run(form, unsig, postlist, qs, steps) && qs[|steps|] == Single(form, unsig, n)
    {
      RunKeepsInv(form, unsig, postlist, qs, steps, |steps|);
      SingleSteps(form, unsig, postlist, n);
      n := n + 1;
      qs := qs + [Build(form, unsig, qs[|steps|]), Single(form, unsig, n)];
      steps := steps + [DoBuild, DoPost];
    }
  }

  // ---------------------------------------------------------------------------
  // The sender's loop
  // ---------------------------------------------------------------------------

  /** hrd_poll_cq with one completion: comes back only because that completion will come. */
  method PollCq(unsig: nat, q: Qp) returns (q': Qp)
    requires WillComplete(q)
    ensures q' == q.(next := q.next + unsig)
  {
    q' := q.(next := q.next + unsig);
  }

  /** The lists that fall to queue pair `k` of `n` in `rounds` rounds: one per full turn, and
      one more for the first ones of the last turn. */
  function Share(rounds: nat, n: nat, k: nat): nat
    requires n > 0
  {
    rounds / n + (if k < rounds % n then 1 else 0)
  }

  /** Where the turns stand after `r` rounds: `turns` full ones, and `at` lists of the next. */
  ghost predicate TurnsAt(r: nat, n: nat, turns: nat, at: nat) {
    at < n && r == turns * n + at
  }

  lemma NextRound(r: nat, n: nat, turns: nat, at: nat)
    requires TurnsAt(r, n, turns, at)
    ensures at + 1 < n ==> TurnsAt(r + 1, n, turns, at + 1)
    ensures at + 1 == n ==> TurnsAt(r + 1, n, turns + 1, 0)
  {
    assert (turns + 1) * n == turns * n + n;
  }

  lemma ShareIs(rounds: nat, n: nat, turns: nat, at: nat, k: nat)
    requires TurnsAt(rounds, n, turns, at)
    ensures Share(rounds, n, k) == turns + (if k < at then 1 else 0)
  {
    DivModUnique(rounds, n, turns, at);
  }

  /** One list on one queue pair: `postlist` requests, posted together. That every call of PollCq
      is allowed is the absence of deadlock. */
  method PostList(q0: Qp, unsig: nat, postlist: nat) returns (q: Qp)
    requires Inv(AtMultiple, unsig, postlist, q0) && q0.posted == q0.built && 1 <= postlist <= unsig
    ensures Inv(AtMultiple, unsig, postlist, q) && q.posted == q.built == q0.built + postlist
  {
    q := q0;
    for w := 0 to postlist
      invariant Inv(AtMultiple, unsig, postlist, q) && q.posted == q0.posted && q.built == q0.built + w
    {
      WaitsExactly(AtMultiple, unsig, postlist, q);
      BuildKeepsInv(AtMultiple, unsig, postlist, q);
      if q.built % unsig == 0 && q.built != 0 {
        q := PollCq(unsig, q);
      }
      q := q.(built := q.built + 1);
    }
    q := Post(q);
  }

  /** The posting loop of run_server in rw-tput-sender, for `rounds` lists over the queue
      pairs in turn: in the end each has posted its share of them. */
  method RunServer(qps: array<Qp>, unsig: nat, postlist: nat, rounds: nat)
    requires qps.Length > 0 && 1 <= postlist <= unsig
    requires forall k :: 0 <= k < qps.Length ==> qps[k] == FRESH
    modifies qps
    ensures forall k :: 0 <= k < qps.Length ==> Inv(AtMultiple, unsig, postlist, qps[k])
    ensures forall k :: 0 <= k < qps.Length ==>
              qps[k].posted == qps[k].built == postlist * Share(rounds, qps.Length, k)
  {
    var qpI := 0;
    ghost var turns := 0;
    for r := 0 to rounds
      invariant TurnsAt(r, qps.Length, turns, qpI)
      invariant forall k :: 0 <= k < qps.Length ==> Inv(AtMultiple, unsig, postlist, qps[k])
      invariant forall k :: 0 <= k < qps.Length ==>
                  qps[k].posted == qps[k].built == postlist * (turns + (if k < qpI then 1 else 0))
    {
      qps[qpI] := PostList(qps[qpI], unsig, postlist);
      NextRound(r, qps.Length, turns, qpI);
      qpI := qpI + 1;
      if qpI == qps.Length {
        qpI := 0;
        turns := turns + 1;
      }
    }
    forall k | 0 <= k < qps.Length
      ensures Share(rounds, qps.Length, k) == turns + (if k < qpI then 1 else 0)
    {
      ShareIs(rounds, qps.Length, turns, qpI, k);
    }
  }
}
