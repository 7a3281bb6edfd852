/** Selective signaling on a send queue: how deep the queue has to be for a sender that follows the rule
    (README.md:93-121, drivers/libmlx5-1.0.2mlnx1/src/qp.c:268-291). */
module SignaledQueue {

  import opened IndexMath
  import opened SqSizing
  import S = Signaling
  import Q = SendQueue

  /** The sender's view of its queue pair and the driver's. */
  datatype Joint = Joint(q: S.Qp, g: Q.Hist)

  datatype Step = BuildOne | PostList(wrs: seq<Q.Wr>)

  const START := Joint(S.FRESH, Q.Hist([], 0, 0))

  /** Before it builds a request the sender may wait, and then polls the completion of request
      `q.next`, which retires that one and those before it. A list is posted whole. */
  ghost predicate Next(form: S.Form, unsig: nat, postlist: nat, j: Joint, step: Step, j': Joint)
    requires unsig > 0
  {
    match step
    case BuildOne =>
      && S.Next(form, unsig, postlist, j.q, S.DoBuild, j'.q)
      && j'.g == if S.Waits(form, unsig, j.q.built) then j.g.(retired := j.q.next + 1) else j.g
    case PostList(wrs) =>
      && |wrs| == j.q.built - j.q.posted && j'.q == S.Post(j.q)
      && j'.g == Q.Told(Q.HistMany(j.g, wrs, |wrs|))
  }

  ghost predicate Run(form: S.Form, unsig: nat, postlist: nat, js: seq<Joint>, steps: seq<Step>)
    requires unsig > 0
  {
    && |js| == |steps| + 1 && js[0] == START
    && forall i: nat {:trigger steps[i]} :: i < |steps| ==> Next(form, unsig, postlist, js[i], steps[i], js[i + 1])
  }

  /** Requests known complete: those up to the last completion polled. */
  ghost function Acked(unsig: nat, q: S.Qp): nat {
    if q.next >= unsig then q.next - unsig + 1 else 0
  }

  /** The driver has seen what the sender posted, and retired what it knows complete. */
  ghost predicate InStep(unsig: nat, j: Joint) {
    |j.g.log| == j.g.told == j.q.posted && j.g.retired == Acked(unsig, j.q)
  }

  lemma NextIsMultiple(form: S.Form, unsig: nat, postlist: nat, q: S.Qp)
    requires S.Inv(form, unsig, postlist, q)
    ensures q.next == 0 || q.next >= unsig
  {
    if 0 < q.next < unsig { SlotsDiffer(0, q.next, unsig); }
  }

  lemma BuildKeeps(form: S.Form, unsig: nat, postlist: nat, j: Joint, j': Joint)
    requires InStep(unsig, j) && S.Inv(form, unsig, postlist, j.q) && Next(form, unsig, postlist, j, BuildOne, j')
    ensures InStep(unsig, j') && S.Inv(form, unsig, postlist, j'.q)
    ensures j.g.retired <= j'.g.retired && (j'.g != j.g ==> j'.g.retired <= j'.g.told)
  {
    S.BuildKeepsInv(form, unsig, postlist, j.q);
    NextIsMultiple(form, unsig, postlist, j.q);
  }

  lemma PostKeeps(form: S.Form, unsig: nat, postlist: nat, j: Joint, wrs: seq<Q.Wr>, j': Joint)
    requires InStep(unsig, j) && S.Inv(form, unsig, postlist, j.q)
    requires Next(form, unsig, postlist, j, PostList(wrs), j')
    ensures InStep(unsig, j') && S.Inv(form, unsig, postlist, j'.q)
  {
    Q.HistManyLog(j.g, wrs, |wrs|);
  }

  lemma {:induction false} RunKeeps(form: S.Form, unsig: nat, postlist: nat, js: seq<Joint>, steps: seq<Step>, i: nat)
    requires unsig > 0 && Run(form, unsig, postlist, js, steps) && i < |js|
    ensures InStep(unsig, js[i]) && S.Inv(form, unsig, postlist, js[i].q)
  {
    if i > 0 {
      RunKeeps(form, unsig, postlist, js, steps, i - 1);
      assert Next(form, unsig, postlist, js[i - 1], steps[i - 1], js[i]);
      match steps[i - 1]
      case BuildOne => BuildKeeps(form, unsig, postlist, js[i - 1], js[i]);
      case PostList(wrs) => PostKeeps(form, unsig, postlist, js[i - 1], wrs, js[i]);
    }
  }

  /** With room for the most requests that are un-acked at a time, in every run and whatever is posted,
      no request of a list is turned away for lack of room. */
  lemma NoneTurnedAway(form: S.Form, unsig: nat, postlist: nat, js: seq<Joint>, steps: seq<Step>, i: nat, n: nat,
                       s: Q.Sq)
    requires unsig > 0 && Run(form, unsig, postlist, js, steps) && i < |steps| && steps[i].PostList?
    requires n < |steps[i].wrs| && Q.Inv(s, Q.HistMany(js[i].g, steps[i].wrs, n))
    requires S.Bound(form, unsig) <= s.cfg.maxPost
    ensures Q.CanPost(s, steps[i].wrs[n]) <==> steps[i].wrs[n].numSge <= s.cfg.maxGs
  {
    var j, wrs := js[i], steps[i].wrs;
    assert Next(form, unsig, postlist, j, steps[i], js[i + 1]);
    RunKeeps(form, unsig, postlist, js, steps, i);
    NextIsMultiple(form, unsig, postlist, j.q);
    Q.HistManyLog(j.g, wrs, n);
    Q.TurnedAway(s, Q.HistMany(j.g, wrs, n), wrs[n]);
  }

  /** The two steps that build and post one request on its own. */
  lemma OnePosted(form: S.Form, unsig: nat, postlist: nat, j: Joint, n: nat, wr: Q.Wr) returns (b: Joint, j': Joint)
    requires S.ListsShortEnough(form, unsig, postlist) && 0 < postlist && n < S.Bound(form, unsig) + 1
    requires j.q == S.Single(form, unsig, n) && S.Inv(form, unsig, postlist, j.q) && InStep(unsig, j)
    ensures Next(form, unsig, postlist, j, BuildOne, b) && Next(form, unsig, postlist, b, PostList([wr]), j')
    ensures j'.q == S.Single(form, unsig, n + 1) && InStep(unsig, b) && b.g.log == j.g.log && b.q.built == n + 1
    ensures b.q == S.Build(form, unsig, j.q)
  {
    S.SingleSteps(form, unsig, postlist, n);
    var q := S.Build(form, unsig, j.q);
    b := Joint(q, if S.Waits(form, unsig, n) then j.g.(retired := j.q.next + 1) else j.g);
    j' := Joint(S.Single(form, unsig, n + 1), Q.Told(Q.HistMany(b.g, [wr], 1)));
    BuildKeeps(form, unsig, postlist, j, b);
  }

  /** With room for fewer there is a run in which a request is turned away. */
  lemma RoomIsNeeded(form: S.Form, unsig: nat, postlist: nat, maxPost: nat, wr: Q.Wr)
    returns (js: seq<Joint>, steps: seq<Step>)
    requires S.ListsShortEnough(form, unsig, postlist) && 0 < postlist && maxPost < S.Bound(form, unsig)
    ensures Run(form, unsig, postlist, js, steps) && steps != [] && steps[|steps| - 1] == PostList([wr])
    ensures var g := js[|steps| - 1].g; |g.log| == g.retired + maxPost
    ensures forall s: Q.Sq :: Q.Inv(s, js[|steps| - 1].g) && s.cfg.maxPost == maxPost ==> !Q.CanPost(s, wr)
  {
    var last := if maxPost + (if form == S.AtLast then 1 else 0) < unsig then maxPost else maxPost + 1;
    js, steps := [START], [];
    var n := 0;
    var b := START;
    while n <= last
      invariant n <= last + 1 && Run(form, unsig, postlist, js, steps) && js[|steps|].q == S.Single(form, unsig, n)
      invariant n > 0 ==> steps != [] && steps[|steps| - 1] == PostList([wr]) && js[|steps| - 1] == b
      invariant n > 0 ==> InStep(unsig, b) && |b.g.log| == n - 1
      invariant n > 0 ==> b.q == S.Build(form, unsig, S.Single(form, unsig, n - 1))
    {
      RunKeeps(form, unsig, postlist, js, steps, |steps|);
      var j;
      b, j := OnePosted(form, unsig, postlist, js[|steps|], n, wr);
      js, steps := js + [b, j], steps + [BuildOne, PostList([wr])];
      n := n + 1;
    }
    forall s: Q.Sq | Q.Inv(s, b.g) && s.cfg.maxPost == maxPost ensures !Q.CanPost(s, wr) {
      Q.TurnedAway(s, b.g, wr);
    }
  }
}
