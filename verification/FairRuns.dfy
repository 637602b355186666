/**
  Convergence under arbitrary interleaving: stabilize rounds of different members overlap,
  messages are late, and still a fair run without joins ends in the ideal ring and stays there.
 */
module FairRuns {
  import opened Options
  import opened Ring
  import opened Pointers
  import opened Protocol
  import opened IdealRing
  import opened Convergence

  /** The state after the first i steps of a run. */
  function StateAt(net: Net, steps: seq<Step>, i: nat): Net
    requires ValidRun(net, steps) && i <= |steps|
    decreases i
  {
    if i == 0 then net else StateAt(Apply(net, steps[0]), steps[1..], i - 1)
  }

  predicate NoJoins(steps: seq<Step>) {
    forall i :: 0 <= i < |steps| ==> !steps[i].Join?
  }

  // ---- An ideal ring is left only by joins ----

  /** No member lies between neighbours, so no report makes a member of an ideal ring move its successor... */
  lemma IdealDigest(net: Net, n: Id, reply: Option<Id>)
    requires Inv(net) && Ideal(net.nodes) && Enabled(net, Digest(n, reply))
    ensures Stabilized(n, net.nodes[n], reply).0 == net.nodes[n]
  {
    var s := Succ(net.nodes[n]).value;
    assert GoodReply(net.nodes, (s, reply).0, (s, reply).1);
    assert IdealNode(net.nodes.Keys, n, net.nodes[n]);
    assert reply.Some? ==> Dist(n, s) <= Dist(n, reply.value);
  }

  /** ...and no notification moves its predecessor. */
  lemma IdealDelivery(net: Net, x: Id, n: Id)
    requires Inv(net) && Ideal(net.nodes) && Enabled(net, Deliver(x, n))
    ensures Notified(n, net.nodes[n], x) == net.nodes[n]
  {
    assert GoodNotice(net.base, net.nodes, (x, n).0, (x, n).1);
    assert IdealNode(net.nodes.Keys, n, net.nodes[n]);
    var p := net.nodes[n].pred.value;
    assert Dist(p, n) <= Dist(p, x);
  }

  lemma IdealIsStable(net: Net, step: Step, n: Id)
    requires Inv(net) && Ideal(net.nodes) && Enabled(net, step) && !step.Join? && n in net.nodes
    ensures Apply(net, step).nodes.Keys == net.nodes.Keys
    ensures SamePointers(net.nodes[n], Apply(net, step).nodes[n])
  {
    match step
    case Digest(x, reply) => IdealDigest(net, x, reply);
    case Deliver(from, to) => IdealDelivery(net, from, to);
    case FixFinger(x, k, outcome) =>
      assert GoodNode(net.base, net.nodes.Keys, x, net.nodes[x]);
      FixedFingerKeepsNode(net, x, k, outcome);
    case _ =>
  }

  lemma IdealStep(net: Net, step: Step)
    requires Inv(net) && Ideal(net.nodes) && Enabled(net, step) && !step.Join?
    ensures Ideal(Apply(net, step).nodes)
  {
    var after := Apply(net, step).nodes;
    IdealIsStable(net, step, net.base);
    forall n {:trigger IdealNode(after.Keys, n, after[n])} | n in after
      ensures IdealNode(after.Keys, n, after[n])
    {
      IdealIsStable(net, step, n);
      assert IdealNode(net.nodes.Keys, n, net.nodes[n]);
    }
  }

  lemma {:induction false} IdealUntilJoin(net: Net, steps: seq<Step>)
    requires Inv(net) && Ideal(net.nodes) && ValidRun(net, steps) && NoJoins(steps)
    ensures Ideal(Exec(net, steps).nodes)
    decreases |steps|
  {
    if |steps| > 0 {
      StepKeepsInv(net, steps[0]);
      IdealStep(net, steps[0]);
      IdealUntilJoin(Apply(net, steps[0]), steps[1..]);
    }
  }

  // ---- Stretches of a run in which every member gets to stabilize ----

  /**
    Within the run, n completes a stabilize round: at step a its successor reports its
    predecessor, at step b n digests that report, and the notice it then sends, if any,
    arrives at step c. Anything may happen in between.
   */
  predicate RoundAt(net: Net, steps: seq<Step>, n: Id, a: nat, b: nat, c: nat)
    requires ValidRun(net, steps)
  {
    && a < b < |steps|
    && n in StateAt(net, steps, a).nodes && n in StateAt(net, steps, b).nodes
    && steps[a].Report? && Succ(StateAt(net, steps, a).nodes[n]) == Some(steps[a].s)
    && steps[a].s in StateAt(net, steps, a).nodes
    && steps[b] == Digest(n, StateAt(net, steps, a).nodes[steps[a].s].pred)
    && var target := Stabilized(n, StateAt(net, steps, b).nodes[n], steps[b].reply).1;
       target.Some? ==> b < c < |steps| && steps[c] == Deliver(n, target.value)
  }

  /** A stretch without joins in which every member completes a round. */
  ghost predicate Fair(net: Net, steps: seq<Step>) {
    && ValidRun(net, steps) && NoJoins(steps)
    && forall n :: n in net.nodes ==> exists a, b, c :: RoundAt(net, steps, n, a, b, c)
  }

  lemma IdleStep(net: Net, step: Step, n: Id)
    requires Inv(net) && Enabled(net, step) && !step.Join? && !Changes(net, step) && n in net.nodes
    ensures Inv(Apply(net, step)) && Apply(net, step).nodes.Keys == net.nodes.Keys
    ensures SamePointers(net.nodes[n], Apply(net, step).nodes[n])
  {
    StepKeepsInv(net, step);
    StepTightens(net, step, n);
    assert !ChangesAt(net, step, n);
  }

  /** A stretch without joins in which no pointer changes. */
  ghost predicate Idle(net: Net, steps: seq<Step>) {
    Inv(net) && ValidRun(net, steps) && NoJoins(steps) && CountChanges(net, steps) == 0
  }

  lemma IdleRest(net: Net, steps: seq<Step>)
    requires Idle(net, steps) && |steps| > 0
    ensures Enabled(net, steps[0]) && !Changes(net, steps[0]) && !steps[0].Join?
    ensures Idle(Apply(net, steps[0]), steps[1..])
  {
    StepKeepsInv(net, steps[0]);
  }

  /** All along it members look as they did at the start. */
  lemma {:induction false} NothingChanges(net: Net, steps: seq<Step>, i: nat, n: Id)
    requires Idle(net, steps) && i <= |steps| && n in net.nodes
    ensures n in StateAt(net, steps, i).nodes
    ensures SamePointers(net.nodes[n], StateAt(net, steps, i).nodes[n])
    decreases i
  {
    if i > 0 {
      IdleRest(net, steps);
      var next, rest := Apply(net, steps[0]), steps[1..];
      IdleStep(net, steps[0], n);
      NothingChanges(next, rest, i - 1, n);
    }
  }

  /** And every step of it changes nothing. */
  lemma {:induction false} IdleAllAlong(net: Net, steps: seq<Step>, i: nat)
    requires Idle(net, steps) && i < |steps|
    ensures Enabled(StateAt(net, steps, i), steps[i])
    ensures !Changes(StateAt(net, steps, i), steps[i])
    decreases i
  {
    IdleRest(net, steps);
    if i > 0 {
      var next, rest := Apply(net, steps[0]), steps[1..];
      IdleAllAlong(next, rest, i - 1);
      assert rest[i - 1] == steps[i];
    }
  }

  /** The successor and its predecessor as an idle round sees them are those of the start. */
  lemma IdleRoundReads(net: Net, steps: seq<Step>, n: Id, a: nat, b: nat, c: nat)
    requires Idle(net, steps)
    requires n in net.nodes && RoundAt(net, steps, n, a, b, c)
    ensures Succ(net.nodes[n]).Some? && Succ(net.nodes[n]).value in net.nodes
    ensures steps[b] == Digest(n, net.nodes[Succ(net.nodes[n]).value].pred)
  {
    NothingChanges(net, steps, a, n);
    SuccessorIsMember(net, n);
    NothingChanges(net, steps, a, Succ(net.nodes[n]).value);
  }

  /** A round that changes nothing shows that the successor already points back. */
  lemma IdleRoundPointsBack(net: Net, steps: seq<Step>, n: Id, a: nat, b: nat, c: nat)
    requires Idle(net, steps)
    requires n in net.nodes && RoundAt(net, steps, n, a, b, c)
    ensures PointsBack(net.nodes, n)
  {
    IdleRoundReads(net, steps, n, a, b, c);
    var s := Succ(net.nodes[n]).value;
    var reply := net.nodes[s].pred;
    if reply != Some(n) {
      NothingChanges(net, steps, b, n);
      IdleAllAlong(net, steps, b);
      IdleDigest(StateAt(net, steps, b), n, s, reply);
      IdleArrival(net, steps, n, s, c);
      EitherSide(n, reply.value, s);
    }
  }

  lemma IdleArrival(net: Net, steps: seq<Step>, n: Id, s: Id, c: nat)
    requires Idle(net, steps)
    requires s in net.nodes && c < |steps| && steps[c] == Deliver(n, s)
    ensures net.nodes[s].pred.Some? && !Inside(net.nodes[s].pred.value, n, s)
  {
    NothingChanges(net, steps, c, s);
    IdleAllAlong(net, steps, c);
    IdleDelivery(StateAt(net, steps, c), n, s);
  }

  lemma EitherSide(n: Id, p: Id, s: Id)
    requires n != p
    ensures Inside(n, p, s) || Inside(p, n, s)
  {
  }

  lemma SuccessorIsMember(net: Net, n: Id)
    requires Inv(net) && n in net.nodes
    ensures Succ(net.nodes[n]).Some? && Succ(net.nodes[n]).value in net.nodes
  {
    assert GoodNode(net.base, net.nodes.Keys, n, net.nodes[n]);
  }

  lemma IdleDigest(net: Net, n: Id, s: Id, reply: Option<Id>)
    requires Enabled(net, Digest(n, reply)) && !Changes(net, Digest(n, reply))
    requires Succ(net.nodes[n]) == Some(s) && reply != Some(n)
    ensures Stabilized(n, net.nodes[n], reply).1 == Some(s)
    ensures reply.Some? ==> !Inside(n, reply.value, s)
  {
    assert !ChangesAt(net, Digest(n, reply), n);
  }

  lemma IdleDelivery(net: Net, x: Id, s: Id)
    requires Enabled(net, Deliver(x, s)) && !Changes(net, Deliver(x, s))
    ensures net.nodes[s].pred.Some? && !Inside(net.nodes[s].pred.value, x, s)
  {
    assert !ChangesAt(net, Deliver(x, s), s);
  }

  /** A fair stretch in which no pointer changes starts from the ideal ring. */
  lemma IdleFairStretchIsIdeal(net: Net, steps: seq<Step>)
    requires Inv(net) && Fair(net, steps) && CountChanges(net, steps) == 0
    ensures Ideal(net.nodes)
  {
    forall n {:trigger PointsBack(net.nodes, n)} | n in net.nodes
      ensures PointsBack(net.nodes, n)
    {
      var a, b, c :| RoundAt(net, steps, n, a, b, c);
      IdleRoundPointsBack(net, steps, n, a, b, c);
    }
    MutualIsIdeal(net.base, net.nodes);
  }

  // ---- Fair runs ----

  ghost predicate FairRun(net: Net, stretches: seq<seq<Step>>)
    decreases |stretches|
  {
    |stretches| > 0 ==> Fair(net, stretches[0]) && FairRun(Exec(net, stretches[0]), stretches[1..])
  }

  ghost function ExecAll(net: Net, stretches: seq<seq<Step>>): Net
    requires FairRun(net, stretches)
    decreases |stretches|
  {
    if |stretches| == 0 then net else ExecAll(Exec(net, stretches[0]), stretches[1..])
  }

  lemma {:induction false} IdealForever(net: Net, stretches: seq<seq<Step>>)
    requires Inv(net) && Ideal(net.nodes) && FairRun(net, stretches)
    ensures Ideal(ExecAll(net, stretches).nodes)
    decreases |stretches|
  {
    if |stretches| > 0 {
      IdealUntilJoin(net, stretches[0]);
      RunKeepsInv(net, stretches[0]);
      IdealForever(Exec(net, stretches[0]), stretches[1..]);
    }
  }

  lemma {:induction false} EnoughStretches(net: Net, stretches: seq<seq<Step>>)
    requires Inv(net) && FairRun(net, stretches) && |stretches| > Disorder(net.nodes)
    ensures Ideal(ExecAll(net, stretches).nodes)
    decreases |stretches|
  {
    if CountChanges(net, stretches[0]) == 0 {
      IdleFairStretchIsIdeal(net, stretches[0]);
      IdealForever(net, stretches);
    } else {
      ChangesAreBounded(net, stretches[0]);
      RunKeepsInv(net, stretches[0]);
      EnoughStretches(Exec(net, stretches[0]), stretches[1..]);
    }
  }

  /**
    Once joins stop, every fair interleaving of stabilize rounds, notifications, finger
    repairs and lookups brings any reachable ring to the ideal one and keeps it there. Twice
    the square of the number of members bounds the fair stretches it takes.
   */
  lemma FairRunsConverge(base: Id, net: Net, stretches: seq<seq<Step>>)
    requires Reachable(base, net) && FairRun(net, stretches)
    requires |stretches| > |net.nodes.Keys| * (2 * |net.nodes.Keys|)
    ensures Ideal(ExecAll(net, stretches).nodes)
  {
    ReachableInv(base, net);
    DisorderIsQuadratic(net.nodes);
    EnoughStretches(net, stretches);
  }

  // ---- Fair runs exist ----

  lemma {:induction false} StateInFirst(net: Net, first: seq<Step>, second: seq<Step>, i: nat)
    requires ValidRun(net, first) && ValidRun(net, first + second) && i <= |first|
    ensures StateAt(net, first + second, i) == StateAt(net, first, i)
    decreases i
  {
    if i > 0 {
      assert (first + second)[1..] == first[1..] + second;
      StateInFirst(Apply(net, first[0]), first[1..], second, i - 1);
    }
  }

  lemma {:induction false} StateInSecond(net: Net, first: seq<Step>, second: seq<Step>, j: nat)
    requires ValidRun(net, first) && ValidRun(net, first + second) && ValidRun(Exec(net, first), second)
    requires j <= |second|
    ensures StateAt(net, first + second, |first| + j) == StateAt(Exec(net, first), second, j)
    decreases |first|
  {
    if |first| == 0 {
      assert first + second == second;
    } else {
      assert (first + second)[1..] == first[1..] + second;
      StateInSecond(Apply(net, first[0]), first[1..], second, j);
    }
  }

  /** A completed round stays completed when the run goes on. */
  lemma RoundGoesOn(net: Net, first: seq<Step>, second: seq<Step>, n: Id, a: nat, b: nat, c: nat)
    requires ValidRun(net, first) && ValidRun(net, first + second) && RoundAt(net, first, n, a, b, c)
    ensures RoundAt(net, first + second, n, a, b, c)
  {
    StateInFirst(net, first, second, a);
    StateInFirst(net, first, second, b);
  }

  /** An undisturbed stabilize at the end of a run completes a round. */
  lemma RoundAtTheEnd(net: Net, first: seq<Step>, n: Id) returns (steps: seq<Step>)
    requires Inv(net) && ValidRun(net, first) && n in Exec(net, first).nodes
    ensures first <= steps && ValidRun(net, steps) && NoJoins(steps[|first|..])
    ensures RoundAt(net, steps, n, |first|, |first| + 1, |first| + 2)
  {
    RunKeepsInv(net, first);
    var mid := Exec(net, first);
    StabilizeIsARun(mid, n);
    var second := StabilizeSteps(mid.nodes, n);
    steps := first + second;
    RunConcat(net, first, second);
    StateInSecond(net, first, second, 0);
    StateInSecond(net, first, second, 1);
    assert StateAt(mid, second, 1) == Apply(mid, second[0]);
    assert steps[|first|..] == second;
  }

  lemma {:induction false} FairFor(net: Net, members: set<Id>) returns (steps: seq<Step>)
    requires Inv(net) && members <= net.nodes.Keys
    ensures ValidRun(net, steps) && NoJoins(steps)
    ensures forall n :: n in members ==> exists a, b, c :: RoundAt(net, steps, n, a, b, c)
    decreases members
  {
    if members == {} {
      steps := [];
    } else {
      var x := Pick(members);
      var first := FairFor(net, members - {x});
      RunKeepsInv(net, first);
      steps := RoundAtTheEnd(net, first, x);
      var second := steps[|first|..];
      assert steps == first + second;
      forall n | n in members
        ensures exists a, b, c :: RoundAt(net, steps, n, a, b, c)
      {
        if n != x {
          assert n in members - {x};
          var a, b, c :| RoundAt(net, first, n, a, b, c);
          RoundGoesOn(net, first, second, n, a, b, c);
        }
      }
    }
  }

  lemma {:induction false} FairRunExists(net: Net, k: nat) returns (stretches: seq<seq<Step>>)
    requires Inv(net)
    ensures FairRun(net, stretches) && |stretches| == k
    decreases k
  {
    if k == 0 {
      stretches := [];
    } else {
      var steps := FairFor(net, net.nodes.Keys);
      RunKeepsInv(net, steps);
      var rest := FairRunExists(Exec(net, steps), k - 1);
      stretches := [steps] + rest;
      assert stretches[1..] == rest;
    }
  }

  /** So whatever happened, a ring can always be brought to its ideal form without further joins. */
  lemma EveryRingCanConverge(base: Id, net: Net) returns (stretches: seq<seq<Step>>)
    requires Reachable(base, net)
    ensures FairRun(net, stretches) && Ideal(ExecAll(net, stretches).nodes)
  {
    ReachableInv(base, net);
    stretches := FairRunExists(net, Disorder(net.nodes) + 1);
    EnoughStretches(net, stretches);
  }
}
