/**
  Why the ring converges once joins stop: a ring in which no stabilize changes anything is
  ideal, and every change of a successor or predecessor makes a total distance smaller.
 */
module Convergence {
  import opened Options
  import opened Ring
  import opened Pointers
  import opened Protocol
  import opened IdealRing

  // ---- One undisturbed stabilize ----

  /** n stabilizes without interruption: read the successor's predecessor, adopt it or not, notify. */
  function Stabilize(nodes: Nodes, n: Id): (after: Nodes)
    requires n in nodes
    ensures after.Keys == nodes.Keys
  {
    var s := Succ(nodes[n]);
    if s.None? || s.value !in nodes then nodes
    else
      var (node, target) := Stabilized(n, nodes[n], nodes[s.value].pred);
      var adopted := nodes[n := node];
      if target.None? || target.value !in adopted then adopted
      else adopted[target.value := Notified(target.value, adopted[target.value], n)]
  }

  function StabilizeSteps(nodes: Nodes, n: Id): seq<Step>
    requires n in nodes && Succ(nodes[n]).Some? && Succ(nodes[n]).value in nodes
  {
    var s := Succ(nodes[n]).value;
    var reply := nodes[s].pred;
    var target := Stabilized(n, nodes[n], reply).1;
    [Report(s), Digest(n, reply)] + (if target.Some? then [Deliver(n, target.value)] else [])
  }

  /** An undisturbed stabilize is a run of the protocol. */
  lemma StabilizeIsARun(net: Net, n: Id)
    requires Inv(net) && n in net.nodes
    ensures Succ(net.nodes[n]).Some? && Succ(net.nodes[n]).value in net.nodes
    ensures ValidRun(net, StabilizeSteps(net.nodes, n))
    ensures Exec(net, StabilizeSteps(net.nodes, n)).nodes == Stabilize(net.nodes, n)
  {
    assert GoodNode(net.base, net.nodes.Keys, n, net.nodes[n]);
    var s := Succ(net.nodes[n]).value;
    var reply := net.nodes[s].pred;
    var steps := StabilizeSteps(net.nodes, n);
    var net1 := Apply(net, Report(s));
    StepKeepsInv(net, Report(s));
    assert (s, reply) in net1.replies;
    var net2 := Apply(net1, Digest(n, reply));
    DigestKeepsNode(net1, n, reply);
    var target := Stabilized(n, net.nodes[n], reply).1;
    assert steps[1..][0] == Digest(n, reply);
    if target.Some? {
      assert steps[1..][1..] == [Deliver(n, target.value)];
      assert ValidRun(net2, steps[1..][1..]);
      assert Exec(net2, steps[1..][1..]) == Apply(net2, Deliver(n, target.value));
    } else {
      assert steps[1..][1..] == [];
    }
    assert ValidRun(net1, steps[1..]);
    assert Exec(net1, steps[1..]) == Exec(net2, steps[1..][1..]);
  }

  // ---- No change means ideal ----

  ghost predicate Quiet(nodes: Nodes) {
    forall n {:trigger Stabilize(nodes, n)} :: n in nodes ==> Stabilize(nodes, n) == nodes
  }

  /** A member whose successor does not point back changes something when it stabilizes. */
  lemma StabilizeRepairs(base: Id, nodes: Nodes, n: Id)
    requires GoodNodes(base, nodes) && n in nodes
    ensures !PointsBack(nodes, n) ==> Stabilize(nodes, n) != nodes
  {
    assert GoodNode(base, nodes.Keys, n, nodes[n]);
    var s := nodes[n].fingers[0].value;
    var reply := nodes[s].pred;
    if reply != Some(n) {
      if reply.Some? && Inside(n, reply.value, s) {
        assert Succ(Stabilize(nodes, n)[n]) == reply;
      } else {
        assert Stabilize(nodes, n)[s].pred == Some(n);
      }
    }
  }

  /** The successor of n names n as its predecessor. */
  predicate PointsBack(nodes: Nodes, n: Id)
    requires n in nodes
  {
    var s := Succ(nodes[n]);
    s.Some? && s.value in nodes && nodes[s.value].pred == Some(n)
  }

  ghost predicate Mutual(nodes: Nodes) {
    forall n {:trigger PointsBack(nodes, n)} :: n in nodes ==> PointsBack(nodes, n)
  }

  /**
    When all successors point back, no member m lies inside (n, succ(n)): each such pair
    yields another one farther along from base.
   */
  lemma {:induction false} NobodyIsSkipped(base: Id, nodes: Nodes, n: Id, m: Id)
    requires GoodNodes(base, nodes) && Mutual(nodes)
    requires n in nodes && m in nodes
    ensures PointsBack(nodes, n) && !Inside(n, m, Succ(nodes[n]).value)
    decreases RING - Gap(base, m)
  {
    assert PointsBack(nodes, n) && PointsBack(nodes, m);
    assert GoodNode(base, nodes.Keys, n, nodes[n]);
    assert GoodNode(base, nodes.Keys, m, nodes[m]);
    var s, t := Succ(nodes[n]).value, Succ(nodes[m]).value;
    if Inside(n, m, s) {
      assert s != t;
      if t != base && (s == base || Gap(base, t) < Gap(base, s)) {
        NobodyIsSkipped(base, nodes, n, t);
      } else {
        NobodyIsSkipped(base, nodes, m, s);
      }
    }
  }

  /** Good pointers that are mutual form the ideal ring: one ordered cycle, neither split nor looped twice. */
  lemma MutualIsIdeal(base: Id, nodes: Nodes)
    requires GoodNodes(base, nodes) && Mutual(nodes)
    ensures Ideal(nodes)
  {
    forall n {:trigger IdealNode(nodes.Keys, n, nodes[n])} | n in nodes
      ensures IdealNode(nodes.Keys, n, nodes[n])
    {
      MutualNodeIsIdeal(base, nodes, n);
    }
  }

  lemma MutualNodeIsIdeal(base: Id, nodes: Nodes, n: Id)
    requires GoodNodes(base, nodes) && Mutual(nodes) && n in nodes
    ensures IdealNode(nodes.Keys, n, nodes[n])
  {
    SuccessorIsNext(base, nodes, n);
    var p := ClosestBefore(nodes.Keys, n);
    ClosestBeforeIsNext(nodes.Keys, p, n);
    SuccessorIsNext(base, nodes, p);
    NextIsUnique(nodes.Keys, p, n, Succ(nodes[p]).value);
    assert PointsBack(nodes, p);
  }

  lemma SuccessorIsNext(base: Id, nodes: Nodes, n: Id)
    requires GoodNodes(base, nodes) && Mutual(nodes) && n in nodes
    ensures Succ(nodes[n]).Some? && IsNext(nodes.Keys, n, Succ(nodes[n]).value)
  {
    assert PointsBack(nodes, n);
    var s := Succ(nodes[n]).value;
    forall m | m in nodes
      ensures Dist(n, s) <= Dist(n, m)
    {
      NobodyIsSkipped(base, nodes, n, m);
      InRangeIsDistanceOrder(m, n, s);
    }
  }

  lemma QuietIsIdeal(base: Id, nodes: Nodes)
    requires GoodNodes(base, nodes) && Quiet(nodes)
    ensures Ideal(nodes)
  {
    forall n {:trigger PointsBack(nodes, n)} | n in nodes
      ensures PointsBack(nodes, n)
    {
      assert Stabilize(nodes, n) == nodes;
      StabilizeRepairs(base, nodes, n);
    }
    MutualIsIdeal(base, nodes);
  }

  /** And the other way round: nobody changes anything in an ideal ring. */
  lemma IdealIsQuiet(nodes: Nodes)
    requires Ideal(nodes)
    ensures Quiet(nodes)
  {
    forall n | n in nodes
      ensures Stabilize(nodes, n) == nodes
    {
      IdealIsMutual(nodes, n);
    }
  }

  /** In every state the protocol can reach, quiet and ideal are the same. */
  lemma QuietExactlyWhenIdeal(base: Id, net: Net)
    requires Reachable(base, net)
    ensures Quiet(net.nodes) <==> Ideal(net.nodes)
  {
    ReachableInv(base, net);
    if Quiet(net.nodes) { QuietIsIdeal(base, net.nodes); }
    if Ideal(net.nodes) { IdealIsQuiet(net.nodes); }
  }

  // ---- The measures ----

  /** How far the two pointers of a member reach; an unset one counts as more than a full turn. */
  function Weight(n: Id, node: Node): nat {
    (if Succ(node).Some? then Dist(n, Succ(node).value) else RING + 1)
    + (if node.pred.Some? then Dist(node.pred.value, n) else RING + 1)
  }

  function CloserAfter(members: set<Id>, n: Id, s: Id): set<Id> {
    set m | m in members && Dist(n, m) < Dist(n, s)
  }

  function CloserBefore(members: set<Id>, p: Id, n: Id): set<Id> {
    set m | m in members && Dist(m, n) < Dist(p, n)
  }

  /** How many members its two pointers jump over; an unset one jumps over everybody. */
  function Skipped(members: set<Id>, n: Id, node: Node): nat {
    (if Succ(node).Some? then |CloserAfter(members, n, Succ(node).value)| else |members|)
    + (if node.pred.Some? then |CloserBefore(members, node.pred.value, n)| else |members|)
  }

  function SkippedAmong(members: set<Id>): (Id, Node) -> nat {
    (n: Id, node: Node) => Skipped(members, n, node)
  }

  ghost function Pick(s: set<Id>): (x: Id)
    requires s != {}
    ensures x in s
  {
    var x :| x in s; x
  }

  ghost function Total(weight: (Id, Node) -> nat, nodes: Nodes, among: set<Id>): nat
    requires among <= nodes.Keys
  {
    if among == {} then 0
    else
      var x := Pick(among);
      weight(x, nodes[x]) + Total(weight, nodes, among - {x})
  }

  lemma {:induction false} TotalShrinks(weight: (Id, Node) -> nat, nodes: Nodes, after: Nodes, among: set<Id>, y: Id)
    requires among <= nodes.Keys && among <= after.Keys
    requires forall x {:trigger weight(x, after[x])} :: x in among ==> weight(x, after[x]) <= weight(x, nodes[x])
    ensures Total(weight, after, among) <= Total(weight, nodes, among)
    ensures y in among && weight(y, after[y]) < weight(y, nodes[y]) ==>
              Total(weight, after, among) < Total(weight, nodes, among)
    decreases among
  {
    if among != {} {
      TotalShrinks(weight, nodes, after, among - {Pick(among)}, y);
    }
  }

  /** The total length of all pointers. */
  ghost function Measure(nodes: Nodes): nat {
    Total(Weight, nodes, nodes.Keys)
  }

  /** How often members are jumped over by pointers. */
  ghost function Disorder(nodes: Nodes): nat {
    Total(SkippedAmong(nodes.Keys), nodes, nodes.Keys)
  }

  lemma {:induction false} TotalBound(weight: (Id, Node) -> nat, nodes: Nodes, among: set<Id>, cap: nat)
    requires among <= nodes.Keys
    requires forall x {:trigger weight(x, nodes[x])} :: x in among ==> weight(x, nodes[x]) <= cap
    ensures Total(weight, nodes, among) <= |among| * cap
    decreases among
  {
    if among != {} {
      var x := Pick(among);
      var rest := among - {x};
      TotalBound(weight, nodes, rest, cap);
      OneMoreTimes(|rest|, cap);
      assert |among| == |rest| + 1;
    }
  }

  lemma OneMoreTimes(k: nat, cap: nat)
    ensures (k + 1) * cap == k * cap + cap
  {
  }

  lemma SkippedBound(members: set<Id>, n: Id, node: Node)
    ensures Skipped(members, n, node) <= 2 * |members|
  {
    if Succ(node).Some? { SubsetIsSmaller(CloserAfter(members, n, Succ(node).value), members); }
    if node.pred.Some? { SubsetIsSmaller(CloserBefore(members, node.pred.value, n), members); }
  }

  /** Twice the square of the number of members bounds it. */
  lemma DisorderIsQuadratic(nodes: Nodes)
    ensures Disorder(nodes) <= |nodes.Keys| * (2 * |nodes.Keys|)
  {
    forall x {:trigger SkippedAmong(nodes.Keys)(x, nodes[x])} | x in nodes
      ensures SkippedAmong(nodes.Keys)(x, nodes[x]) <= 2 * |nodes.Keys|
    {
      SkippedBound(nodes.Keys, x, nodes[x]);
    }
    TotalBound(SkippedAmong(nodes.Keys), nodes, nodes.Keys, 2 * |nodes.Keys|);
  }

  /** Same successor and same predecessor. */
  predicate SamePointers(node: Node, after: Node) {
    Succ(node) == Succ(after) && node.pred == after.pred
  }

  /** Each of the two pointers is the same or names a member strictly closer than before. */
  predicate Tightened(members: set<Id>, n: Id, node: Node, after: Node) {
    && (Succ(after) == Succ(node)
        || (Succ(node).Some? && Succ(after).Some? && Succ(after).value in members
            && Dist(n, Succ(after).value) < Dist(n, Succ(node).value)))
    && (after.pred == node.pred
        || (after.pred.Some? && after.pred.value in members
            && (node.pred.Some? ==> Dist(after.pred.value, n) < Dist(node.pred.value, n))))
  }

  lemma TightenedIsLighter(members: set<Id>, n: Id, node: Node, after: Node)
    requires Tightened(members, n, node, after)
    ensures Weight(n, after) <= Weight(n, node) && Skipped(members, n, after) <= Skipped(members, n, node)
    ensures !SamePointers(node, after) ==>
              Weight(n, after) < Weight(n, node) && Skipped(members, n, after) < Skipped(members, n, node)
  {
    if Succ(after) != Succ(node) {
      var s := Succ(after).value;
      assert s in CloserAfter(members, n, Succ(node).value) && s !in CloserAfter(members, n, s);
      SubsetIsSmaller(CloserAfter(members, n, s), CloserAfter(members, n, Succ(node).value));
    }
    if after.pred != node.pred {
      var p := after.pred.value;
      var before := if node.pred.Some? then CloserBefore(members, node.pred.value, n) else members;
      assert p in before && p !in CloserBefore(members, p, n);
      SubsetIsSmaller(CloserBefore(members, p, n), before);
    }
  }

  /** A step that is not a join changes pointers only to members that are strictly closer. */
  lemma StepTightens(net: Net, step: Step, n: Id)
    requires Inv(net) && Enabled(net, step) && !step.Join? && n in net.nodes
    ensures Apply(net, step).nodes.Keys == net.nodes.Keys
    ensures Tightened(net.nodes.Keys, n, net.nodes[n], Apply(net, step).nodes[n])
  {
    match step
    case Digest(x, reply) =>
      DigestKeepsNode(net, x, reply);
      assert GoodNode(net.base, net.nodes.Keys, x, net.nodes[x]);
      assert GoodNode(net.base, net.nodes.Keys, x, Apply(net, step).nodes[x]);
    case Deliver(from, to) =>
      NotifiedKeepsNode(net, from, to);
    case FixFinger(x, k, s) =>
      assert GoodNode(net.base, net.nodes.Keys, x, net.nodes[x]);
      FixedFingerKeepsNode(net, x, k, s);
    case _ =>
  }

  /** The step gives n another successor or predecessor. */
  predicate ChangesAt(net: Net, step: Step, n: Id)
    requires Enabled(net, step)
  {
    n in net.nodes && n in Apply(net, step).nodes && !SamePointers(net.nodes[n], Apply(net, step).nodes[n])
  }

  ghost predicate Changes(net: Net, step: Step)
    requires Enabled(net, step)
  {
    exists n :: ChangesAt(net, step, n)
  }

  /** A weight that every tightened pointer lowers. */
  ghost predicate Lowers(weight: (Id, Node) -> nat, members: set<Id>) {
    forall n, node, after {:trigger weight(n, node), weight(n, after)} :: Tightened(members, n, node, after) ==>
      weight(n, after) <= weight(n, node) && (!SamePointers(node, after) ==> weight(n, after) < weight(n, node))
  }

  lemma BothAreLowered(members: set<Id>)
    ensures Lowers(Weight, members) && Lowers(SkippedAmong(members), members)
  {
    forall n, node, after | Tightened(members, n, node, after)
      ensures Weight(n, after) <= Weight(n, node) && Skipped(members, n, after) <= Skipped(members, n, node)
      ensures !SamePointers(node, after) ==>
                Weight(n, after) < Weight(n, node) && Skipped(members, n, after) < Skipped(members, n, node)
    {
      TightenedIsLighter(members, n, node, after);
    }
  }

  lemma StepLowersTotal(weight: (Id, Node) -> nat, net: Net, step: Step)
    requires Inv(net) && Enabled(net, step) && !step.Join? && Lowers(weight, net.nodes.Keys)
    ensures Apply(net, step).nodes.Keys == net.nodes.Keys
    ensures var after := Apply(net, step).nodes;
      && Total(weight, after, net.nodes.Keys) <= Total(weight, net.nodes, net.nodes.Keys)
      && (Changes(net, step) ==> Total(weight, after, net.nodes.Keys) < Total(weight, net.nodes, net.nodes.Keys))
  {
    var after := Apply(net, step).nodes;
    StepTightens(net, step, net.base);
    forall x {:trigger weight(x, after[x])} | x in net.nodes
      ensures weight(x, after[x]) <= weight(x, net.nodes[x])
    {
      StepTightens(net, step, x);
    }
    var y := net.base;
    if Changes(net, step) {
      y :| ChangesAt(net, step, y);
      StepTightens(net, step, y);
    }
    TotalShrinks(weight, net.nodes, after, net.nodes.Keys, y);
  }

  /** Every change, other than a join, lowers the total length of pointers and the number of members they jump over. */
  lemma StepShrinksMeasure(net: Net, step: Step)
    requires Inv(net) && Enabled(net, step) && !step.Join?
    ensures var after := Apply(net, step).nodes;
      && Measure(after) <= Measure(net.nodes) && Disorder(after) <= Disorder(net.nodes)
      && (Changes(net, step) ==> Measure(after) < Measure(net.nodes) && Disorder(after) < Disorder(net.nodes))
  {
    BothAreLowered(net.nodes.Keys);
    StepLowersTotal(Weight, net, step);
    StepLowersTotal(SkippedAmong(net.nodes.Keys), net, step);
  }

  /** How many steps of a run change a successor or predecessor. */
  ghost function CountChanges(net: Net, steps: seq<Step>): nat
    requires ValidRun(net, steps)
    decreases |steps|
  {
    if |steps| == 0 then 0
    else (if Changes(net, steps[0]) then 1 else 0) + CountChanges(Apply(net, steps[0]), steps[1..])
  }

  /** Without joins, every run changes pointers at most as often as members are jumped over at its start. */
  lemma {:induction false} ChangesAreBounded(net: Net, steps: seq<Step>)
    requires Inv(net) && ValidRun(net, steps)
    requires forall i :: 0 <= i < |steps| ==> !steps[i].Join?
    ensures CountChanges(net, steps) + Disorder(Exec(net, steps).nodes) <= Disorder(net.nodes)
    ensures Exec(net, steps).nodes.Keys == net.nodes.Keys
    decreases |steps|
  {
    if |steps| > 0 {
      StepKeepsInv(net, steps[0]);
      StepShrinksMeasure(net, steps[0]);
      StepTightens(net, steps[0], net.base);
      ChangesAreBounded(Apply(net, steps[0]), steps[1..]);
    }
  }

  /** So no run without joins changes pointers more often than twice the square of the number of members. */
  lemma FinitelyManyChanges(net: Net, steps: seq<Step>)
    requires Inv(net) && ValidRun(net, steps)
    requires forall i :: 0 <= i < |steps| ==> !steps[i].Join?
    ensures CountChanges(net, steps) <= |net.nodes.Keys| * (2 * |net.nodes.Keys|)
  {
    ChangesAreBounded(net, steps);
    DisorderIsQuadratic(net.nodes);
  }
}
