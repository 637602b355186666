/**
  The default lookup while pointers lag. Passing on never skips the creating node; the
  default lookup can, once it has distrusted a node whose pointers are merely old.
 */
module LaggingRing {
  import opened Options
  import opened Ring
  import opened Pointers
  import opened Protocol
  import opened IdealRing
  import opened Convergence
  import opened LocalLookup

  lemma ReachableStabilize(base: Id, net: Net, n: Id) returns (after: Net)
    requires Reachable(base, net) && n in net.nodes
    ensures Reachable(base, after) && after.nodes == Stabilize(net.nodes, n)
  {
    ReachableInv(base, net);
    StabilizeIsARun(net, n);
    ReachableRun(base, net, StabilizeSteps(net.nodes, n));
    after := Exec(net, StabilizeSteps(net.nodes, n));
  }

  lemma ReachableJoin(base: Id, net: Net, at: Id, n: Id, s: Id) returns (after: Net)
    requires Reachable(base, net) && at in net.nodes && n !in net.nodes
    requires OwnAnswer(at, net.nodes[at], n) == Some(s)
    ensures Reachable(base, after) && after.nodes == net.nodes[n := Joined(s)]
  {
    ReachableStep(base, net, Step.Ask(at, n));
    var net1 := Apply(net, Step.Ask(at, n));
    ReachableStep(base, net1, Answer(at, n, s));
    var net2 := Apply(net1, Answer(at, n, s));
    ReachableStep(base, net2, Join(n, s));
    after := Apply(net2, Join(n, s));
  }

  /** A node that knows only its successor. */
  function Knows(s: Id, pred: Option<Id>): (node: Node)
    ensures Succ(node) == Some(s)
  {
    Joined(s).(pred := pred)
  }

  lemma KnowsOnlySuccessor(self: Id, s: Id, pred: Option<Id>, id: Id)
    ensures ClosestPreceding(self, Knows(s, pred).fingers, id) == if Inside(self, s, id) then Some(s) else None
  {
    var table := Knows(s, pred).fingers;
    assert table[0] == Some(s);
    assert forall f :: Some(f) in table ==> f == s;
  }

  lemma KnowsAdopted(s: Id, pred: Option<Id>, t: Id)
    ensures SetSuccessor(Knows(s, pred), Some(t)) == Knows(t, pred)
  {
    assert Joined(s).fingers[0 := Some(t)] == Joined(t).fingers;
  }

  /** Nodes 0 and 100 form an ideal ring. */
  function TwoNodes(): Nodes {
    map[0 := Knows(100, Some(100)), 100 := Knows(0, Some(0))]
  }

  /** 200 has joined and notified 0, but 100 has not noticed. */
  function Lagging(): Nodes {
    map[0 := Knows(100, Some(200)), 100 := Knows(0, Some(0)), 200 := Knows(0, None)]
  }

  lemma TwoNodesAreReachable() returns (net: Net)
    ensures Reachable(0, net) && net.nodes == TwoNodes()
  {
    net := Initial(0);
    assert ValidRun(Initial(0), []) && Exec(Initial(0), []) == net;
    net := ReachableStabilize(0, net, 0);
    assert net.nodes == map[0 := Knows(0, Some(0))];
    net := ReachableJoin(0, net, 0, 100, 0);
    SecondJoins();
    net := ReachableStabilize(0, net, 100);
    net := ReachableStabilize(0, net, 0);
  }

  lemma SecondJoins()
    ensures Stabilize(map[0 := Knows(0, Some(0)), 100 := Knows(0, None)], 100)
         == map[0 := Knows(0, Some(100)), 100 := Knows(0, None)]
    ensures Stabilize(map[0 := Knows(0, Some(100)), 100 := Knows(0, None)], 0) == TwoNodes()
  {
    KnowsAdopted(0, Some(100), 100);
  }

  lemma LaggingIsReachable() returns (net: Net)
    ensures Reachable(0, net) && net.nodes == Lagging()
  {
    net := TwoNodesAreReachable();
    net := ReachableJoin(0, net, 0, 200, 0);
    net := ReachableStabilize(0, net, 200);
  }

  lemma LaggingAnswers()
    ensures MemberAnswer(Lagging(), 0, 0, 150, 150) == Pair(Some(100), Some(100))
    ensures MemberAnswer(Lagging(), 0, 0, 150, 100) == Pair(None, Some(100))
    ensures MemberAnswer(Lagging(), 0, 100, 150, 150) == Pair(None, None)
  {
    KnowsOnlySuccessor(0, 100, Some(200), 150);
    KnowsOnlySuccessor(0, 100, Some(200), 100);
    KnowsOnlySuccessor(100, 0, Some(0), 150);
  }

  /** A search that visits a and b, gives up b, and ends at a. */
  lemma BacktrackOnce(helper: Helper, id: Id, a: Id, b: Id, s: Id)
    requires Vetted(helper, id)
    requires helper(0, a, {}).preceding == Some(b)
    requires helper(1, b, {}) == Pair(None, None)
    requires helper(2, a, {b}) == Pair(None, Some(s))
    ensures Search(helper, 0, id, [a], {}).found == Some(s)
    ensures Search(helper, 0, id, [a], {}).distrusted == {b}
  {
    assert [a] + [b] == [a, b] && [a, b][..1] == [a] && {} + {b} == {b};
    StackWithoutTop([a, b], {}, id);
    assert Search(helper, 2, id, [a], {b}) == Outcome(Some(s), {b}, 3);
    assert Search(helper, 1, id, [a, b], {}) == Search(helper, 2, id, [a], {b});
  }

  lemma LaggingHelps()
    ensures Helps(Lagging(), 0, 0, 150, {}).preceding == Some(100)
    ensures Helps(Lagging(), 0, 100, 150, {}) == Pair(None, None)
    ensures Helps(Lagging(), 0, 0, 150, {100}) == Pair(None, Some(100))
  {
    LaggingAnswers();
  }

  lemma LaggingSearch(nodes: Nodes, self: Id, id: Id)
    requires nodes == Lagging() && self == 0 && id == 150
    ensures GetSuccessor(nodes, self, id).found == Some(100)
    ensures GetSuccessor(nodes, self, id).distrusted == {100}
  {
    LaggingHelps();
    BacktrackOnce(RingHelper(nodes, self, id), id, self, 100, 100);
  }

  /**
    A reachable state in which the default lookup, started at 0 for id 150, distrusts the
    honest node 100 and then names it: neither the owner 200, nor short of the creating node 0.
    A node 150 that joins on this answer skips the creating node.
   */
  lemma LocalMaySkipBase() returns (net: Net)
    ensures Reachable(0, net) && net.nodes.Keys == {0, 100, 200}
    ensures GetSuccessor(net.nodes, 0, 150).found == Some(100)
    ensures GetSuccessor(net.nodes, 0, 150).distrusted == {100}
    ensures Owner(net.nodes.Keys, 150) == 200 && !NoLaterThan(150, 100, 0)
    ensures !GoodNode(0, net.nodes.Keys + {150}, 150, Joined(100))
  {
    net := LaggingIsReachable();
    LaggingSearch(net.nodes, 0, 150);
    LaggingOwner();
  }

  lemma LaggingOwner()
    ensures Lagging().Keys == {0, 100, 200} && Owner(Lagging().Keys, 150) == 200
  {
    var members: set<Id> := {0, 100, 200};
    assert 0 in members;
    assert Lagging().Keys == members;
    OwnerIsUnique(members, 150, 200);
  }
}
