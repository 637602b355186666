/**
  Finding the node responsible for an id, in the two ways the program knows. Passing the
  lookup on: each node hands it to its closest preceding finger. Looking up locally: the
  asking node keeps a stack of hops and a set of distrusted nodes, and asks one node after
  the other itself.
 */
module Lookup {
  import opened Options
  import opened Ring
  import opened Bytes
  import opened Pointers
  import opened Protocol
  import opened IdealRing

  // ---- Passing on ----

  /** The lookup of id as node n carries it out by passing on; a node outside the ring does not answer. */
  function PassOn(nodes: Nodes, n: Id, id: Id): Option<Id>
    decreases Dist(n, id)
  {
    if n !in nodes then None
    else if OwnAnswer(n, nodes[n], id).Some? then OwnAnswer(n, nodes[n], id)
    else
      var next := ClosestPreceding(n, nodes[n].fingers, id);
      if next.None? then None else PassOn(nodes, next.value, id)
  }

  /** Node n cannot answer and hands the lookup to m, its closest preceding finger. */
  predicate HandsOn(nodes: Nodes, n: Id, m: Id, id: Id) {
    && n in nodes && OwnAnswer(n, nodes[n], id).None?
    && ClosestPreceding(n, nodes[n].fingers, id) == Some(m)
  }

  predicate Stops(nodes: Nodes, n: Id, id: Id) {
    n in nodes && OwnAnswer(n, nodes[n], id).None? ==> ClosestPreceding(n, nodes[n].fingers, id).None?
  }

  /** The nodes a lookup visits, up to the one that does not hand it on. */
  ghost predicate Route(nodes: Nodes, path: seq<Id>, id: Id) {
    && |path| > 0
    && (forall i, j :: 0 <= i && j == i + 1 && j < |path| ==> HandsOn(nodes, path[i], path[j], id))
    && Stops(nodes, path[|path| - 1], id)
  }

  lemma RouteRest(nodes: Nodes, path: seq<Id>, id: Id)
    requires Route(nodes, path, id) && |path| > 1
    ensures HandsOn(nodes, path[0], path[1], id) && Route(nodes, path[1..], id)
  {
    var rest := path[1..];
    forall i, j | 0 <= i && j == i + 1 && j < |rest|
      ensures HandsOn(nodes, rest[i], rest[j], id)
    {
      assert rest[i] == path[j] && rest[j] == path[j + 1];
    }
  }

  /** Whatever route a lookup takes, its outcome is what the last node on it answers. */
  lemma {:induction false} PassOnFollowsRoute(nodes: Nodes, path: seq<Id>, id: Id)
    requires Route(nodes, path, id)
    ensures var last := path[|path| - 1];
            PassOn(nodes, path[0], id) == if last in nodes then OwnAnswer(last, nodes[last], id) else None
    decreases |path|
  {
    if |path| > 1 {
      RouteRest(nodes, path, id);
      PassOnFollowsRoute(nodes, path[1..], id);
    }
  }

  lemma {:induction false} RouteExists(nodes: Nodes, n: Id, id: Id) returns (path: seq<Id>)
    ensures Route(nodes, path, id) && path[0] == n
    decreases Dist(n, id)
  {
    path := [n];
    if !Stops(nodes, n, id) {
      var next := ClosestPreceding(n, nodes[n].fingers, id).value;
      var rest := RouteExists(nodes, next, id);
      path := [n] + rest;
      forall i, j | 0 <= i && j == i + 1 && j < |path|
        ensures HandsOn(nodes, path[i], path[j], id)
      {
        if i > 0 { assert path[i] == rest[i - 1] && path[j] == rest[i]; }
      }
    }
  }

  /** With good pointers, however stale, passing on always ends in a member, and never beyond base. */
  lemma {:induction false} PassOnIsSafe(base: Id, nodes: Nodes, n: Id, id: Id)
    requires GoodNodes(base, nodes) && n in nodes
    ensures PassOn(nodes, n, id).Some?
    ensures var s := PassOn(nodes, n, id).value; s in nodes && NoLaterThan(id, s, base)
    decreases Dist(n, id)
  {
    var node := nodes[n];
    assert GoodNode(base, nodes.Keys, n, node);
    if OwnAnswer(n, node, id).Some? {
      AnswerDoesNotSkipBase(base, nodes.Keys, n, node, id, OwnAnswer(n, node, id).value);
    } else {
      assert Inside(n, node.fingers[0].value, id);
      var next := ClosestPreceding(n, node.fingers, id).value;
      PassOnIsSafe(base, nodes, next, id);
    }
  }

  /** In every reachable state, a lookup from any member names a member that does not skip the creating node. */
  lemma ReachableLookupIsSafe(base: Id, net: Net, n: Id, id: Id)
    requires Reachable(base, net) && n in net.nodes
    ensures PassOn(net.nodes, n, id).Some?
    ensures var s := PassOn(net.nodes, n, id).value; s in net.nodes && NoLaterThan(id, s, base)
  {
    ReachableInv(base, net);
    PassOnIsSafe(base, net.nodes, n, id);
  }

  /** In an ideal ring a member that cannot answer by itself has a preceding finger to go to. */
  lemma IdealNextHop(nodes: Nodes, n: Id, id: Id)
    requires Ideal(nodes) && FingersAreMembers(nodes) && n in nodes
    ensures var next := ClosestPreceding(n, nodes[n].fingers, id);
      && (next.Some? ==> next.value in nodes && Dist(next.value, id) < Dist(n, id))
      && (next.None? ==> OwnAnswer(n, nodes[n], id).Some? && Succ(nodes[n]).Some? && Upto(n, id, Succ(nodes[n]).value))
  {
    assert IdealNode(nodes.Keys, n, nodes[n]);
    var next := ClosestPreceding(n, nodes[n].fingers, id);
    if next.Some? {
      var k :| 0 <= k < KEY_BITS && nodes[n].fingers[k] == next;
    } else {
      assert Some(Succ(nodes[n]).value) in nodes[n].fingers;
    }
  }

  lemma {:induction false} PassOnIsExact(nodes: Nodes, n: Id, id: Id)
    requires Ideal(nodes) && FingersAreMembers(nodes) && n in nodes
    ensures PassOn(nodes, n, id) == Some(Owner(nodes.Keys, id))
    decreases Dist(n, id)
  {
    OwnAnswerIsOwner(nodes, n, id);
    IdealNextHop(nodes, n, id);
    if OwnAnswer(n, nodes[n], id).None? {
      PassOnIsExact(nodes, ClosestPreceding(n, nodes[n].fingers, id).value, id);
    }
  }

  // ---- With exact fingers, every hop halves the way ----

  ghost predicate ExactTable(members: set<Id>, n: Id, fingers: FingerTable)
    requires members != {}
  {
    forall k :: 0 <= k < KEY_BITS ==> fingers[k] == Some(Owner(members, Start(n, k)))
  }

  lemma ExactAreMembers(nodes: Nodes)
    requires nodes.Keys != {} && ExactFingers(nodes)
    ensures FingersAreMembers(nodes)
  {
    forall n, k | n in nodes && 0 <= k < KEY_BITS && nodes[n].fingers[k].Some?
      ensures nodes[n].fingers[k].value in nodes
    {
      assert ExactTable(nodes.Keys, n, nodes[n].fingers);
    }
  }

  ghost predicate ExactFingers(nodes: Nodes)
    requires nodes.Keys != {}
  {
    forall n {:trigger ExactTable(nodes.Keys, n, nodes[n].fingers)} ::
      n in nodes ==> ExactTable(nodes.Keys, n, nodes[n].fingers)
  }

  /** The last member strictly before id. */
  ghost predicate IsLastBefore(members: set<Id>, p: Id, id: Id) {
    p in members && IsNextTo(members, p, id)
  }

  lemma {:induction false} FloorLog(d: nat, bits: nat) returns (k: nat)
    requires 1 <= d < Pow2(bits)
    ensures k < bits && Pow2(k) <= d < Pow2(k + 1)
    decreases bits
  {
    if Pow2(bits - 1) <= d {
      k := bits - 1;
    } else {
      k := FloorLog(d, bits - 1);
    }
  }

  /** Where finger k of n lies when it is exact. */
  lemma FingerReach(members: set<Id>, n: Id, k: nat)
    requires n in members && k < KEY_BITS
    ensures Pow2(k) < RING
    ensures Dist(n, Start(n, k)) == Pow2(k)
    ensures var o := Owner(members, Start(n, k));
      && Pow2(k) <= Dist(n, o)
      && forall m :: m in members && Pow2(k) <= Dist(n, m) ==> Dist(n, o) <= Dist(n, m)
  {
    RingIsPower();
    Pow2Monotone(k, KEY_BITS);
    AheadDistance(n, Pow2(k));
  }

  /** Members inside (n, id) reach no farther than the last one before id. */
  lemma LastBeforeIsFarthest(members: set<Id>, n: Id, p: Id, id: Id, m: Id)
    requires n in members && m in members && IsLastBefore(members, p, id) && n != p
    ensures Inside(n, p, id)
    ensures Inside(n, m, id) <==> Dist(n, m) <= Dist(n, p)
  {
  }

  /** One hop of a lookup: the new node has less than half the way left to the last member before id. */
  lemma HopHalvesTheWay(nodes: Nodes, n: Id, p: Id, id: Id)
    requires nodes.Keys != {} && ExactFingers(nodes)
    requires n in nodes && IsLastBefore(nodes.Keys, p, id) && n != p
    ensures var next := ClosestPreceding(n, nodes[n].fingers, id);
      next.Some? && next.value in nodes && 2 * Gap(next.value, p) < Gap(n, p)
  {
    RingIsPower();
    var d := Dist(n, p);
    var k := FloorLog(d, KEY_BITS);
    assert ExactTable(nodes.Keys, n, nodes[n].fingers);
    var fingers := nodes[n].fingers;
    FingerReach(nodes.Keys, n, k);
    var f := fingers[k].value;
    LastBeforeIsFarthest(nodes.Keys, n, p, id, f);
    forall i | k < i < KEY_BITS && fingers[i].Some?
      ensures !Inside(n, fingers[i].value, id)
    {
      FingerReach(nodes.Keys, n, i);
      Pow2Monotone(k, i);
      LastBeforeIsFarthest(nodes.Keys, n, p, id, fingers[i].value);
    }
    ClosestPrecedingIsHighest(n, fingers, id, k);
  }

  /** The last member before id answers at once. */
  lemma LastBeforeAnswers(nodes: Nodes, p: Id, id: Id)
    requires Ideal(nodes) && IsLastBefore(nodes.Keys, p, id)
    ensures Succ(nodes[p]).Some? && Upto(p, id, Succ(nodes[p]).value)
    ensures OwnAnswer(p, nodes[p], id).Some?
  {
    assert IdealNode(nodes.Keys, p, nodes[p]);
    assert Dist(p, id) <= Dist(Succ(nodes[p]).value, id);
  }

  lemma {:induction false} RoutesAreLogarithmic(nodes: Nodes, path: seq<Id>, p: Id, id: Id, bits: nat)
    requires Ideal(nodes) && ExactFingers(nodes) && Route(nodes, path, id)
    requires path[0] in nodes && IsLastBefore(nodes.Keys, p, id) && Gap(path[0], p) < Pow2(bits)
    ensures |path| - 1 <= bits
    decreases bits
  {
    if |path| > 1 {
      RouteRest(nodes, path, id);
      LastBeforeAnswers(nodes, p, id);
      HopHalvesTheWay(nodes, path[0], p, id);
      RoutesAreLogarithmic(nodes, path[1..], p, id, bits - 1);
    }
  }

  /** With exact fingers, whatever route a lookup takes in an ideal ring has at most 256 hops and leads to the owner. */
  lemma LookupIsLogarithmic(nodes: Nodes, path: seq<Id>, id: Id)
    requires Ideal(nodes) && ExactFingers(nodes) && Route(nodes, path, id) && path[0] in nodes
    ensures |path| - 1 <= KEY_BITS
    ensures var last := path[|path| - 1];
            last in nodes && OwnAnswer(last, nodes[last], id) == Some(Owner(nodes.Keys, id))
  {
    var p := ClosestBefore(nodes.Keys, id);
    RingIsPower();
    RoutesAreLogarithmic(nodes, path, p, id, KEY_BITS);
    ExactAreMembers(nodes);
    PassOnIsExact(nodes, path[0], id);
    PassOnFollowsRoute(nodes, path, id);
  }
}
