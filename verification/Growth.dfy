/**
  Growing an ideal ring: a node that joins at its owner is worked in by one stabilize of
  its own and one of the member before it.
 */
module Growth {
  import opened Options
  import opened Ring
  import opened Pointers
  import opened Protocol
  import opened IdealRing
  import opened Convergence

  /** The ring after n joined at s, stabilized, and the former predecessor of s stabilized. */
  function Grown(nodes: Nodes, n: Id, s: Id): (after: Nodes)
    requires n !in nodes && s in nodes && nodes[s].pred.Some? && nodes[s].pred.value in nodes
    ensures after.Keys == nodes.Keys + {n}
  {
    Stabilize(Stabilize(nodes[n := Joined(s)], n), nodes[s].pred.value)
  }

  /** The place of a newcomer: between its owner s and the predecessor p of s. */
  lemma NewcomersPlace(nodes: Nodes, n: Id)
    requires Ideal(nodes) && n !in nodes
    ensures var s := Owner(nodes.Keys, n);
      && nodes[s].pred.Some? && nodes[s].pred.value in nodes
      && Inside(nodes[s].pred.value, n, s) && IsNext(nodes.Keys, nodes[s].pred.value, s)
      && Succ(nodes[nodes[s].pred.value]) == Some(s)
  {
    var s := Owner(nodes.Keys, n);
    assert IdealNode(nodes.Keys, s, nodes[s]);
    var p := nodes[s].pred.value;
    NeighbourArcIsOwned(nodes.Keys, p, s, n);
    assert IdealNode(nodes.Keys, p, nodes[p]);
    NextIsUnique(nodes.Keys, p, s, Succ(nodes[p]).value);
  }

  /** The newcomer's stabilize only makes it the predecessor of s. */
  lemma NewcomerNotifies(nodes: Nodes, n: Id, s: Id)
    requires n !in nodes && s in nodes && nodes[s].pred.Some? && Inside(nodes[s].pred.value, n, s)
    requires nodes[s].pred.value in nodes
    ensures Stabilize(nodes[n := Joined(s)], n) == nodes[n := Joined(s)][s := nodes[s].(pred := Some(n))]
  {
  }

  /** The stabilize of the member before makes it and the newcomer neighbours. */
  lemma PredecessorAdopts(nodes: Nodes, p: Id, n: Id, s: Id)
    requires p in nodes && n in nodes && s in nodes && n != p && n != s
    requires Succ(nodes[p]) == Some(s) && nodes[s].pred == Some(n) && nodes[n].pred.None? && Inside(p, n, s)
    ensures Stabilize(nodes, p) == nodes[p := SetSuccessor(nodes[p], Some(n))][n := nodes[n].(pred := Some(p))]
  {
  }

  /** The pointers of the grown ring: n sits between p and s, everybody else is untouched. */
  lemma GrownPointers(nodes: Nodes, n: Id)
    requires Ideal(nodes) && n !in nodes
    ensures var s := Owner(nodes.Keys, n);
      && nodes[s].pred.Some? && nodes[s].pred.value in nodes
      && var p := nodes[s].pred.value;
         var after := Grown(nodes, n, s);
      && Inside(p, n, s)
      && after[n] == Joined(s).(pred := Some(p))
      && (p != s ==> after[p] == SetSuccessor(nodes[p], Some(n)) && after[s] == nodes[s].(pred := Some(n)))
      && (p == s ==> after[s] == SetSuccessor(nodes[s], Some(n)).(pred := Some(n)))
      && (forall m :: m in nodes && m != p && m != s ==> after[m] == nodes[m])
      && Succ(after[p]) == Some(n) && after[s].pred == Some(n)
      && (forall k :: 0 < k < KEY_BITS ==> after[p].fingers[k] == nodes[p].fingers[k])
      && (forall k :: 0 < k < KEY_BITS ==> after[s].fingers[k] == nodes[s].fingers[k])
  {
    NewcomersPlace(nodes, n);
    var s := Owner(nodes.Keys, n);
    var p := nodes[s].pred.value;
    NewcomerNotifies(nodes, n, s);
    PredecessorAdopts(nodes[n := Joined(s)][s := nodes[s].(pred := Some(n))], p, n, s);
  }

  /** Two neighbours stay neighbours when the newcomer is not between them. */
  lemma StillNext(members: set<Id>, n: Id, p: Id, s: Id, m: Id, t: Id)
    requires m in members && t in members && IsNext(members, m, t)
    requires p in members && s in members && IsNext(members, p, s)
    requires n !in members && Inside(p, n, s) && m != p
    ensures IsNext(members + {n}, m, t)
  {
    NeighbourArcIsOwned(members, p, s, n);
    NeighbourArcIsOwned(members, m, t, n);
    if Inside(m, n, t) {
      OwnerIsUnique(members, n, s);
      OwnerIsUnique(members, n, t);
      PreviousIsUnique(members, p, m, s);
    }
  }

  lemma SplitsNeighbours(members: set<Id>, n: Id, p: Id, s: Id)
    requires p in members && s in members && IsNext(members, p, s)
    requires n !in members && Inside(p, n, s)
    ensures IsNext(members + {n}, p, n) && IsNext(members + {n}, n, s)
  {
  }

  lemma GrownMemberIsIdeal(nodes: Nodes, n: Id, m: Id)
    requires Ideal(nodes) && n !in nodes
    requires m == n || m in nodes
    ensures var s := Owner(nodes.Keys, n);
      && nodes[s].pred.Some? && nodes[s].pred.value in nodes
      && IdealNode(nodes.Keys + {n}, m, Grown(nodes, n, s)[m])
  {
    GrownPointers(nodes, n);
    var s := Owner(nodes.Keys, n);
    var p := nodes[s].pred.value;
    assert IdealNode(nodes.Keys, s, nodes[s]);
    SplitsNeighbours(nodes.Keys, n, p, s);
    if m != n {
      assert IdealNode(nodes.Keys, m, nodes[m]);
      if m != p { StillNext(nodes.Keys, n, p, s, m, Succ(nodes[m]).value); }
      if nodes[m].pred.value != p {
        StillNext(nodes.Keys, n, p, s, nodes[m].pred.value, m);
      } else {
        NextIsUnique(nodes.Keys, p, m, s);
      }
    }
  }

  /** From every ideal ring, a join and two stabilizes lead to the ideal ring of the larger member set. */
  lemma JoinThenTwoStabilizesIsIdeal(nodes: Nodes, n: Id)
    requires Ideal(nodes) && n !in nodes
    ensures var s := Owner(nodes.Keys, n);
      && nodes[s].pred.Some? && nodes[s].pred.value in nodes
      && Ideal(Grown(nodes, n, s))
      && Grown(nodes, n, s).Keys == nodes.Keys + {n}
  {
    var s := Owner(nodes.Keys, n);
    GrownMemberIsIdeal(nodes, n, n);
    var after := Grown(nodes, n, s);
    forall m {:trigger IdealNode(after.Keys, m, after[m])} | m in after
      ensures IdealNode(after.Keys, m, after[m])
    {
      GrownMemberIsIdeal(nodes, n, m);
    }
  }

  lemma GrowthKeepsFingers(nodes: Nodes, n: Id)
    requires Ideal(nodes) && n !in nodes && FingersAreMembers(nodes)
    ensures var s := Owner(nodes.Keys, n);
      && nodes[s].pred.Some? && nodes[s].pred.value in nodes
      && FingersAreMembers(Grown(nodes, n, s))
  {
    GrownPointers(nodes, n);
  }
}
