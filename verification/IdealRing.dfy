/**
  The ring the protocol aims at: every member's successor is the next member clockwise
  and predecessors are the inverse. The owner of an id is the first member at or after it.
 */
module IdealRing {
  import opened Options
  import opened Ring
  import opened Pointers
  import opened Protocol

  /** s is the next member strictly clockwise of n (n itself when it is alone). */
  ghost predicate IsNext(members: set<Id>, n: Id, s: Id) {
    s in members && forall m :: m in members ==> Dist(n, s) <= Dist(n, m)
  }

  ghost predicate IdealNode(members: set<Id>, n: Id, node: Node) {
    && Succ(node).Some? && IsNext(members, n, Succ(node).value)
    && node.pred.Some? && node.pred.value in members && IsNext(members, node.pred.value, n)
  }

  ghost predicate Ideal(nodes: Nodes) {
    && nodes.Keys != {}
    && forall n {:trigger IdealNode(nodes.Keys, n, nodes[n])} :: n in nodes ==> IdealNode(nodes.Keys, n, nodes[n])
  }

  /** Every finger that is set names a member. */
  ghost predicate FingersAreMembers(nodes: Nodes) {
    forall n, k {:trigger nodes[n].fingers[k]} ::
      n in nodes && 0 <= k < KEY_BITS && nodes[n].fingers[k].Some? ==> nodes[n].fingers[k].value in nodes
  }

  ghost predicate IsOwner(members: set<Id>, id: Id, o: Id) {
    o in members && forall m :: m in members ==> Gap(id, o) <= Gap(id, m)
  }

  lemma {:induction false} OwnerExists(members: set<Id>, id: Id) returns (o: Id)
    requires members != {}
    ensures IsOwner(members, id, o)
    decreases members
  {
    var x :| x in members;
    if members - {x} == {} {
      assert members == {x};
      o := x;
    } else {
      var rest := OwnerExists(members - {x}, id);
      o := if Gap(id, x) < Gap(id, rest) then x else rest;
      forall m | m in members
        ensures Gap(id, o) <= Gap(id, m)
      {
        assert m == x || m in members - {x};
      }
    }
  }

  lemma {:induction false} ClosestBefore(members: set<Id>, n: Id) returns (p: Id)
    requires members != {}
    ensures p in members && IsNextTo(members, p, n)
    decreases members
  {
    var x :| x in members;
    if members - {x} == {} {
      assert members == {x};
      p := x;
    } else {
      var rest := ClosestBefore(members - {x}, n);
      p := if Dist(x, n) < Dist(rest, n) then x else rest;
      forall m | m in members
        ensures Dist(p, n) <= Dist(m, n)
      {
        assert m == x || m in members - {x};
      }
    }
  }

  /** No member is closer before n than p. */
  ghost predicate IsNextTo(members: set<Id>, p: Id, n: Id) {
    forall m :: m in members ==> Dist(p, n) <= Dist(m, n)
  }

  lemma ClosestBeforeIsNext(members: set<Id>, p: Id, n: Id)
    requires n in members && p in members && IsNextTo(members, p, n)
    ensures IsNext(members, p, n)
  {
  }

  /** The member that is responsible for an id. */
  ghost function Owner(members: set<Id>, id: Id): (o: Id)
    requires members != {}
    ensures IsOwner(members, id, o)
  {
    assert exists o :: IsOwner(members, id, o) by {
      var o := OwnerExists(members, id);
    }
    var o :| IsOwner(members, id, o);
    o
  }

  lemma OwnerIsUnique(members: set<Id>, id: Id, o: Id)
    requires members != {} && IsOwner(members, id, o)
    ensures o == Owner(members, id)
  {
  }

  lemma NextIsUnique(members: set<Id>, n: Id, s: Id, t: Id)
    requires IsNext(members, n, s) && IsNext(members, n, t)
    ensures s == t
  {
  }

  lemma PreviousIsUnique(members: set<Id>, p: Id, q: Id, n: Id)
    requires p in members && q in members && IsNext(members, p, n) && IsNext(members, q, n)
    ensures p == q
  {
  }

  /** The arc (p, n] between neighbours is exactly what n owns. */
  lemma NeighbourArcIsOwned(members: set<Id>, p: Id, n: Id, id: Id)
    requires p in members && n in members && IsNext(members, p, n)
    ensures Upto(p, id, n) <==> IsOwner(members, id, n)
  {
  }

  /** In an ideal ring, pred(succ(n)) == n. */
  lemma IdealIsMutual(nodes: Nodes, n: Id)
    requires Ideal(nodes) && n in nodes
    ensures Succ(nodes[n]).Some? && Succ(nodes[n]).value in nodes
    ensures nodes[Succ(nodes[n]).value].pred == Some(n)
  {
    assert IdealNode(nodes.Keys, n, nodes[n]);
    var s := Succ(nodes[n]).value;
    assert IdealNode(nodes.Keys, s, nodes[s]);
    PreviousIsUnique(nodes.Keys, n, nodes[s].pred.value, s);
  }

  /** In an ideal ring whatever a member answers by itself is the owner. */
  lemma OwnAnswerIsOwner(nodes: Nodes, n: Id, id: Id)
    requires Ideal(nodes) && n in nodes
    ensures OwnAnswer(n, nodes[n], id).Some? ==> OwnAnswer(n, nodes[n], id) == Some(Owner(nodes.Keys, id))
  {
    assert IdealNode(nodes.Keys, n, nodes[n]);
    var answer := OwnAnswer(n, nodes[n], id);
    if answer.Some? {
      NeighbourArcIsOwned(nodes.Keys, nodes[n].pred.value, n, id);
      NeighbourArcIsOwned(nodes.Keys, n, Succ(nodes[n]).value, id);
      OwnerIsUnique(nodes.Keys, id, answer.value);
    }
  }
}
