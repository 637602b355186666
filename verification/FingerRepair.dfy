/**
  Repairing fingers on an ideal ring: after KEY_BITS repairs, from any table and position,
  every finger is exact, unless the first repair moved the successor.
 */
module FingerRepair {
  import opened Options
  import opened Ring
  import opened Bytes
  import opened Pointers
  import opened Protocol
  import opened IdealRing
  import opened Lookup
  import opened LocalLookup

  /** The finger table of n after it repaired finger k by a lookup. */
  function Repaired(nodes: Nodes, n: Id, k: nat): FingerTable
    requires n in nodes && k < KEY_BITS
  {
    nodes[n].fingers[k := GetSuccessor(nodes, n, Start(n, k)).found]
  }

  /** The finger repaired i repairs after finger `next`, within one turn of the running index. */
  function Position(next: nat, i: nat): (k: nat)
    requires next < KEY_BITS && i <= KEY_BITS
    ensures k < KEY_BITS
  {
    if next + i < KEY_BITS then next + i else next + i - KEY_BITS
  }

  ghost predicate ExactAt(members: set<Id>, n: Id, fingers: FingerTable, k: nat)
    requires members != {} && k < KEY_BITS
  {
    fingers[k] == Some(Owner(members, Start(n, k)))
  }

  /** A snapshot in which n belongs to an ideal ring of these members. */
  ghost predicate Snapshot(nodes: Nodes, members: set<Id>, n: Id) {
    n in nodes && nodes.Keys == members && Ideal(nodes) && FingersAreMembers(nodes)
  }

  /** Between two snapshots n repaired finger k; the other members did as they liked. */
  ghost predicate RepairStep(before: Nodes, after: Nodes, n: Id, k: nat) {
    n in before && n in after && k < KEY_BITS && after[n].fingers == Repaired(before, n, k)
  }

  /** Snapshots of a ring while n repairs one finger between each two of them, from position `next` on. */
  ghost predicate RepairRun(snapshots: seq<Nodes>, members: set<Id>, n: Id, next: nat) {
    && next < KEY_BITS && |snapshots| <= KEY_BITS + 1
    && (forall i :: 0 <= i < |snapshots| ==> Snapshot(snapshots[i], members, n))
    && (forall i {:trigger RepairsAt(snapshots, n, next, i)} ::
          0 <= i < |snapshots| - 1 ==> RepairsAt(snapshots, n, next, i))
  }

  ghost predicate RepairsAt(snapshots: seq<Nodes>, n: Id, next: nat, i: nat)
    requires next < KEY_BITS && i < |snapshots| - 1 <= KEY_BITS
  {
    RepairStep(snapshots[i], snapshots[i + 1], n, Position(next, i))
  }

  lemma {:induction false} RepairedSoFar(snapshots: seq<Nodes>, members: set<Id>, n: Id, next: nat, i: nat, j: nat)
    requires RepairRun(snapshots, members, n, next) && members != {} && j < i < |snapshots|
    ensures Snapshot(snapshots[i], members, n)
    ensures ExactAt(members, n, snapshots[i][n].fingers, Position(next, j))
    decreases i
  {
    var last := i - 1;
    var before := snapshots[last];
    assert Snapshot(before, members, n);
    assert RepairsAt(snapshots, n, next, last);
    LocalIsExact(before, n, Start(n, Position(next, last)));
    if j < last {
      RepairedSoFar(snapshots, members, n, next, last, j);
    }
  }

  /** KEY_BITS repairs in a ring that stays ideal while other members change their fingers leave an exact table. */
  lemma TurnIsExact(snapshots: seq<Nodes>, members: set<Id>, n: Id, next: nat)
    requires RepairRun(snapshots, members, n, next) && |snapshots| == KEY_BITS + 1
    ensures members != {} && Snapshot(snapshots[KEY_BITS], members, n)
    ensures ExactTable(members, n, snapshots[KEY_BITS][n].fingers)
  {
    assert Snapshot(snapshots[KEY_BITS], members, n);
    forall k | 0 <= k < KEY_BITS
      ensures snapshots[KEY_BITS][n].fingers[k] == Some(Owner(members, Start(n, k)))
    {
      var j := if next <= k then k - next else k + KEY_BITS - next;
      assert Position(next, j) == k;
      RepairedSoFar(snapshots, members, n, next, KEY_BITS, j);
    }
  }

  // ---- From one ideal ring ----

  /** The ring after n repaired finger k. */
  function AfterRepair(nodes: Nodes, n: Id, k: nat): (after: Nodes)
    requires n in nodes && k < KEY_BITS
    ensures after.Keys == nodes.Keys
  {
    nodes[n := nodes[n].(fingers := Repaired(nodes, n, k))]
  }

  /** A repair by the default lookup, whatever it distrusts and finds on its way, is a step of the protocol. */
  lemma RepairIsAStep(net: Net, n: Id, k: nat)
    requires Inv(net) && n in net.nodes && k < KEY_BITS
    ensures var found := GetSuccessor(net.nodes, n, Start(n, k)).found;
      && Enabled(net, FixFinger(n, k, found))
      && Apply(net, FixFinger(n, k, found)).nodes == AfterRepair(net.nodes, n, k)
  {
    var node := net.nodes[n];
    assert GoodNode(net.base, net.nodes.Keys, n, net.nodes[n]);
    if k == 0 {
      FirstFingerIsKept(net.base, net.nodes.Keys, n, node);
    } else if OwnAnswer(n, node, Start(n, k)).Some? {
      AnswerDoesNotSkipBase(net.base, net.nodes.Keys, n, node, Start(n, k), OwnAnswer(n, node, Start(n, k)).value);
    } else {
      FoundIsMember(net, n, Start(n, k));
    }
  }

  lemma FoundIsMember(net: Net, self: Id, id: Id)
    requires Inv(net) && self in net.nodes && OwnAnswer(self, net.nodes[self], id).None?
    ensures var found := GetSuccessor(net.nodes, self, id).found;
            found.Some? ==> found.value in net.nodes
  {
    FoundIsChecked(net.nodes, self, id);
    var found := GetSuccessor(net.nodes, self, id).found;
    if found.Some? {
      var m :| m in net.nodes && Succ(net.nodes[m]) == found;
      assert GoodNode(net.base, net.nodes.Keys, m, net.nodes[m]);
    }
  }

  /** Finger k is not what the successor rests on: a lower one is set, or the successor is beyond its start. */
  predicate Anchored(n: Id, node: Node, k: nat)
    requires k < KEY_BITS
  {
    || (exists j :: 0 <= j < k && node.fingers[j].Some?)
    || (Succ(node).Some? && Pow2(k) <= Dist(n, Succ(node).value))
  }

  /** The exact finger k of n is its successor exactly when the successor is at least 2^k away. */
  lemma ExactFingerIsSuccessor(nodes: Nodes, n: Id, k: nat)
    requires Ideal(nodes) && n in nodes && k < KEY_BITS
    ensures Succ(nodes[n]).Some?
    ensures Succ(nodes[n]).value == Owner(nodes.Keys, Start(n, k)) <==> Pow2(k) <= Dist(n, Succ(nodes[n]).value)
  {
    assert IdealNode(nodes.Keys, n, nodes[n]);
    FingerReach(nodes.Keys, n, k);
  }

  /** What one repair in an ideal ring does: the finger becomes exact, and the successor moves unless it is anchored. */
  lemma RepairInIdeal(nodes: Nodes, n: Id, k: nat)
    requires Ideal(nodes) && FingersAreMembers(nodes) && n in nodes && k < KEY_BITS
    ensures var owner := Some(Owner(nodes.Keys, Start(n, k)));
            var after := AfterRepair(nodes, n, k);
      && after[n].fingers == nodes[n].fingers[k := owner] && after[n].pred == nodes[n].pred
      && FingersAreMembers(after)
      && (Anchored(n, nodes[n], k) ==> Succ(after[n]) == Succ(nodes[n]))
      && (!Anchored(n, nodes[n], k) ==> Succ(after[n]) == owner != Succ(nodes[n]))
  {
    LocalIsExact(nodes, n, Start(n, k));
    ExactFingerIsSuccessor(nodes, n, k);
    FirstFingerAfter(nodes[n].fingers, k, Owner(nodes.Keys, Start(n, k)));
  }

  /** A repair keeps the ring ideal exactly when the successor of n is anchored. */
  lemma RepairKeepsIdealExactlyWhen(nodes: Nodes, n: Id, k: nat)
    requires Ideal(nodes) && FingersAreMembers(nodes) && n in nodes && k < KEY_BITS
    ensures Ideal(AfterRepair(nodes, n, k)) <==> Anchored(n, nodes[n], k)
  {
    RepairInIdeal(nodes, n, k);
    var after := AfterRepair(nodes, n, k);
    assert IdealNode(nodes.Keys, n, nodes[n]);
    if Anchored(n, nodes[n], k) {
      forall m {:trigger IdealNode(after.Keys, m, after[m])} | m in after
        ensures IdealNode(after.Keys, m, after[m])
      {
        assert IdealNode(nodes.Keys, m, nodes[m]);
      }
    } else if Ideal(after) {
      assert IdealNode(after.Keys, n, after[n]);
      NextIsUnique(nodes.Keys, n, Succ(nodes[n]).value, Succ(after[n]).value);
    }
  }

  /** As the protocol keeps the first finger set, its repairs always keep an ideal ring ideal. */
  lemma RepairKeepsIdeal(nodes: Nodes, n: Id, k: nat)
    requires Ideal(nodes) && FingersAreMembers(nodes) && n in nodes && k < KEY_BITS
    requires nodes[n].fingers[0].Some?
    ensures Ideal(AfterRepair(nodes, n, k)) && FingersAreMembers(AfterRepair(nodes, n, k))
    ensures Succ(AfterRepair(nodes, n, k)[n]) == Succ(nodes[n]) && AfterRepair(nodes, n, k)[n].fingers[0].Some?
  {
    RepairInIdeal(nodes, n, k);
    RepairKeepsIdealExactlyWhen(nodes, n, k);
  }

  /** The ring after n made `count` repairs from position `next` on. */
  function AfterRepairs(nodes: Nodes, n: Id, next: nat, count: nat): (after: Nodes)
    requires n in nodes && next < KEY_BITS && count <= KEY_BITS
    ensures after.Keys == nodes.Keys
  {
    if count == 0 then nodes
    else AfterRepair(AfterRepairs(nodes, n, next, count - 1), n, Position(next, count - 1))
  }

  /** An ideal ring in which a repair of finger k by n keeps it ideal. */
  ghost predicate Steady(nodes: Nodes, n: Id, k: nat)
    requires k < KEY_BITS
  {
    Ideal(nodes) && FingersAreMembers(nodes) && n in nodes && Anchored(n, nodes[n], k)
  }

  lemma SteadyStep(nodes: Nodes, n: Id, k: nat, following: nat)
    requires k < KEY_BITS && Steady(nodes, n, k) && following == if k + 1 < KEY_BITS then k + 1 else 0
    ensures Steady(AfterRepair(nodes, n, k), n, following)
  {
    RepairInIdeal(nodes, n, k);
    RepairKeepsIdealExactlyWhen(nodes, n, k);
    ExactFingerIsSuccessor(nodes, n, k);
    if k + 1 < KEY_BITS {
      assert AfterRepair(nodes, n, k)[n].fingers[k].Some?;
    }
  }

  lemma {:induction false} SteadyThroughout(nodes: Nodes, n: Id, next: nat, count: nat)
    requires n in nodes && next < KEY_BITS && count <= KEY_BITS && Steady(nodes, n, next)
    ensures Steady(AfterRepairs(nodes, n, next, count), n, Position(next, count))
    decreases count
  {
    if count > 0 {
      SteadyThroughout(nodes, n, next, count - 1);
      SteadyStep(AfterRepairs(nodes, n, next, count - 1), n, Position(next, count - 1), Position(next, count));
    }
  }

  lemma SteadyTurn(nodes: Nodes, n: Id, next: nat)
    requires next < KEY_BITS && Steady(nodes, n, next)
    ensures ExactTable(nodes.Keys, n, AfterRepairs(nodes, n, next, KEY_BITS)[n].fingers)
  {
    var snapshots := seq(KEY_BITS + 1, i requires 0 <= i <= KEY_BITS => AfterRepairs(nodes, n, next, i));
    forall i | 0 <= i < |snapshots|
      ensures Snapshot(snapshots[i], nodes.Keys, n)
    {
      SteadyThroughout(nodes, n, next, i);
    }
    forall i {:trigger RepairsAt(snapshots, n, next, i)} | 0 <= i < |snapshots| - 1
      ensures RepairsAt(snapshots, n, next, i)
    {
      assert snapshots[i + 1] == AfterRepair(snapshots[i], n, Position(next, i));
    }
    TurnIsExact(snapshots, nodes.Keys, n, next);
  }

  // ---- An unanchored first repair ----

  /** Finger k is w and nothing below it is set. */
  predicate Moved(node: Node, after: Node, k: nat, w: Id)
    requires k < KEY_BITS
  {
    && after.pred == node.pred
    && (forall j :: 0 <= j < k ==> after.fingers[j].None?)
    && after.fingers[k] == Some(w)
  }

  lemma HigherRepair(node: Node, nodes: Nodes, n: Id, k: nat, w: Id, i: nat)
    requires n in nodes && k < i < KEY_BITS && Moved(node, nodes[n], k, w)
    ensures Moved(node, AfterRepair(nodes, n, i)[n], k, w)
  {
  }

  /** Up to the top of the table, the successor stays where the first repair moved it. */
  lemma {:induction false} MovedUpToTheTop(nodes: Nodes, n: Id, next: nat, count: nat, w: Id)
    requires n in nodes && next < KEY_BITS && 1 <= count <= KEY_BITS - next
    requires Moved(nodes[n], AfterRepairs(nodes, n, next, 1)[n], next, w)
    ensures Moved(nodes[n], AfterRepairs(nodes, n, next, count)[n], next, w)
    decreases count
  {
    if count > 1 {
      MovedUpToTheTop(nodes, n, next, count - 1, w);
      HigherRepair(nodes[n], AfterRepairs(nodes, n, next, count - 1), n, next, w, next + count - 1);
    }
  }

  lemma FirstFingerUntouched(nodes: Nodes, n: Id, i: nat)
    requires n in nodes && 0 < i < KEY_BITS
    ensures AfterRepair(nodes, n, i)[n].fingers[0] == nodes[n].fingers[0]
  {
  }

  /** Then the first finger is repaired to it, and is not touched again. */
  lemma {:induction false} MovedFirstFinger(nodes: Nodes, n: Id, next: nat, count: nat, w: Id)
    requires n in nodes && next < KEY_BITS && KEY_BITS - next < count <= KEY_BITS
    requires nodes[n].pred.Some? && nodes[n].pred != Some(n)
    requires Moved(nodes[n], AfterRepairs(nodes, n, next, 1)[n], next, w)
    ensures AfterRepairs(nodes, n, next, count)[n].fingers[0] == Some(w)
    decreases count
  {
    if count == KEY_BITS - next + 1 {
      MovedUpToTheTop(nodes, n, next, count - 1, w);
      LowestRepair(nodes[n], AfterRepairs(nodes, n, next, count - 1), n, next, w);
    } else {
      MovedFirstFinger(nodes, n, next, count - 1, w);
      FirstFingerUntouched(AfterRepairs(nodes, n, next, count - 1), n, Position(next, count - 1));
    }
  }

  lemma FirstRepair(nodes: Nodes, n: Id, next: nat)
    requires Ideal(nodes) && FingersAreMembers(nodes) && n in nodes && next < KEY_BITS && !Anchored(n, nodes[n], next)
    ensures Moved(nodes[n], AfterRepairs(nodes, n, next, 1)[n], next, Owner(nodes.Keys, Start(n, next)))
  {
    RepairInIdeal(nodes, n, next);
    assert AfterRepairs(nodes, n, next, 1) == AfterRepair(AfterRepairs(nodes, n, next, 0), n, next);
  }

  lemma LowestRepair(node: Node, nodes: Nodes, n: Id, k: nat, w: Id)
    requires n in nodes && k < KEY_BITS && Moved(node, nodes[n], k, w) && node.pred.Some? && node.pred != Some(n)
    ensures AfterRepair(nodes, n, 0)[n].fingers[0] == Some(w)
  {
    FirstFingerIsLowest(nodes[n].fingers, k);
    AnswersRightAfterItself(n, nodes[n]);
  }

  lemma NotAlone(nodes: Nodes, n: Id, k: nat)
    requires Ideal(nodes) && n in nodes && k < KEY_BITS && !Anchored(n, nodes[n], k)
    ensures nodes[n].pred.Some? && nodes[n].pred != Some(n)
  {
    assert IdealNode(nodes.Keys, n, nodes[n]);
    FingerReach(nodes.Keys, n, k);
  }

  lemma AnswersRightAfterItself(n: Id, node: Node)
    requires node.pred.Some? && node.pred != Some(n) && Succ(node).Some?
    ensures OwnAnswer(n, node, Start(n, 0)) == Succ(node)
  {
    AheadDistance(n, 1);
  }

  /**
    From any ideal ring, any position and any member-valued table, KEY_BITS consecutive
    repairs leave every finger exact, exactly when the first of them does not move the
    successor. That is so whenever the first finger is set, and whenever the turn starts there.
   */
  lemma FullTurnIsExactExactlyWhen(nodes: Nodes, n: Id, next: nat)
    requires Ideal(nodes) && FingersAreMembers(nodes) && n in nodes && next < KEY_BITS
    ensures ExactTable(nodes.Keys, n, AfterRepairs(nodes, n, next, KEY_BITS)[n].fingers)
       <==> Anchored(n, nodes[n], next)
    ensures nodes[n].fingers[0].Some? || next == 0 ==> Anchored(n, nodes[n], next)
  {
    ExactFingerIsSuccessor(nodes, n, 0);
    if Anchored(n, nodes[n], next) {
      SteadyTurn(nodes, n, next);
    } else {
      RepairInIdeal(nodes, n, next);
      NotAlone(nodes, n, next);
      FirstRepair(nodes, n, next);
      MovedFirstFinger(nodes, n, next, KEY_BITS, Owner(nodes.Keys, Start(n, next)));
      assert 1 <= Dist(n, Succ(nodes[n]).value);
    }
  }
}
