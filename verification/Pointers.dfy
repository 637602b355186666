/**
  The routing state of one node as a value, and what a node does with it: answer a
  lookup from its own pointers, find the closest preceding finger, take a notification,
  digest the answer of a stabilize round.
 */
module Pointers {
  import opened Options
  import opened Ring
  import opened Bytes

  type FingerTable = f: seq<Option<Id>> | |f| == KEY_BITS witness seq(KEY_BITS, _ => None)

  datatype Node = Node(fingers: FingerTable, pred: Option<Id>)

  /** The first populated entry of a finger table. */
  function FirstFinger(fingers: seq<Option<Id>>): (r: Option<Id>)
    ensures r.Some? ==> r in fingers
    ensures r.None? <==> forall i :: 0 <= i < |fingers| ==> fingers[i].None?
    ensures |fingers| > 0 && fingers[0].Some? ==> r == fingers[0]
  {
    if |fingers| == 0 then None
    else if fingers[0].Some? then fingers[0]
    else
      assert forall i :: 0 < i < |fingers| ==> fingers[i] == fingers[1..][i - 1];
      FirstFinger(fingers[1..])
  }

  /** FirstFinger takes the lowest index that is populated. */
  lemma {:induction false} FirstFingerIsLowest(fingers: seq<Option<Id>>, k: nat)
    requires k < |fingers| && fingers[k].Some?
    requires forall i :: 0 <= i < k ==> fingers[i].None?
    ensures FirstFinger(fingers) == fingers[k]
  {
    if k > 0 {
      FirstFingerIsLowest(fingers[1..], k - 1);
    }
  }

  /** Filling finger k changes the first populated one unless a lower one is populated. */
  lemma {:induction false} FirstFingerAfter(fingers: seq<Option<Id>>, k: nat, f: Id)
    requires k < |fingers|
    ensures FirstFinger(fingers[k := Some(f)])
         == if exists j :: 0 <= j < k && fingers[j].Some? then FirstFinger(fingers) else Some(f)
  {
    if k > 0 && fingers[0].None? {
      FirstFingerAfter(fingers[1..], k - 1, f);
      assert fingers[k := Some(f)][1..] == fingers[1..][k - 1 := Some(f)];
      assert forall j :: 0 < j < k ==> fingers[j] == fingers[1..][j - 1];
      assert forall j :: 0 <= j < k - 1 ==> fingers[1..][j] == fingers[j + 1];
    }
  }

  /** A node takes its first populated finger for its successor. */
  function Succ(node: Node): Option<Id> {
    FirstFinger(node.fingers)
  }

  function SetSuccessor(node: Node, s: Option<Id>): (r: Node)
    ensures s.Some? ==> Succ(r) == s
    ensures r.fingers[0] == s && r.pred == node.pred
    ensures forall k :: 0 < k < KEY_BITS ==> r.fingers[k] == node.fingers[k]
  {
    node.(fingers := node.fingers[0 := s])
  }

  function EmptyTable(): FingerTable {
    seq(KEY_BITS, _ => None)
  }

  /** A node that has just joined with successor s, or has just created a ring with itself as s. */
  function Joined(s: Id): (r: Node)
    ensures Succ(r) == Some(s) && r.pred == None
    ensures forall k :: 0 < k < KEY_BITS ==> r.fingers[k] == None
  {
    Node(EmptyTable()[0 := Some(s)], None)
  }

  /** The highest finger strictly between this node and the id. */
  function ClosestPreceding(self: Id, fingers: seq<Option<Id>>, id: Id): (r: Option<Id>)
    ensures r.None? <==> forall f :: Some(f) in fingers ==> !Inside(self, f, id)
    ensures r.Some? ==> r in fingers && Inside(self, r.value, id)
  {
    if |fingers| == 0 then None
    else
      var last := |fingers| - 1;
      assert fingers == fingers[..last] + [fingers[last]];
      if fingers[last].Some? && Inside(self, fingers[last].value, id) then fingers[last]
      else ClosestPreceding(self, fingers[..last], id)
  }

  /** ClosestPreceding takes the highest index that qualifies. */
  lemma {:induction false} ClosestPrecedingIsHighest(self: Id, fingers: seq<Option<Id>>, id: Id, k: nat)
    requires k < |fingers| && fingers[k].Some? && Inside(self, fingers[k].value, id)
    requires forall i :: k < i < |fingers| && fingers[i].Some? ==> !Inside(self, fingers[i].value, id)
    ensures ClosestPreceding(self, fingers, id) == fingers[k]
  {
    if k < |fingers| - 1 {
      ClosestPrecedingIsHighest(self, fingers[..|fingers| - 1], id, k);
    }
  }

  /** What a node can answer to a lookup without asking for a way further. */
  function OwnAnswer(self: Id, node: Node, id: Id): Option<Id> {
    if node.pred.Some? && Upto(node.pred.value, id, self) then Some(self)
    else if Succ(node).Some? && Upto(self, id, Succ(node).value) then Succ(node)
    else None
  }

  /**
    Whether s may come out of asking this node: either its own answer, or its successor when
    the asking node does the responsibility test on the successor the node reports.
   */
  predicate MayAnswer(self: Id, node: Node, id: Id, s: Id) {
    OwnAnswer(self, node, id) == Some(s) || (Succ(node) == Some(s) && Upto(self, id, s))
  }

  /** Taking a notification: a predecessor only ever moves closer. */
  function Notified(self: Id, node: Node, from: Id): Node {
    if node.pred.None? || Inside(node.pred.value, from, self) then node.(pred := Some(from)) else node
  }

  /**
    A stabilize round once the successor has told its predecessor: the new state
    and whom to notify, if anybody.
   */
  function Stabilized(self: Id, node: Node, reply: Option<Id>): (Node, Option<Id>) {
    if Succ(node).None? || reply == Some(self) then (node, None)
    else if reply.Some? && Inside(self, reply.value, Succ(node).value) then (SetSuccessor(node, reply), reply)
    else (node, Succ(node))
  }

  /** The point finger k aims at. */
  function Start(self: Id, k: nat): Id {
    Ahead(self, Pow2(k))
  }
}
