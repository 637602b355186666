/**
  The maintenance protocol of a whole ring in a failure-free run: one node creates the
  ring, others join through a lookup, and all of them stabilize, take notifications and
  fix fingers in any interleaving. Messages are kept once sent, so that a step may use
  any message ever sent: late, reordered and repeated delivery are all covered.

  Nodes join on answers of lookups that were passed on, and on answers of the default lookup
  whose reporting member has the id between itself and the successor it reports; every default
  lookup that distrusted nobody is one of those. JoinIsSafeExactlyWhen says which other
  answers of the default lookup a node could join on.
 */
module Protocol {
  import opened Options
  import opened Ring
  import opened Pointers

  type Nodes = map<Id, Node>

  datatype Net = Net(
    base: Id,                         // the node that created the ring
    nodes: Nodes,                     // the members and their routing state
    lookups: set<(Id, Id)>,           // (at, id): a lookup of id has arrived at a member
    answers: set<(Id, Id)>,           // (id, s): some member answered s to a lookup of id
    replies: set<(Id, Option<Id>)>,   // (s, p): s reported p as its predecessor
    notices: set<(Id, Id)>)           // (x, n): x notified n of its existence

  datatype Step =
    | Ask(at: Id, id: Id)                        // somebody asks a member to look up id
    | Forward(at: Id, id: Id)                    // the member passes the lookup on
    | Answer(at: Id, id: Id, s: Id)              // the member answers it
    | Join(n: Id, s: Id)                         // n joins with the successor its lookup named
    | Report(s: Id)                              // s answers a getPredecessor request
    | Digest(n: Id, reply: Option<Id>)           // n finishes reading its successor's predecessor
    | Deliver(from: Id, to: Id)                  // a notification arrives
    | FixFinger(n: Id, k: nat, outcome: Option<Id>) // n stores the outcome of a finger lookup

  function Initial(base: Id): Net {
    Net(base, map[base := Joined(base)], {}, {}, {}, {})
  }

  predicate Enabled(net: Net, step: Step) {
    match step
    case Ask(at, id) => at in net.nodes
    case Forward(at, id) =>
      && (at, id) in net.lookups && at in net.nodes
      && OwnAnswer(at, net.nodes[at], id).None?
      && ClosestPreceding(at, net.nodes[at].fingers, id).Some?
    case Answer(at, id, s) =>
      (at, id) in net.lookups && at in net.nodes && MayAnswer(at, net.nodes[at], id, s)
    case Join(n, s) => n !in net.nodes && (n, s) in net.answers
    case Report(s) => s in net.nodes
    case Digest(n, reply) =>
      && n in net.nodes
      && Succ(net.nodes[n]).Some?
      && (Succ(net.nodes[n]).value, reply) in net.replies
    case Deliver(from, to) => (from, to) in net.notices && to in net.nodes
    case FixFinger(n, k, s) =>
      && n in net.nodes && k < KEY_BITS
      // The lookup starts at n itself, which always answers for the first finger.
      && (k == 0 ==> s.Some? && s == OwnAnswer(n, net.nodes[n], Start(n, 0)))
      // Other fingers may receive any member, or nothing when the lookup failed.
      && (k > 0 && s.Some? ==> s.value in net.nodes)
  }

  function Apply(net: Net, step: Step): Net
    requires Enabled(net, step)
  {
    match step
    case Ask(at, id) => net.(lookups := net.lookups + {(at, id)})
    case Forward(at, id) =>
      var next := ClosestPreceding(at, net.nodes[at].fingers, id).value;
      net.(lookups := net.lookups + {(next, id)})
    case Answer(at, id, s) => net.(answers := net.answers + {(id, s)})
    case Join(n, s) => net.(nodes := net.nodes[n := Joined(s)])
    case Report(s) => net.(replies := net.replies + {(s, net.nodes[s].pred)})
    case Digest(n, reply) =>
      var (node, target) := Stabilized(n, net.nodes[n], reply);
      net.(nodes := net.nodes[n := node],
           notices := if target.Some? then net.notices + {(n, target.value)} else net.notices)
    case Deliver(from, to) => net.(nodes := net.nodes[to := Notified(to, net.nodes[to], from)])
    case FixFinger(n, k, s) =>
      net.(nodes := net.nodes[n := net.nodes[n].(fingers := net.nodes[n].fingers[k := s])])
  }

  predicate ValidRun(net: Net, steps: seq<Step>)
    decreases |steps|
  {
    |steps| > 0 ==> Enabled(net, steps[0]) && ValidRun(Apply(net, steps[0]), steps[1..])
  }

  function Exec(net: Net, steps: seq<Step>): Net
    requires ValidRun(net, steps)
    decreases |steps|
  {
    if |steps| == 0 then net else Exec(Apply(net, steps[0]), steps[1..])
  }

  /** The states of the ring that base created, over all failure-free runs whose joins use the answers above. */
  ghost predicate Reachable(base: Id, net: Net) {
    exists steps :: ValidRun(Initial(base), steps) && Exec(Initial(base), steps) == net
  }

  // ---- The invariant ----

  /** Walking clockwise from id, s is met no later than base. */
  predicate NoLaterThan(id: Id, s: Id, base: Id) {
    Gap(id, s) <= Gap(id, base)
  }

  /** The pointers of one member: they name members, and neither arc jumps over base. */
  ghost predicate GoodNode(base: Id, members: set<Id>, n: Id, node: Node) {
    && node.fingers[0].Some?
    && (forall i :: 0 <= i < KEY_BITS && node.fingers[i].Some? ==> node.fingers[i].value in members)
    && !Inside(n, base, node.fingers[0].value)
    && (node.pred.Some? ==> node.pred.value in members && !Inside(node.pred.value, base, n))
    && (node.pred == Some(n) ==> node.fingers[0] == Some(n))
  }

  ghost predicate GoodNodes(base: Id, nodes: Nodes) {
    && base in nodes
    && forall n {:trigger GoodNode(base, nodes.Keys, n, nodes[n])} ::
         n in nodes ==> GoodNode(base, nodes.Keys, n, nodes[n])
  }

  ghost predicate GoodMessages(net: Net) {
    && (forall m :: m in net.lookups ==> m.0 in net.nodes)
    && (forall m :: m in net.answers ==> m.1 in net.nodes && NoLaterThan(m.0, m.1, net.base))
    && (forall m :: m in net.replies ==> GoodReply(net.nodes, m.0, m.1))
    && (forall m :: m in net.notices ==> GoodNotice(net.base, net.nodes, m.0, m.1))
  }

  /** A reported predecessor is a member, and by now the reporter's predecessor is at least as close. */
  predicate GoodReply(nodes: Nodes, s: Id, p: Option<Id>) {
    && s in nodes
    && (p.Some? ==>
          && p.value in nodes
          && nodes[s].pred.Some?
          && Dist(nodes[s].pred.value, s) <= Dist(p.value, s))
  }

  predicate GoodNotice(base: Id, nodes: Nodes, x: Id, n: Id) {
    && x in nodes && n in nodes
    && !Inside(x, base, n)
    && (x == n ==> nodes[n].fingers[0] == Some(n) || nodes[n].pred.Some?)
  }

  ghost predicate Inv(net: Net) {
    GoodNodes(net.base, net.nodes) && GoodMessages(net)
  }

  // ---- What one node does keeps the invariant ----

  lemma AnswerDoesNotSkipBase(base: Id, members: set<Id>, n: Id, node: Node, id: Id, s: Id)
    requires GoodNode(base, members, n, node) && n in members
    requires MayAnswer(n, node, id, s)
    ensures s in members && NoLaterThan(id, s, base)
  {
  }

  /** A member asked for the id right after its own names its current successor. */
  lemma FirstFingerIsKept(base: Id, members: set<Id>, n: Id, node: Node)
    requires GoodNode(base, members, n, node)
    ensures OwnAnswer(n, node, Start(n, 0)) == node.fingers[0] == Succ(node)
  {
  }

  lemma DigestKeepsNode(net: Net, n: Id, reply: Option<Id>)
    requires Inv(net) && Enabled(net, Digest(n, reply))
    ensures var (node, target) := Stabilized(n, net.nodes[n], reply);
      && GoodNode(net.base, net.nodes.Keys, n, node)
      && node.pred == net.nodes[n].pred
      && (node.fingers[0] != net.nodes[n].fingers[0] && net.nodes[n].fingers[0] == Some(n) ==> node.pred.Some?)
      && (target.Some? ==> target.value in net.nodes && node.fingers[0] == target)
  {
    var before := net.nodes[n];
    assert GoodNode(net.base, net.nodes.Keys, n, net.nodes[n]);
    var (node, target) := Stabilized(n, before, reply);
    assert GoodReply(net.nodes, before.fingers[0].value, reply) by {
      assert (before.fingers[0].value, reply) in net.replies;
    }
  }

  lemma NotifiedKeepsNode(net: Net, x: Id, n: Id)
    requires Inv(net) && (x, n) in net.notices && n in net.nodes
    ensures GoodNode(net.base, net.nodes.Keys, n, Notified(n, net.nodes[n], x))
    ensures Notified(n, net.nodes[n], x).fingers == net.nodes[n].fingers
    ensures net.nodes[n].pred.Some? ==>
              var after := Notified(n, net.nodes[n], x).pred;
              after.Some? && Dist(after.value, n) <= Dist(net.nodes[n].pred.value, n)
  {
    assert GoodNode(net.base, net.nodes.Keys, n, net.nodes[n]);
    assert GoodNotice(net.base, net.nodes, (x, n).0, (x, n).1);
  }

  lemma FixedFingerKeepsNode(net: Net, n: Id, k: nat, s: Option<Id>)
    requires Inv(net) && Enabled(net, FixFinger(n, k, s))
    ensures var node := net.nodes[n].(fingers := net.nodes[n].fingers[k := s]);
      && GoodNode(net.base, net.nodes.Keys, n, node)
      && node.pred == net.nodes[n].pred && node.fingers[0] == net.nodes[n].fingers[0]
  {
    var before := net.nodes[n];
    assert GoodNode(net.base, net.nodes.Keys, n, net.nodes[n]);
    FirstFingerIsKept(net.base, net.nodes.Keys, n, before);
    var node := before.(fingers := before.fingers[k := s]);
  }

  /** Replacing the state of one member, when nothing a message relies on is lost. */
  lemma ReplaceKeepsInv(net: Net, n: Id, node: Node)
    requires Inv(net) && n in net.nodes
    requires GoodNode(net.base, net.nodes.Keys, n, node)
    requires net.nodes[n].pred.Some? ==>
               node.pred.Some? && Dist(node.pred.value, n) <= Dist(net.nodes[n].pred.value, n)
    requires node.fingers[0] == net.nodes[n].fingers[0] || net.nodes[n].fingers[0] != Some(n) || node.pred.Some?
    ensures Inv(net.(nodes := net.nodes[n := node]))
  {
    var after := net.(nodes := net.nodes[n := node]);
    assert after.nodes.Keys == net.nodes.Keys;
  }

  lemma StepKeepsInv(net: Net, step: Step)
    requires Inv(net) && Enabled(net, step)
    ensures Inv(Apply(net, step))
  {
    match step
    case Ask(at, id) =>
    case Forward(at, id) =>
      assert GoodNode(net.base, net.nodes.Keys, at, net.nodes[at]);
      assert ClosestPreceding(at, net.nodes[at].fingers, id) in net.nodes[at].fingers;
    case Answer(at, id, s) =>
      assert GoodNode(net.base, net.nodes.Keys, at, net.nodes[at]);
      AnswerDoesNotSkipBase(net.base, net.nodes.Keys, at, net.nodes[at], id, s);
    case Join(n, s) =>
      assert (n, s).1 in net.nodes && NoLaterThan((n, s).0, (n, s).1, net.base);
      JoinKeepsInv(net, n, s);
    case Report(s) =>
      assert GoodNode(net.base, net.nodes.Keys, s, net.nodes[s]);
    case Digest(n, reply) =>
      DigestKeepsNode(net, n, reply);
      var (node, target) := Stabilized(n, net.nodes[n], reply);
      ReplaceKeepsInv(net, n, node);
      var moved := net.(nodes := net.nodes[n := node]);
      assert target.Some? ==> GoodNotice(net.base, moved.nodes, n, target.value);
    case Deliver(from, to) =>
      NotifiedKeepsNode(net, from, to);
      ReplaceKeepsInv(net, to, Notified(to, net.nodes[to], from));
    case FixFinger(n, k, s) =>
      FixedFingerKeepsNode(net, n, k, s);
      ReplaceKeepsInv(net, n, net.nodes[n].(fingers := net.nodes[n].fingers[k := s]));
  }

  /** What messages rely on is not touched by a newcomer. */
  lemma MessagesOutliveJoin(net: Net, n: Id, node: Node)
    requires GoodMessages(net) && n !in net.nodes
    ensures GoodMessages(net.(nodes := net.nodes[n := node]))
  {
  }

  lemma JoinKeepsInv(net: Net, n: Id, s: Id)
    requires Inv(net) && n !in net.nodes
    requires s in net.nodes && NoLaterThan(n, s, net.base)
    ensures Inv(net.(nodes := net.nodes[n := Joined(s)]))
  {
    var after := net.nodes[n := Joined(s)];
    assert after.Keys == net.nodes.Keys + {n};
    assert GoodNode(net.base, after.Keys, n, after[n]);
    forall m {:trigger GoodNode(net.base, after.Keys, m, after[m])} | m in net.nodes
      ensures GoodNode(net.base, after.Keys, m, after[m])
    {
      assert GoodNode(net.base, net.nodes.Keys, m, net.nodes[m]);
    }
    MessagesOutliveJoin(net, n, Joined(s));
  }

  /** When the successor s that a member n reports comes before base on the way from id. */
  lemma ReportSkipsBaseExactlyWhen(base: Id, members: set<Id>, n: Id, node: Node, id: Id, s: Id)
    requires GoodNode(base, members, n, node) && Succ(node) == Some(s)
    ensures NoLaterThan(id, s, base) <==> Upto(n, id, s) || Gap(s, base) < Gap(s, id)
  {
  }

  /**
    Joining on a successor that any member reports, as the default lookup may have it, keeps
    the ring exactly when the id lies between that member and its successor, or else the
    creating node lies between the successor and the id.
   */
  lemma JoinIsSafeExactlyWhen(net: Net, n: Id, at: Id, s: Id)
    requires Inv(net) && n !in net.nodes && at in net.nodes && Succ(net.nodes[at]) == Some(s)
    ensures Inv(net.(nodes := net.nodes[n := Joined(s)]))
       <==> Upto(at, n, s) || Gap(s, net.base) < Gap(s, n)
  {
    assert GoodNode(net.base, net.nodes.Keys, at, net.nodes[at]);
    ReportSkipsBaseExactlyWhen(net.base, net.nodes.Keys, at, net.nodes[at], n, s);
    var after := net.(nodes := net.nodes[n := Joined(s)]);
    if NoLaterThan(n, s, net.base) {
      JoinKeepsInv(net, n, s);
    } else {
      assert !GoodNode(net.base, after.nodes.Keys, n, after.nodes[n]);
    }
  }

  lemma InitialInv(base: Id)
    ensures Inv(Initial(base))
  {
  }

  lemma {:induction false} RunKeepsInv(net: Net, steps: seq<Step>)
    requires Inv(net) && ValidRun(net, steps)
    ensures Inv(Exec(net, steps))
    ensures Exec(net, steps).base == net.base && net.nodes.Keys <= Exec(net, steps).nodes.Keys
    decreases |steps|
  {
    if |steps| > 0 {
      StepKeepsInv(net, steps[0]);
      RunKeepsInv(Apply(net, steps[0]), steps[1..]);
    }
  }

  lemma ReachableInv(base: Id, net: Net)
    requires Reachable(base, net)
    ensures Inv(net) && net.base == base
  {
    var steps :| ValidRun(Initial(base), steps) && Exec(Initial(base), steps) == net;
    InitialInv(base);
    RunKeepsInv(Initial(base), steps);
  }

  /** Runs can be put together. */
  lemma {:induction false} RunConcat(net: Net, first: seq<Step>, second: seq<Step>)
    requires ValidRun(net, first) && ValidRun(Exec(net, first), second)
    ensures ValidRun(net, first + second) && Exec(net, first + second) == Exec(Exec(net, first), second)
    decreases |first|
  {
    if |first| == 0 {
      assert first + second == second;
    } else {
      assert (first + second)[1..] == first[1..] + second;
      RunConcat(Apply(net, first[0]), first[1..], second);
    }
  }

  lemma ReachableRun(base: Id, net: Net, steps: seq<Step>)
    requires Reachable(base, net) && ValidRun(net, steps)
    ensures Reachable(base, Exec(net, steps))
  {
    var before :| ValidRun(Initial(base), before) && Exec(Initial(base), before) == net;
    RunConcat(Initial(base), before, steps);
  }

  lemma ReachableStep(base: Id, net: Net, step: Step)
    requires Reachable(base, net) && Enabled(net, step)
    ensures Reachable(base, Apply(net, step))
  {
    assert Exec(net, [step]) == Apply(net, step);
    ReachableRun(base, net, [step]);
  }

  // ---- Main safety results ----

  /** Whatever run the ring made since its creation, no pointer arc ever jumps over the creating node. */
  lemma BaseIsNeverSkipped(base: Id, net: Net, n: Id)
    requires Reachable(base, net) && n in net.nodes
    ensures var node := net.nodes[n];
      && Succ(node).Some? && Succ(node).value in net.nodes && !Inside(n, base, Succ(node).value)
      && (node.pred.Some? ==> node.pred.value in net.nodes && !Inside(node.pred.value, base, n))
  {
    ReachableInv(base, net);
    assert GoodNode(net.base, net.nodes.Keys, n, net.nodes[n]);
  }

  /** The members met when following successors from n until base. */
  ghost function PathToBase(base: Id, nodes: Nodes, n: Id): (path: seq<Id>)
    requires GoodNodes(base, nodes) && n in nodes
    ensures |path| > 0 && path[0] == n && path[|path| - 1] == base
    ensures forall i :: 0 <= i < |path| ==> path[i] in nodes
    ensures forall i :: 0 <= i < |path| - 1 ==>
              Succ(nodes[path[i]]) == Some(path[i + 1]) && Gap(path[i + 1], base) < Gap(path[i], base)
    decreases Gap(n, base)
  {
    if n == base then [n]
    else
      assert GoodNode(base, nodes.Keys, n, nodes[n]);
      var s := nodes[n].fingers[0].value;
      [n] + PathToBase(base, nodes, s)
  }

  /** A ring is never split: following successors from any member reaches the creating node. */
  lemma RingIsNeverSplit(base: Id, net: Net, n: Id)
    requires Reachable(base, net) && n in net.nodes
    ensures exists path: seq<Id> :: IsSuccessorPath(net.nodes, path, n, base)
  {
    ReachableInv(base, net);
    assert IsSuccessorPath(net.nodes, PathToBase(base, net.nodes, n), n, base);
  }

  predicate IsSuccessorPath(nodes: Nodes, path: seq<Id>, from: Id, to: Id) {
    && |path| > 0 && path[0] == from && path[|path| - 1] == to
    && (forall i :: 0 <= i < |path| ==> path[i] in nodes)
    && (forall i :: 0 <= i < |path| - 1 ==> Succ(nodes[path[i]]) == Some(path[i + 1]))
  }

  ghost predicate CanAnswer(net: Net, at: Id, id: Id) {
    exists s :: Enabled(net, Answer(at, id, s))
  }

  /**
    A lookup in flight in a ring that keeps changing: wherever it is, the member holding it
    either answers, without skipping the creating node, or passes it on to a member strictly
    closer to the id.
   */
  lemma LookupsMakeProgress(base: Id, net: Net, at: Id, id: Id)
    requires Reachable(base, net) && (at, id) in net.lookups
    ensures
      && at in net.nodes
      && (Enabled(net, Forward(at, id)) || CanAnswer(net, at, id))
      && (forall s :: Enabled(net, Answer(at, id, s)) ==> s in net.nodes && NoLaterThan(id, s, base))
      && (Enabled(net, Forward(at, id)) ==>
            var next := ClosestPreceding(at, net.nodes[at].fingers, id).value;
            next in net.nodes && Dist(next, id) < Dist(at, id))
  {
    ReachableInv(base, net);
    assert (at, id).0 in net.nodes;
    var node := net.nodes[at];
    assert GoodNode(base, net.nodes.Keys, at, node);
    forall s | Enabled(net, Answer(at, id, s))
      ensures s in net.nodes && NoLaterThan(id, s, base)
    {
      AnswerDoesNotSkipBase(base, net.nodes.Keys, at, node, id, s);
    }
    if OwnAnswer(at, node, id).Some? {
      assert Enabled(net, Answer(at, id, OwnAnswer(at, node, id).value));
    } else {
      assert Some(node.fingers[0].value) in node.fingers;
      assert Inside(at, node.fingers[0].value, id);
    }
  }

  // ---- A lookup over a whole run ----

  /** Along the run the lookup of id is handed from each member of the path to the next, with anything in between. */
  predicate Carried(net: Net, steps: seq<Step>, id: Id, path: seq<Id>)
    requires ValidRun(net, steps)
    decreases |steps|
  {
    && |path| > 0
    && if |steps| == 0 then |path| == 1
       else
         || Carried(Apply(net, steps[0]), steps[1..], id, path)
         || (|path| > 1 && Hands(net, steps[0], id, path[0], path[1])
             && Carried(Apply(net, steps[0]), steps[1..], id, path[1..]))
  }

  /** The step is the one in which `from` passes the lookup on to `to`. */
  predicate Hands(net: Net, step: Step, id: Id, from: Id, to: Id)
    requires Enabled(net, step)
  {
    step == Forward(from, id) && ClosestPreceding(from, net.nodes[from].fingers, id) == Some(to)
  }

  /** Members of a ring, each strictly closer to the id than the one before. */
  predicate Approach(members: set<Id>, path: seq<Id>, id: Id) {
    && (forall i :: 0 <= i < |path| ==> path[i] in members)
    && (forall i, j :: 0 <= i < j < |path| ==> Dist(path[j], id) < Dist(path[i], id))
  }

  lemma {:induction false} CarriedApproaches(net: Net, steps: seq<Step>, id: Id, path: seq<Id>)
    requires Inv(net) && ValidRun(net, steps) && Carried(net, steps, id, path) && (path[0], id) in net.lookups
    ensures var after := Exec(net, steps);
            Approach(after.nodes.Keys, path, id) && (path[|path| - 1], id) in after.lookups
    decreases |steps|
  {
    if |steps| == 0 {
      assert (path[0], id).0 in net.nodes;
    } else {
      StepKeepsInv(net, steps[0]);
      var next, rest := Apply(net, steps[0]), steps[1..];
      if Carried(next, rest, id, path) {
        CarriedApproaches(next, rest, id, path);
      } else {
        CarriedApproaches(next, rest, id, path[1..]);
        RunKeepsInv(next, rest);
        FirstIsFarthest(Exec(next, rest).nodes.Keys, path, id);
      }
    }
  }

  lemma FirstIsFarthest(members: set<Id>, path: seq<Id>, id: Id)
    requires |path| > 1 && path[0] in members && Dist(path[1], id) < Dist(path[0], id)
    requires Approach(members, path[1..], id)
    ensures Approach(members, path, id)
  {
    forall i | 0 <= i < |path|
      ensures path[i] in members
      ensures i > 0 ==> Dist(path[i], id) < Dist(path[0], id)
    {
      if i > 0 { assert path[i] == path[1..][i - 1]; }
    }
    forall i, j | 0 <= i < j < |path|
      ensures Dist(path[j], id) < Dist(path[i], id)
    {
      if i > 0 { assert path[i] == path[1..][i - 1] && path[j] == path[1..][j - 1]; }
    }
  }

  lemma ApproachOneMore(members: set<Id>, path: seq<Id>, next: Id, id: Id)
    requires |path| > 0 && Approach(members, path, id)
    requires next in members && Dist(next, id) < Dist(path[|path| - 1], id)
    ensures Approach(members, path + [next], id)
  {
  }

  lemma {:induction false} ApproachIsShort(members: set<Id>, path: seq<Id>, id: Id)
    requires Approach(members, path, id)
    ensures |path| <= |members|
    decreases |path|
  {
    if |path| > 0 {
      var last := |path| - 1;
      ApproachIsShort(members - {path[last]}, path[..last], id);
    }
  }

  /**
    In a ring that keeps changing and growing, a lookup visits no member twice and so is handed
    on fewer times than there are members at the end; and once it has visited as many as there
    are, the member holding it can answer.
   */
  lemma LookupsAreAnswered(base: Id, net: Net, steps: seq<Step>, id: Id, path: seq<Id>)
    requires Reachable(base, net) && ValidRun(net, steps)
    requires Carried(net, steps, id, path) && (path[0], id) in net.lookups
    ensures var after := Exec(net, steps);
      && |path| <= |after.nodes.Keys|
      && (|path| == |after.nodes.Keys| ==> CanAnswer(after, path[|path| - 1], id))
  {
    ReachableInv(base, net);
    CarriedApproaches(net, steps, id, path);
    ReachableRun(base, net, steps);
    var after := Exec(net, steps);
    var at := path[|path| - 1];
    ApproachIsShort(after.nodes.Keys, path, id);
    LookupsMakeProgress(base, after, at, id);
    if Enabled(after, Forward(at, id)) {
      var next := ClosestPreceding(at, after.nodes[at].fingers, id).value;
      ApproachOneMore(after.nodes.Keys, path, next, id);
      ApproachIsShort(after.nodes.Keys, path + [next], id);
    }
  }
}
