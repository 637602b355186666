/**
  The default lookup: the asking node visits the hops itself, checks what each of them
  answers, and drops nodes that lead nowhere into a distrusted set.
 */
module LocalLookup {
  import opened Options
  import opened Ring
  import opened Bytes
  import opened Pointers
  import opened Protocol
  import opened IdealRing
  import opened Lookup

  /** What a hop answers: its closest preceding finger for the asked id, and its direct successor. */
  datatype Pair = Pair(preceding: Option<Id>, successor: Option<Id>)

  /**
    The asking node's check of an answer from `node` about `id`. A preceding node must lie
    between them; a successor other than the asking node itself must have a predecessor p
    with id in (p, node].
   */
  function Checked(self: Id, node: Id, id: Id, raw: Pair, predOfSuccessor: Option<Id>): Pair {
    Pair(
      if raw.preceding.Some? && !Inside(node, raw.preceding.value, id) then None else raw.preceding,
      if raw.successor == Some(self) then None
      else if raw.successor.Some? && (predOfSuccessor.None? || !Upto(predOfSuccessor.value, id, node)) then None
      else raw.successor)
  }

  predicate NamesDistrusted(answer: Pair, distrusted: set<Id>) {
    answer.preceding.Some? && answer.preceding.value in distrusted
  }

  // ---- Asking one hop, again and again while it names distrusted nodes ----

  /** The outcome of asking a hop that gives these answers one after the other; None while it is still being asked. */
  function AskOn(answers: seq<Pair>, distrusted: set<Id>): (r: Option<Pair>)
    ensures r.Some? ==> r.value in answers && !NamesDistrusted(r.value, distrusted)
  {
    if |answers| == 0 then None
    else if NamesDistrusted(answers[0], distrusted) then AskOn(answers[1..], distrusted)
    else Some(answers[0])
  }

  /** Whatever a hop answers, asking it ends exactly when it once names nobody distrusted. */
  lemma {:induction false} AskingEndsExactlyWhen(answers: seq<Pair>, distrusted: set<Id>)
    ensures AskOn(answers, distrusted).Some?
       <==> exists i :: 0 <= i < |answers| && !NamesDistrusted(answers[i], distrusted)
  {
    if |answers| > 0 && NamesDistrusted(answers[0], distrusted) {
      AskingEndsExactlyWhen(answers[1..], distrusted);
      if i :| 0 <= i < |answers| && !NamesDistrusted(answers[i], distrusted) {
        assert answers[1..][i - 1] == answers[i];
      }
      if i :| 0 <= i < |answers[1..]| && !NamesDistrusted(answers[1..][i], distrusted) {
        assert answers[i + 1] == answers[1..][i];
      }
    }
  }

  /** And it ends with the first such answer. */
  lemma {:induction false} AskingEndsWithFirst(answers: seq<Pair>, distrusted: set<Id>, i: nat)
    requires i < |answers| && !NamesDistrusted(answers[i], distrusted)
    requires forall j :: 0 <= j < i ==> NamesDistrusted(answers[j], distrusted)
    ensures AskOn(answers, distrusted) == Some(answers[i])
  {
    if i > 0 {
      AskingEndsWithFirst(answers[1..], distrusted, i - 1);
    }
  }

  /** A hop that keeps naming one distrusted node between itself and the id is asked forever. */
  lemma StubbornHopIsAskedForever(self: Id, node: Id, id: Id, raw: Pair, p: Option<Id>, distrusted: set<Id>,
                                  rounds: nat)
    requires NamesDistrusted(raw, distrusted) && Inside(node, raw.preceding.value, id)
    ensures AskOn(seq(rounds, _ => Checked(self, node, id, raw, p)), distrusted).None?
  {
    AskingEndsExactlyWhen(seq(rounds, _ => Checked(self, node, id, raw, p)), distrusted);
  }

  /** What a hop sends back: an answer, and what the successor it names reports as its predecessor. */
  datatype Raw = Raw(answer: Pair, pred: Option<Id>)

  function CheckedAll(self: Id, node: Id, id: Id, raws: seq<Raw>): (r: seq<Pair>)
    ensures |r| == |raws| && forall i :: 0 <= i < |r| ==> r[i] == Checked(self, node, id, raws[i].answer, raws[i].pred)
  {
    seq(|raws|, i requires 0 <= i < |raws| => Checked(self, node, id, raws[i].answer, raws[i].pred))
  }

  /** The successor was named in one of the answers, and passed the check. */
  predicate PassedCheck(self: Id, node: Id, id: Id, raws: seq<Raw>, s: Option<Id>) {
    exists i :: 0 <= i < |raws| && raws[i].answer.successor == s && s != Some(self)
                && raws[i].pred.Some? && Upto(raws[i].pred.value, id, node)
  }

  /**
    The outcome of asking a hop that sends back whatever it likes; once it falls silent the
    request fails, which counts as an empty answer.
   */
  function AskAnybody(self: Id, node: Id, id: Id, raws: seq<Raw>, distrusted: set<Id>): (r: Pair)
    ensures r.preceding.Some? ==> Inside(node, r.preceding.value, id) && r.preceding.value !in distrusted
    ensures r.successor.Some? ==> PassedCheck(self, node, id, raws, r.successor)
  {
    var answers := CheckedAll(self, node, id, raws);
    var outcome := AskOn(answers, distrusted);
    assert outcome.Some? ==> exists i :: 0 <= i < |answers| && answers[i] == outcome.value;
    if outcome.Some? then outcome.value else Pair(None, None)
  }

  /** The first answer that, checked, names nobody distrusted is the outcome; without one nothing comes of it. */
  lemma AskAnybodyTakesFirst(self: Id, node: Id, id: Id, raws: seq<Raw>, distrusted: set<Id>, i: nat)
    requires i <= |raws|
    requires forall j :: 0 <= j < i ==>
               NamesDistrusted(Checked(self, node, id, raws[j].answer, raws[j].pred), distrusted)
    requires i < |raws| ==> !NamesDistrusted(Checked(self, node, id, raws[i].answer, raws[i].pred), distrusted)
    ensures AskAnybody(self, node, id, raws, distrusted)
         == if i < |raws| then Checked(self, node, id, raws[i].answer, raws[i].pred) else Pair(None, None)
  {
    var answers := CheckedAll(self, node, id, raws);
    if i < |raws| {
      AskingEndsWithFirst(answers, distrusted, i);
    } else {
      AskingEndsExactlyWhen(answers, distrusted);
    }
  }

  /** A hop that answers, at any time, with a node strictly between itself and the id it was asked for. */
  ghost predicate AnswersCloser(ask: (nat, Id) -> Pair, node: Id) {
    forall time, asked :: ask(time, asked).preceding.Some? ==> Inside(node, ask(time, asked).preceding.value, asked)
  }

  /** Asking such a hop: every further question aims at a point strictly closer to it, so it ends. */
  function Ask(ask: (nat, Id) -> Pair, time: nat, node: Id, asked: Id, distrusted: set<Id>): (r: Pair)
    requires AnswersCloser(ask, node)
    ensures !NamesDistrusted(r, distrusted)
    ensures exists t, a :: r == ask(t, a)
    decreases Dist(node, asked)
  {
    var answer := ask(time, asked);
    if NamesDistrusted(answer, distrusted) then Ask(ask, time + 1, node, answer.preceding.value, distrusted)
    else answer
  }

  /** To question i the hop named a distrusted node, and question i + 1 is about that node. */
  predicate FollowsUp(ask: (nat, Id) -> Pair, time: nat, distrusted: set<Id>, questions: seq<Id>, i: nat)
    requires i + 1 < |questions|
  {
    var answer := ask(time + i, questions[i]);
    NamesDistrusted(answer, distrusted) && answer.preceding == Some(questions[i + 1])
  }

  /**
    The questions put to a hop: the first is about the given id, each further one follows up
    on the answer before, and the last answer names nobody distrusted.
   */
  ghost predicate Dialogue(ask: (nat, Id) -> Pair, time: nat, asked: Id, distrusted: set<Id>, questions: seq<Id>) {
    && |questions| > 0 && questions[0] == asked
    && (forall i {:trigger FollowsUp(ask, time, distrusted, questions, i)} ::
          0 <= i < |questions| - 1 ==> FollowsUp(ask, time, distrusted, questions, i))
    && !NamesDistrusted(ask(time + |questions| - 1, questions[|questions| - 1]), distrusted)
  }

  lemma DialogueRest(ask: (nat, Id) -> Pair, time: nat, asked: Id, distrusted: set<Id>, questions: seq<Id>)
    requires Dialogue(ask, time, asked, distrusted, questions) && |questions| > 1
    ensures NamesDistrusted(ask(time, asked), distrusted)
    ensures Dialogue(ask, time + 1, ask(time, asked).preceding.value, distrusted, questions[1..])
  {
    var rest := questions[1..];
    assert FollowsUp(ask, time, distrusted, questions, 0);
    forall i {:trigger FollowsUp(ask, time + 1, distrusted, rest, i)} | 0 <= i < |rest| - 1
      ensures FollowsUp(ask, time + 1, distrusted, rest, i)
    {
      assert FollowsUp(ask, time, distrusted, questions, i + 1);
    }
  }

  /** Whatever dialogue there is with such a hop, asking it returns the last answer. */
  lemma {:induction false} AskIsTheDialogue(ask: (nat, Id) -> Pair, time: nat, node: Id, asked: Id,
                                            distrusted: set<Id>, questions: seq<Id>)
    requires AnswersCloser(ask, node) && Dialogue(ask, time, asked, distrusted, questions)
    ensures Ask(ask, time, node, asked, distrusted)
         == ask(time + |questions| - 1, questions[|questions| - 1])
    decreases |questions|
  {
    if |questions| > 1 {
      DialogueRest(ask, time, asked, distrusted, questions);
      AskIsTheDialogue(ask, time + 1, node, ask(time, asked).preceding.value, distrusted, questions[1..]);
    }
  }

  /** And there is one, whose questions come strictly closer to the hop. */
  lemma {:induction false} DialogueExists(ask: (nat, Id) -> Pair, time: nat, node: Id, asked: Id, distrusted: set<Id>)
    returns (questions: seq<Id>)
    requires AnswersCloser(ask, node)
    ensures Dialogue(ask, time, asked, distrusted, questions)
    decreases Dist(node, asked)
  {
    questions := [asked];
    var answer := ask(time, asked);
    if NamesDistrusted(answer, distrusted) {
      var rest := DialogueExists(ask, time + 1, node, answer.preceding.value, distrusted);
      questions := [asked] + rest;
      forall i {:trigger FollowsUp(ask, time, distrusted, questions, i)} | 0 <= i < |questions| - 1
        ensures FollowsUp(ask, time, distrusted, questions, i)
      {
        if i > 0 { assert FollowsUp(ask, time + 1, distrusted, rest, i - 1); }
      }
    }
  }

  // ---- The search over hops ----

  /** The outcome of asking a hop, at some time, given whom to skip. */
  type Helper = (nat, Id, set<Id>) -> Pair

  /** What the check and the skipping guarantee of every outcome, whatever peers answer. */
  ghost predicate Vetted(helper: Helper, id: Id) {
    forall time, node, distrusted ::
      var preceding := helper(time, node, distrusted).preceding;
      preceding.Some? ==> Inside(node, preceding.value, id) && preceding.value !in distrusted
  }

  /** All ids; the full turn from 0 to 0 says nothing more, it gives the comprehension a term to match on. */
  ghost function AllIds(): set<Id> {
    set i: Id | 0 <= i < RING && Upto(0, i, 0)
  }

  /** Every hop is strictly closer to the id than the one below it. */
  predicate Advancing(hops: seq<Id>, id: Id) {
    forall i, j :: 0 <= i < j < |hops| ==> Dist(hops[j], id) < Dist(hops[i], id)
  }

  predicate SearchState(hops: seq<Id>, distrusted: set<Id>, id: Id) {
    Advancing(hops, id) && forall h :: h in hops ==> h !in distrusted
  }

  datatype Outcome = Outcome(found: Option<Id>, distrusted: set<Id>, calls: nat)

  ghost function WayLeft(hops: seq<Id>, id: Id): nat {
    if |hops| == 0 then 0 else Dist(hops[|hops| - 1], id)
  }

  /** The search from a given stack of hops (last one on top) and distrusted set. */
  function Search(helper: Helper, time: nat, id: Id, hops: seq<Id>, distrusted: set<Id>): (r: Outcome)
    requires Vetted(helper, id) && SearchState(hops, distrusted, id)
    ensures distrusted <= r.distrusted
    ensures r.found.None? ==> forall h :: h in hops ==> h in r.distrusted
    ensures r.found.Some? ==>
              exists t, n, d :: helper(t, n, d) == Pair(None, r.found) && distrusted <= d <= r.distrusted
    decreases AllIds() - distrusted, WayLeft(hops, id)
  {
    if |hops| == 0 then Outcome(None, distrusted, time)
    else
      var top := |hops| - 1;
      var result := helper(time, hops[top], distrusted);
      if result.preceding.Some? then
        Search(helper, time + 1, id, hops + [result.preceding.value], distrusted)
      else if result.successor.Some? then
        assert helper(time, hops[top], distrusted) == Pair(None, result.successor);
        Outcome(result.successor, distrusted, time + 1)
      else
        assert hops[top] in AllIds() - distrusted;
        StackWithoutTop(hops, distrusted, id);
        assert hops == hops[..top] + [hops[top]];
        Search(helper, time + 1, id, hops[..top], distrusted + {hops[top]})
  }

  lemma StackWithoutTop(hops: seq<Id>, distrusted: set<Id>, id: Id)
    requires |hops| > 0 && SearchState(hops, distrusted, id)
    ensures SearchState(hops[..|hops| - 1], distrusted + {hops[|hops| - 1]}, id)
  {
    var top := |hops| - 1;
    forall h | h in hops[..top]
      ensures h !in distrusted + {hops[top]}
    {
      var i :| 0 <= i < top && hops[i] == h;
      assert Dist(hops[top], id) < Dist(hops[i], id);
    }
  }

  /** The stack and the set at one moment of a search. */
  datatype Moment = Moment(hops: seq<Id>, distrusted: set<Id>)

  /** What comes of asking the top of the stack. */
  function TopOutcome(helper: Helper, time: nat, now: Moment): Pair
    requires |now.hops| > 0
  {
    helper(time, now.hops[|now.hops| - 1], now.distrusted)
  }

  /** A hop is pushed when it was named; the top is dropped and distrusted when it led nowhere. */
  predicate Moves(before: Moment, outcome: Pair, after: Moment)
    requires |before.hops| > 0
  {
    var top := |before.hops| - 1;
    if outcome.preceding.Some?
    then after == Moment(before.hops + [outcome.preceding.value], before.distrusted)
    else outcome.successor.None? && after == Moment(before.hops[..top], before.distrusted + {before.hops[top]})
  }

  ghost predicate MovesAt(helper: Helper, trace: seq<Moment>, i: nat)
    requires i + 1 < |trace|
  {
    |trace[i].hops| > 0 && Moves(trace[i], TopOutcome(helper, i, trace[i]), trace[i + 1])
  }

  /**
    A search as it went: from the asking node alone, one outcome and one move after the other,
    advancing and never on a distrusted node.
   */
  ghost predicate GoodTrace(helper: Helper, trace: seq<Moment>, self: Id, id: Id) {
    && |trace| > 0 && trace[0] == Moment([self], {})
    && (forall i :: 0 <= i < |trace| ==> SearchState(trace[i].hops, trace[i].distrusted, id))
    && (forall i {:trigger MovesAt(helper, trace, i)} :: 0 <= i < |trace| - 1 ==> MovesAt(helper, trace, i))
  }

  /** It ends with a successor the top reported, or else only when the stack is empty. */
  ghost predicate Ends(helper: Helper, trace: seq<Moment>, found: Option<Id>)
    requires |trace| > 0
  {
    var last := |trace| - 1;
    if found.Some? then |trace[last].hops| > 0 && TopOutcome(helper, last, trace[last]) == Pair(None, found)
    else |trace[last].hops| == 0
  }

  lemma TraceOneMore(helper: Helper, trace: seq<Moment>, now: Moment, self: Id, id: Id)
    requires GoodTrace(helper, trace, self, id)
    requires SearchState(now.hops, now.distrusted, id)
    requires var last := trace[|trace| - 1];
             |last.hops| > 0 && Moves(last, TopOutcome(helper, |trace| - 1, last), now)
    ensures GoodTrace(helper, trace + [now], self, id)
  {
    var longer := trace + [now];
    forall i {:trigger MovesAt(helper, longer, i)} | 0 <= i < |longer| - 1
      ensures MovesAt(helper, longer, i)
    {
      if i < |trace| - 1 { assert MovesAt(helper, trace, i); }
    }
  }

  /** Any such course of a search, from its start to its end, is what Search computes. */
  lemma {:induction false} SearchIsTheTrace(helper: Helper, trace: seq<Moment>, self: Id, id: Id,
                                            found: Option<Id>, i: nat)
    requires Vetted(helper, id) && GoodTrace(helper, trace, self, id) && Ends(helper, trace, found) && i < |trace|
    ensures Search(helper, i, id, trace[i].hops, trace[i].distrusted)
         == Outcome(found, trace[|trace| - 1].distrusted, if found.Some? then |trace| else |trace| - 1)
    decreases |trace| - i
  {
    if i < |trace| - 1 {
      assert MovesAt(helper, trace, i);
      SearchIsTheTrace(helper, trace, self, id, found, i + 1);
    }
  }

  /**
    The search as the program runs it, on a stack and a set. For arbitrary answers that pass
    the check the stack advances towards the id, never holds a distrusted node, and the loop ends.
   */
  method SearchLoop(self: Id, id: Id, helper: Helper)
    returns (found: Option<Id>, distrusted: set<Id>, ghost trace: seq<Moment>)
    requires Vetted(helper, id)
    ensures var r := Search(helper, 0, id, [self], {}); found == r.found && distrusted == r.distrusted
    ensures GoodTrace(helper, trace, self, id) && Ends(helper, trace, found)
    ensures trace[|trace| - 1].distrusted == distrusted
    ensures found.None? ==> self in distrusted
  {
    var hops := [self];
    distrusted := {};
    trace := [Moment(hops, distrusted)];
    var time := 0;
    while |hops| > 0
      invariant SearchState(hops, distrusted, id) && time == |trace| - 1
      invariant GoodTrace(helper, trace, self, id) && trace[time] == Moment(hops, distrusted)
      decreases AllIds() - distrusted, WayLeft(hops, id)
    {
      var current := hops[|hops| - 1];
      var result := helper(time, current, distrusted);
      time := time + 1;
      if result.preceding.Some? {
        hops := hops + [result.preceding.value];
      } else if result.successor.Some? {
        found := result.successor;
        SearchIsTheTrace(helper, trace, self, id, found, 0);
        return;
      } else {
        assert current in AllIds() - distrusted;
        StackWithoutTop(hops, distrusted, id);
        distrusted := distrusted + {current};
        hops := hops[..|hops| - 1];
      }
      TraceOneMore(helper, trace, Moment(hops, distrusted), self, id);
      trace := trace + [Moment(hops, distrusted)];
    }
    found := None;
    SearchIsTheTrace(helper, trace, self, id, found, 0);
    assert self in [self];
  }

  /** What anybody may send back, to the call at a time. */
  type Peers = (nat, Id) -> seq<Raw>

  function PeerHelper(self: Id, id: Id, peers: Peers): (h: Helper)
    ensures Vetted(h, id)
  {
    var h := (time: nat, node: Id, distrusted: set<Id>) => AskAnybody(self, node, id, peers(time, node), distrusted);
    assert forall time, node, distrusted :: h(time, node, distrusted)
                                         == AskAnybody(self, node, id, peers(time, node), distrusted);
    h
  }

  /**
    The search among peers that send back anything at all: it ends, its stack advances and
    stays free of distrusted nodes, a node it finds was named by a hop and passed the check, and
    it gives up only once the asking node itself led nowhere.
   */
  method SearchAmongAnybody(self: Id, id: Id, peers: Peers)
    returns (found: Option<Id>, distrusted: set<Id>, ghost trace: seq<Moment>)
    ensures var helper := PeerHelper(self, id, peers);
            GoodTrace(helper, trace, self, id) && Ends(helper, trace, found)
    ensures trace[|trace| - 1].distrusted == distrusted
    ensures found.None? ==> self in distrusted
    ensures found.Some? ==> exists t, n :: PassedCheck(self, n, id, peers(t, n), found)
  {
    var helper := PeerHelper(self, id, peers);
    found, distrusted, trace := SearchLoop(self, id, helper);
    if found.Some? {
      var t, n, d :| helper(t, n, d) == Pair(None, found);
      assert helper(t, n, d) == AskAnybody(self, n, id, peers(t, n), d);
    }
  }

  // ---- The search among members that follow the protocol ----

  function PredOf(nodes: Nodes, s: Option<Id>): Option<Id> {
    if s.Some? && s.value in nodes then nodes[s.value].pred else None
  }

  function MemberAnswer(nodes: Nodes, self: Id, node: Id, id: Id, asked: Id): Pair
    requires node in nodes
  {
    Checked(self, node, id,
            Pair(ClosestPreceding(node, nodes[node].fingers, asked), Succ(nodes[node])),
            PredOf(nodes, Succ(nodes[node])))
  }

  function Helps(nodes: Nodes, self: Id, node: Id, id: Id, distrusted: set<Id>): (r: Pair)
    ensures r.preceding.Some? ==> Inside(node, r.preceding.value, id) && r.preceding.value !in distrusted
    ensures node in nodes && distrusted == {} ==> r == MemberAnswer(nodes, self, node, id, id)
  {
    if node !in nodes then Pair(None, None)
    else Ask((time: nat, asked: Id) => MemberAnswer(nodes, self, node, id, asked), 0, node, id, distrusted)
  }

  function RingHelper(nodes: Nodes, self: Id, id: Id): (h: Helper)
    ensures Vetted(h, id)
  {
    (time: nat, node: Id, distrusted: set<Id>) => Helps(nodes, self, node, id, distrusted)
  }

  /** getSuccessor of a member in its default mode. */
  function GetSuccessor(nodes: Nodes, self: Id, id: Id): Outcome
    requires self in nodes
  {
    if OwnAnswer(self, nodes[self], id).Some? then Outcome(OwnAnswer(self, nodes[self], id), {}, 0)
    else Search(RingHelper(nodes, self, id), 0, id, [self], {})
  }

  lemma {:induction false} IdealSearch(nodes: Nodes, self: Id, id: Id, time: nat, hops: seq<Id>)
    requires Ideal(nodes) && FingersAreMembers(nodes) && self in nodes
    requires Owner(nodes.Keys, id) != self
    requires |hops| > 0 && Advancing(hops, id) && hops[|hops| - 1] in nodes
    ensures var r := Search(RingHelper(nodes, self, id), time, id, hops, {});
            r.found == Some(Owner(nodes.Keys, id)) && r.distrusted == {}
    decreases WayLeft(hops, id)
  {
    var n := hops[|hops| - 1];
    IdealNextHop(nodes, n, id);
    var next := ClosestPreceding(n, nodes[n].fingers, id);
    if next.Some? {
      IdealSearch(nodes, self, id, time + 1, hops + [next.value]);
    } else {
      IdealLastHop(nodes, self, n, id);
    }
  }

  /** The hop whose arc to its successor holds the id passes the responsibility check. */
  lemma IdealLastHop(nodes: Nodes, self: Id, n: Id, id: Id)
    requires Ideal(nodes) && FingersAreMembers(nodes) && n in nodes
    requires Owner(nodes.Keys, id) != self
    requires ClosestPreceding(n, nodes[n].fingers, id).None?
    ensures MemberAnswer(nodes, self, n, id, id) == Pair(None, Some(Owner(nodes.Keys, id)))
  {
    IdealNextHop(nodes, n, id);
    IdealIsMutual(nodes, n);
    assert IdealNode(nodes.Keys, n, nodes[n]);
    NeighbourArcIsOwned(nodes.Keys, n, Succ(nodes[n]).value, id);
    OwnerIsUnique(nodes.Keys, id, Succ(nodes[n]).value);
  }

  /** In an ideal ring, with any member-valued fingers, the lookup finds the owner and distrusts nobody. */
  lemma LocalIsExact(nodes: Nodes, self: Id, id: Id)
    requires Ideal(nodes) && FingersAreMembers(nodes) && self in nodes
    ensures GetSuccessor(nodes, self, id).found == Some(Owner(nodes.Keys, id))
    ensures GetSuccessor(nodes, self, id).distrusted == {}
  {
    OwnAnswerIsOwner(nodes, self, id);
    if OwnAnswer(self, nodes[self], id).None? {
      assert IdealNode(nodes.Keys, self, nodes[self]);
      NeighbourArcIsOwned(nodes.Keys, nodes[self].pred.value, self, id);
      IdealSearch(nodes, self, id, 0, [self]);
    }
  }

  /** So the two ways of looking up agree. */
  lemma LocalAgreesWithPassOn(nodes: Nodes, self: Id, id: Id)
    requires Ideal(nodes) && FingersAreMembers(nodes) && self in nodes
    ensures GetSuccessor(nodes, self, id).found == PassOn(nodes, self, id)
  {
    LocalIsExact(nodes, self, id);
    PassOnIsExact(nodes, self, id);
  }

  lemma {:induction false} ShortSearch(nodes: Nodes, self: Id, id: Id, p: Id, time: nat, hops: seq<Id>, bits: nat)
    requires Ideal(nodes) && ExactFingers(nodes) && self in nodes
    requires Owner(nodes.Keys, id) != self
    requires |hops| > 0 && Advancing(hops, id) && hops[|hops| - 1] in nodes
    requires IsLastBefore(nodes.Keys, p, id) && Gap(hops[|hops| - 1], p) < Pow2(bits)
    ensures Search(RingHelper(nodes, self, id), time, id, hops, {}).calls <= time + bits + 1
    decreases bits
  {
    ExactAreMembers(nodes);
    var n := hops[|hops| - 1];
    IdealNextHop(nodes, n, id);
    var next := ClosestPreceding(n, nodes[n].fingers, id);
    if next.None? {
      IdealLastHop(nodes, self, n, id);
    } else {
      assert n != p by { LastBeforeHasNoNext(nodes, p, id); }
      HopHalvesTheWay(nodes, n, p, id);
      ShortSearch(nodes, self, id, p, time + 1, hops + [next.value], bits - 1);
    }
  }

  lemma LastBeforeHasNoNext(nodes: Nodes, p: Id, id: Id)
    requires Ideal(nodes) && FingersAreMembers(nodes) && IsLastBefore(nodes.Keys, p, id)
    ensures ClosestPreceding(p, nodes[p].fingers, id).None?
  {
  }

  /** With exact fingers the asking node asks at most 257 times. */
  lemma LocalIsLogarithmic(nodes: Nodes, self: Id, id: Id)
    requires Ideal(nodes) && ExactFingers(nodes) && self in nodes
    ensures GetSuccessor(nodes, self, id).calls <= KEY_BITS + 1
  {
    if OwnAnswer(self, nodes[self], id).None? {
      assert IdealNode(nodes.Keys, self, nodes[self]);
      NeighbourArcIsOwned(nodes.Keys, nodes[self].pred.value, self, id);
      RingIsPower();
      var p := ClosestBefore(nodes.Keys, id);
      ShortSearch(nodes, self, id, p, 0, [self], KEY_BITS);
    }
  }

  // ---- While pointers still lag ----

  /**
    In any ring, however broken: what the search finds is another node that some member named
    as its successor and that has a predecessor p with id in (p, that member].
   */
  lemma FoundIsChecked(nodes: Nodes, self: Id, id: Id)
    requires self in nodes && OwnAnswer(self, nodes[self], id).None?
    ensures var found := GetSuccessor(nodes, self, id).found;
      found.Some? ==>
        && found != Some(self) && PredOf(nodes, found).Some?
        && exists n :: n in nodes && Succ(nodes[n]) == found && Upto(PredOf(nodes, found).value, id, n)
  {
    var r := GetSuccessor(nodes, self, id);
    if r.found.Some? {
      var t, n, d :| RingHelper(nodes, self, id)(t, n, d) == Pair(None, r.found);
      assert Helps(nodes, self, n, id, d) == Pair(None, r.found);
      var asked := AskedLast(nodes, self, n, id, d);
    }
  }

  /** The outcome of asking a member is its checked answer to some question. */
  lemma AskedLast(nodes: Nodes, self: Id, node: Id, id: Id, distrusted: set<Id>) returns (asked: Id)
    requires Helps(nodes, self, node, id, distrusted).successor.Some?
    ensures node in nodes && Helps(nodes, self, node, id, distrusted) == MemberAnswer(nodes, self, node, id, asked)
  {
    var ask := (time: nat, asked: Id) => MemberAnswer(nodes, self, node, id, asked);
    var t, a :| Ask(ask, 0, node, id, distrusted) == ask(t, a);
    asked := a;
  }


  /** Where following closest preceding fingers from n towards the id ends. */
  function LastHop(nodes: Nodes, n: Id, id: Id): Id
    decreases Dist(n, id)
  {
    if n !in nodes then n
    else
      var next := ClosestPreceding(n, nodes[n].fingers, id);
      if next.None? then n else LastHop(nodes, next.value, id)
  }

  /** The successor of the last hop passes the check: it is not the asking node, and its predecessor fits. */
  predicate LastHopPasses(nodes: Nodes, self: Id, n: Id, id: Id) {
    var last := LastHop(nodes, n, id);
    && last in nodes
    && var s := Succ(nodes[last]);
       s.Some? && s != Some(self) && PredOf(nodes, s).Some? && Upto(PredOf(nodes, s).value, id, last)
  }

  /** With good pointers, a search distrusts nobody exactly when the last hop passes, and then it ends there. */
  lemma {:induction false} SearchTrustsExactlyWhen(base: Id, nodes: Nodes, self: Id, id: Id, time: nat, hops: seq<Id>)
    requires GoodNodes(base, nodes)
    requires |hops| > 0 && Advancing(hops, id) && hops[|hops| - 1] in nodes
    ensures var r := Search(RingHelper(nodes, self, id), time, id, hops, {});
            var last := LastHop(nodes, hops[|hops| - 1], id);
      && (r.distrusted == {} <==> LastHopPasses(nodes, self, hops[|hops| - 1], id))
      && last in nodes
      && (r.distrusted == {} ==> r.found.Some? && MayAnswer(last, nodes[last], id, r.found.value))
    decreases WayLeft(hops, id)
  {
    var n := hops[|hops| - 1];
    assert GoodNode(base, nodes.Keys, n, nodes[n]);
    var answer := MemberAnswer(nodes, self, n, id, id);
    if answer.preceding.Some? {
      SearchTrustsExactlyWhen(base, nodes, self, id, time + 1, hops + [answer.preceding.value]);
    } else {
      assert Some(nodes[n].fingers[0].value) in nodes[n].fingers;
      if answer.successor.None? {
        StackWithoutTop(hops, {}, id);
        assert n in {} + {n};
      }
    }
  }

  /**
    In every reachable state: whether a lookup will distrust anybody can be read off the
    pointers, and if not, its answer is one the protocol may join on.
   */
  lemma TrustsExactlyWhen(base: Id, net: Net, self: Id, id: Id)
    requires Reachable(base, net) && self in net.nodes
    ensures var r := GetSuccessor(net.nodes, self, id);
      && (r.distrusted == {} <==>
            OwnAnswer(self, net.nodes[self], id).Some? || LastHopPasses(net.nodes, self, self, id))
      && (r.distrusted == {} ==>
            && r.found.Some? && r.found.value in net.nodes && NoLaterThan(id, r.found.value, base)
            && exists n :: n in net.nodes && MayAnswer(n, net.nodes[n], id, r.found.value))
  {
    ReachableInv(base, net);
    var nodes := net.nodes;
    var n := self;
    if OwnAnswer(self, nodes[self], id).None? {
      SearchTrustsExactlyWhen(base, nodes, self, id, 0, [self]);
      n := LastHop(nodes, self, id);
    }
    var r := GetSuccessor(nodes, self, id);
    if r.distrusted == {} {
      assert GoodNode(base, nodes.Keys, n, nodes[n]);
      AnswerDoesNotSkipBase(base, nodes.Keys, n, nodes[n], id, r.found.value);
    }
  }

  /**
    In every reachable state, whatever the lookup distrusted on its way: its answer s was
    reported by a member n, and it is safe exactly when the id lies in (n, s], or else the
    creating node lies in [s, id). The first half is a comparison the asking node could make.
   */
  lemma FoundIsSafeExactlyWhen(base: Id, net: Net, self: Id, id: Id) returns (n: Id)
    requires Reachable(base, net) && self in net.nodes && OwnAnswer(self, net.nodes[self], id).None?
    requires GetSuccessor(net.nodes, self, id).found.Some?
    ensures var s := GetSuccessor(net.nodes, self, id).found.value;
      && n in net.nodes && s in net.nodes && Succ(net.nodes[n]) == Some(s)
      && PredOf(net.nodes, Some(s)).Some? && Upto(PredOf(net.nodes, Some(s)).value, id, n)
      && (NoLaterThan(id, s, base) <==> Upto(n, id, s) || Gap(s, base) < Gap(s, id))
      && (Upto(n, id, s) ==> MayAnswer(n, net.nodes[n], id, s))
      && (id !in net.nodes ==>
            (Inv(net.(nodes := net.nodes[id := Joined(s)])) <==> Upto(n, id, s) || Gap(s, base) < Gap(s, id)))
  {
    ReachableInv(base, net);
    FoundIsChecked(net.nodes, self, id);
    var found := GetSuccessor(net.nodes, self, id).found;
    n :| n in net.nodes && Succ(net.nodes[n]) == found && Upto(PredOf(net.nodes, found).value, id, n);
    assert GoodNode(base, net.nodes.Keys, n, net.nodes[n]);
    ReportSkipsBaseExactlyWhen(base, net.nodes.Keys, n, net.nodes[n], id, found.value);
    if id !in net.nodes {
      JoinIsSafeExactlyWhen(net, id, n, found.value);
    }
  }
}
