/**
  Storing copies of an item under derived keys, with a limit on the copies per node, and
  reading them back when the original is missing.
 */
module Replication {
  import opened Options
  import opened Ring
  import opened Bytes
  import opened Storage

  datatype Placement = Placement(node: Id, key: Key)

  /** The number of a copy cut to eight bits; spelled out below 256, where proofs then meet no modulo. */
  function Octet(number: nat): Byte {
    if number < 256 then number else number % 256
  }

  /** The key of copy number i + 1: one more byte. */
  function CopyKey(key: Key, i: nat): Key {
    key + [Octet(i + 1)]
  }

  function Copies(placed: seq<Placement>, node: Id): nat {
    if |placed| == 0 then 0
    else (if placed[|placed| - 1].node == node then 1 else 0) + Copies(placed[..|placed| - 1], node)
  }

  /** All the copies of the item on a node, the original included. */
  function OnNode(original: Option<Id>, placed: seq<Placement>, node: Id): nat {
    (if original == Some(node) then 1 else 0) + Copies(placed, node)
  }

  /** Whether a node that was found for a copy may still take it. */
  predicate MayTake(original: Option<Id>, placed: seq<Placement>, node: Id, limit: Byte) {
    var copies := OnNode(original, placed, node);
    copies == 0 || copies < limit
  }

  /** Where the first n copies go, when lookup(i) is the outcome of looking up copy key i. */
  function Replicas(key: Key, limit: Byte, original: Option<Id>, lookup: nat -> Option<Id>, n: nat): (r: seq<Placement>)
    ensures |r| <= n
  {
    if n == 0 then []
    else
      var before := Replicas(key, limit, original, lookup, n - 1);
      if lookup(n - 1).Some? && MayTake(original, before, lookup(n - 1).value, limit)
      then before + [Placement(lookup(n - 1).value, CopyKey(key, n - 1))]
      else before
  }

  lemma CopiesOneMore(placed: seq<Placement>, p: Placement, node: Id)
    ensures Copies(placed + [p], node) == Copies(placed, node) + if p.node == node then 1 else 0
  {
  }

  /** The counters the loop keeps: exactly the nodes that hold copies, with their number. */
  ghost predicate Counts(counts: map<Id, Byte>, original: Option<Id>, placed: seq<Placement>) {
    forall node {:trigger OnNode(original, placed, node)} ::
      && (node in counts <==> OnNode(original, placed, node) > 0)
      && (node in counts ==> counts[node] == OnNode(original, placed, node))
  }

  lemma CountsOneMore(counts: map<Id, Byte>, original: Option<Id>, placed: seq<Placement>, p: Placement)
    requires Counts(counts, original, placed)
    requires p.node in counts ==> counts[p.node] < 255
    ensures Counts(counts[p.node := if p.node in counts then counts[p.node] + 1 else 1], original, placed + [p])
  {
    var after := counts[p.node := if p.node in counts then counts[p.node] + 1 else 1];
    forall node {:trigger OnNode(original, placed + [p], node)}
      ensures node in after <==> OnNode(original, placed + [p], node) > 0
      ensures node in after ==> after[node] == OnNode(original, placed + [p], node)
    {
      CopiesOneMore(placed, p, node);
      assert OnNode(original, placed, node) >= 0;
    }
  }

  /**
    The replication loop. Its counters never leave eight bits, and at the end they are the
    numbers of copies actually stored.
   */
  method Replicate(key: Key, replication: Byte, limit: Byte, original: Option<Id>, lookup: nat -> Option<Id>)
    returns (counts: map<Id, Byte>, placed: seq<Placement>)
    ensures placed == Replicas(key, limit, original, lookup, if replication == 0 then 0 else replication - 1)
    ensures Counts(counts, original, placed)
  {
    placed := [];
    counts := map[];
    if original.Some? {
      counts := counts[original.value := 1];
    }
    var last := if replication == 0 then 0 else replication - 1;
    for i := 0 to last
      invariant placed == Replicas(key, limit, original, lookup, i)
      invariant Counts(counts, original, placed)
    {
      var found := lookup(i);
      if found.Some? {
        var node := found.value;
        CountOf(counts, original, placed, node);
        if (node in counts && counts[node] < limit) || node !in counts {
          var copy := Placement(node, CopyKey(key, i));
          CountsOneMore(counts, original, placed, copy);
          if node !in counts {
            counts := counts[node := 1];
          } else {
            counts := counts[node := counts[node] + 1];
          }
          placed := placed + [copy];
        }
      }
    }
  }

  /** What a counter says of its node. */
  lemma CountOf(counts: map<Id, Byte>, original: Option<Id>, placed: seq<Placement>, node: Id)
    requires Counts(counts, original, placed)
    ensures node in counts <==> OnNode(original, placed, node) > 0
    ensures node in counts ==> counts[node] == OnNode(original, placed, node) <= |placed| + 1
  {
    CopiesAreBounded(placed, node);
    assert OnNode(original, placed, node) >= 0;
  }

  lemma {:induction false} CopiesAreBounded(placed: seq<Placement>, node: Id)
    ensures Copies(placed, node) <= |placed|
  {
    if |placed| > 0 {
      CopiesAreBounded(placed[..|placed| - 1], node);
    }
  }

  /** The most copies of one item a node may get, the original included. */
  function AtMost(limit: Byte): nat {
    if limit > 1 then limit else 1
  }

  /** No node ends up with more than max(1, limit) copies of one item. */
  lemma {:induction false} LimitHolds(
    key: Key, limit: Byte, original: Option<Id>, lookup: nat -> Option<Id>, n: nat, node: Id)
    ensures OnNode(original, Replicas(key, limit, original, lookup, n), node) <= AtMost(limit)
  {
    if n > 0 {
      LimitHolds(key, limit, original, lookup, n - 1, node);
      if lookup(n - 1).Some? {
        CopiesOneMore(Replicas(key, limit, original, lookup, n - 1),
                      Placement(lookup(n - 1).value, CopyKey(key, n - 1)), node);
      }
    }
  }

  /** A copy goes missing only when its lookup found no node, or that node holds as many as it may. */
  lemma {:induction false} SkippedOnlyAtLimit(
    key: Key, limit: Byte, original: Option<Id>, lookup: nat -> Option<Id>, n: nat, i: nat)
    requires i < n && lookup(i).Some?
    ensures var placed := Replicas(key, limit, original, lookup, n);
            var node := lookup(i).value;
      Placement(node, CopyKey(key, i)) in placed || OnNode(original, placed, node) == AtMost(limit)
  {
    var node := lookup(i).value;
    var before := Replicas(key, limit, original, lookup, n - 1);
    LimitHolds(key, limit, original, lookup, n, node);
    if lookup(n - 1).Some? {
      CopiesOneMore(before, Placement(lookup(n - 1).value, CopyKey(key, n - 1)), node);
    }
    if i < n - 1 {
      SkippedOnlyAtLimit(key, limit, original, lookup, n - 1, i);
    }
  }

  /** The last byte of a copy key. */
  function Number(copy: Key): nat {
    if |copy| == 0 then 0 else copy[|copy| - 1]
  }

  /** The copy is one of the first n: the key with one byte from 1 to n behind it. */
  predicate IsCopyKey(key: Key, copy: Key, n: nat) {
    |copy| == |key| + 1 && copy[..|key|] == key && 1 <= Number(copy) <= n
  }

  lemma CopyKeyNumber(key: Key, i: nat)
    requires i < 255
    ensures IsCopyKey(key, CopyKey(key, i), i + 1) && Number(CopyKey(key, i)) == i + 1
  {
  }

  /** Eight bits suffice: copy keys are pairwise distinct extensions of the key, in ascending order. */
  lemma {:induction false} CopyKeysAreDistinct(
    key: Key, limit: Byte, original: Option<Id>, lookup: nat -> Option<Id>, n: nat, placed: seq<Placement>)
    requires n <= 254 && placed == Replicas(key, limit, original, lookup, n)
    ensures forall j :: 0 <= j < |placed| ==> IsCopyKey(key, placed[j].key, n)
    ensures forall j, k :: 0 <= j < k < |placed| ==> Number(placed[j].key) < Number(placed[k].key)
    decreases n
  {
    if n > 0 {
      var before := Replicas(key, limit, original, lookup, n - 1);
      CopyKeysAreDistinct(key, limit, original, lookup, n - 1, before);
      if placed != before {
        CopyKeyNumber(key, n - 1);
        assert placed[..|before|] == before && placed[|before|].key == CopyKey(key, n - 1);
        assert |placed| == |before| + 1;
        forall j | 0 <= j < |before|
          ensures IsCopyKey(key, placed[j].key, n - 1)
        {
          assert placed[j] == before[j];
        }
      }
    }
  }

  /** What is placed is one of the copies asked for, at the node its lookup found. */
  lemma {:induction false} PlacedIsACopy(key: Key, limit: Byte, original: Option<Id>, lookup: nat -> Option<Id>, n: nat,
                                         p: Placement) returns (i: nat)
    requires p in Replicas(key, limit, original, lookup, n)
    ensures i < n && lookup(i) == Some(p.node) && p.key == CopyKey(key, i)
    decreases n
  {
    if p in Replicas(key, limit, original, lookup, n - 1) {
      i := PlacedIsACopy(key, limit, original, lookup, n - 1, p);
    } else {
      i := n - 1;
    }
  }

  /** The first copy is placed exactly when it was asked for, a node was found, and the original leaves room there. */
  lemma {:induction false} FirstPlacedExactlyWhen(key: Key, limit: Byte, original: Option<Id>,
                                                  lookup: nat -> Option<Id>, n: nat, node: Id)
    requires n <= 254
    ensures Placement(node, CopyKey(key, 0)) in Replicas(key, limit, original, lookup, n)
       <==> n >= 1 && lookup(0) == Some(node) && (original != Some(node) || limit >= 2)
    decreases n
  {
    if n == 1 {
      assert OnNode(original, Replicas(key, limit, original, lookup, n - 1), node)
          == if original == Some(node) then 1 else 0;
    } else if n > 1 {
      FirstPlacedExactlyWhen(key, limit, original, lookup, n - 1, node);
      CopyKeyNumber(key, 0);
      CopyKeyNumber(key, n - 1);
    }
  }

  /** The keys of the copies placed at a node. */
  function KeysOn(placed: seq<Placement>, node: Id): set<Key> {
    set p | p in placed && p.node == node :: p.key
  }

  lemma KeysOneMore(placed: seq<Placement>, p: Placement, node: Id)
    ensures KeysOn(placed + [p], node) == KeysOn(placed, node) + if p.node == node then {p.key} else {}
  {
    var longer := placed + [p];
    assert forall q :: q in longer <==> q in placed || q == p;
  }

  lemma {:induction false} KeysAreCounted(placed: seq<Placement>, node: Id)
    requires forall j, k :: 0 <= j < k < |placed| ==> Number(placed[j].key) < Number(placed[k].key)
    ensures |KeysOn(placed, node)| == Copies(placed, node)
    decreases |placed|
  {
    if |placed| > 0 {
      var last := |placed| - 1;
      var before, p := placed[..last], placed[last];
      KeysAreCounted(before, node);
      assert placed == before + [p];
      KeysOneMore(before, p, node);
      NewKey(placed, node);
    }
  }

  lemma NewKey(placed: seq<Placement>, node: Id)
    requires |placed| > 0
    requires forall j, k :: 0 <= j < k < |placed| ==> Number(placed[j].key) < Number(placed[k].key)
    ensures placed[|placed| - 1].key !in KeysOn(placed[..|placed| - 1], node)
  {
    forall q | q in placed[..|placed| - 1]
      ensures q.key != placed[|placed| - 1].key
    {
      var j :| 0 <= j < |placed| - 1 && placed[j] == q;
    }
  }

  // ---- Reading copies ----

  /** Reading copy i when the copies before it had no node: the first copy with a node decides. */
  function Fallback(key: Key, average: Byte, lookup: nat -> Option<Id>, read: (Id, Key) -> Option<Data>, i: nat)
    : Option<Data>
    decreases average - i
  {
    if i >= average then None
    else if lookup(i).Some? then read(lookup(i).value, CopyKey(key, i))
    else Fallback(key, average, lookup, read, i + 1)
  }

  /** The first copy from i on for which a node is found is the one that is read. */
  lemma {:induction false} FallbackReadsFirst(key: Key, average: Byte, lookup: nat -> Option<Id>,
                                              read: (Id, Key) -> Option<Data>, i: nat, first: nat)
    requires i <= first <= average && forall j :: i <= j < first ==> lookup(j).None?
    requires first < average ==> lookup(first).Some?
    ensures Fallback(key, average, lookup, read, i)
         == if first == average then None else read(lookup(first).value, CopyKey(key, first))
    decreases first - i
  {
    if i < first {
      FallbackReadsFirst(key, average, lookup, read, i + 1, first);
    }
  }

  method ReadCopies(key: Key, average: Byte, lookup: nat -> Option<Id>, read: (Id, Key) -> Option<Data>)
    returns (response: Option<Data>)
    ensures response == Fallback(key, average, lookup, read, 0)
  {
    response := None;
    var i := 1;
    while i <= average
      invariant 1 <= i <= average + 1
      invariant response.None?
      invariant Fallback(key, average, lookup, read, 0) == Fallback(key, average, lookup, read, i - 1)
    {
      var found := lookup(i - 1);
      if found.Some? {
        response := read(found.value, key + [Octet(i)]);
        break;
      }
      i := i + 1;
    }
  }
}
