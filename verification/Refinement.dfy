/**
  The whole table as its users see it. Nodes join, store replicated items, hand data over,
  repair fingers and sweep expired data; a read from any member behaves as a read of one map.
 */
module Refinement {
  import opened Options
  import opened Ring
  import opened Bytes
  import opened Pointers
  import opened Protocol
  import opened IdealRing
  import opened Convergence
  import opened Growth
  import opened LocalLookup
  import opened FingerRepair
  import opened Storage
  import opened Replication
  import opened Table

  /** Clients address data by keys of this many bytes. */
  const KEY_BYTES: nat := 32

  datatype System = System(nodes: Nodes, stores: map<Id, Store>)

  datatype Op =
    // A value is put without a time to live.
    | Put(at: Id, key: Key, value: Data, replication: Byte, limit: Byte, now: Instant)
    // n joins through the member `at`.
    | Enter(n: Id, at: Id)
    // n repairs a finger.
    | Repair(n: Id, k: nat)
    // n erases expired items.
    | Sweep(n: Id, erased: set<Key>, now: Instant)

  // ---- Operations ----

  /** How the member `at` looks up keys. */
  function Finder(hash: Key -> Id, nodes: Nodes, at: Id): Key -> Option<Id>
    requires at in nodes
  {
    (key: Key) => GetSuccessor(nodes, at, hash(key)).found
  }

  function Get(hash: Key -> Id, sys: System, at: Id, key: Key, average: Byte): Option<Data>
    requires at in sys.nodes
  {
    Fetch(Finder(hash, sys.nodes, at), sys.stores, key, average)
  }

  predicate Enabled(hash: Key -> Id, sys: System, op: Op) {
    match op
    case Put(at, key, _, _, _, _) => at in sys.nodes && |key| == KEY_BYTES
    case Enter(n, at) =>
      && at in sys.nodes && n !in sys.nodes
      && var s := GetSuccessor(sys.nodes, at, n).found;
      && s.Some? && s.value in sys.nodes && s.value in sys.stores
      && sys.nodes[s.value].pred.Some? && sys.nodes[s.value].pred.value in sys.nodes
    case Repair(n, k) => n in sys.nodes && k < KEY_BITS
    case Sweep(n, erased, now) =>
      && n in sys.stores && now <= WholeSeconds(NEVER)
      && forall key :: key in erased ==> key in sys.stores[n] && ExpiredAt(sys.stores[n][key], now)
  }

  function Apply(hash: Key -> Id, sys: System, op: Op): System
    requires Enabled(hash, sys, op)
  {
    match op
    case Put(at, key, value, replication, limit, now) =>
      var item := Item(value, Deadline(0, now));
      sys.(stores := AfterPut(Finder(hash, sys.nodes, at), sys.stores, key, item, replication, limit))
    case Enter(n, at) =>
      var s := GetSuccessor(sys.nodes, at, n).found.value;
      var (kept, received) := Handoff(sys.stores[s], hash, sys.nodes[s].pred.value, s, n);
      System(Grown(sys.nodes, n, s), sys.stores[s := kept][n := received])
    case Repair(n, k) =>
      sys.(nodes := AfterRepair(sys.nodes, n, k))
    case Sweep(n, erased, _) =>
      sys.(stores := Without(sys.stores, n, erased))
  }

  predicate ValidOps(hash: Key -> Id, sys: System, ops: seq<Op>)
    decreases |ops|
  {
    |ops| > 0 ==> Enabled(hash, sys, ops[0]) && ValidOps(hash, Apply(hash, sys, ops[0]), ops[1..])
  }

  function Exec(hash: Key -> Id, sys: System, ops: seq<Op>): System
    requires ValidOps(hash, sys, ops)
    decreases |ops|
  {
    if |ops| == 0 then sys else Exec(hash, Apply(hash, sys, ops[0]), ops[1..])
  }

  // ---- The one map ----

  type Content = map<Key, Data>

  function Written(m: Content, op: Op): Content {
    if op.Put? then m[op.key := op.value] else m
  }

  /** The map after the same operations. */
  function AllWritten(m: Content, ops: seq<Op>): Content
    decreases |ops|
  {
    if |ops| == 0 then m else AllWritten(Written(m, ops[0]), ops[1..])
  }

  // ---- What ties the two together ----

  ghost predicate GoodRing(nodes: Nodes) {
    Ideal(nodes) && FingersAreMembers(nodes) && forall n :: n in nodes ==> nodes[n].fingers[0].Some?
  }

  /** An item sits at the owner of its key, does not expire, and is current, or is a copy of something written. */
  ghost predicate GoodItem(hash: Key -> Id, members: set<Id>, m: Content, n: Id, key: Key, item: Item) {
    && IsOwner(members, hash(key), n)
    && WholeSeconds(NEVER) <= item.expires
    && (if |key| == KEY_BYTES then key in m && m[key] == item.value
        else |key| == KEY_BYTES + 1 && key[..KEY_BYTES] in m)
  }

  ghost predicate GoodStores(hash: Key -> Id, members: set<Id>, stores: map<Id, Store>, m: Content)
    requires members != {}
  {
    && stores.Keys == members
    && (forall n, key {:trigger key in stores[n]} ::
          n in stores && key in stores[n] ==> GoodItem(hash, members, m, n, key, stores[n][key]))
    && (forall key {:trigger Present(hash, members, stores, key)} :: key in m ==> Present(hash, members, stores, key))
  }

  /** What a client wrote is at the owner of its key. */
  ghost predicate Present(hash: Key -> Id, members: set<Id>, stores: map<Id, Store>, key: Key)
    requires members != {}
  {
    var owner := Owner(members, hash(key));
    |key| == KEY_BYTES && owner in stores && key in stores[owner]
  }

  ghost predicate Refines(hash: Key -> Id, sys: System, m: Content) {
    GoodRing(sys.nodes) && GoodStores(hash, sys.nodes.Keys, sys.stores, m)
  }

  // ---- Reading ----

  ghost predicate FindsOwners(find: Key -> Option<Id>, hash: Key -> Id, members: set<Id>)
    requires members != {}
  {
    forall key :: find(key) == Some(Owner(members, hash(key)))
  }

  lemma MembersFindOwners(hash: Key -> Id, nodes: Nodes, at: Id)
    requires GoodRing(nodes) && at in nodes
    ensures FindsOwners(Finder(hash, nodes, at), hash, nodes.Keys)
  {
    forall key
      ensures Finder(hash, nodes, at)(key) == Some(Owner(nodes.Keys, hash(key)))
    {
      LocalIsExact(nodes, at, hash(key));
    }
  }

  /** Whatever the replica fallback does, a read returns what the map holds. */
  lemma FetchReadsTheMap(find: Key -> Option<Id>, hash: Key -> Id, members: set<Id>, stores: map<Id, Store>, m: Content,
                         key: Key, average: Byte)
    requires members != {} && FindsOwners(find, hash, members) && GoodStores(hash, members, stores, m)
    requires |key| == KEY_BYTES
    ensures Fetch(find, stores, key, average) == if key in m then Some(m[key]) else None
  {
    var owner := Owner(members, hash(key));
    if key in m {
      assert Present(hash, members, stores, key);
    } else {
      assert key !in stores[owner];
      var copy := CopyKey(key, 0);
      assert copy[..KEY_BYTES] == key;
      assert copy !in stores[Owner(members, hash(copy))];
    }
  }

  // ---- Writing ----

  lemma OriginalIsGood(hash: Key -> Id, members: set<Id>, stores: map<Id, Store>, m: Content, key: Key, value: Data)
    requires members != {} && GoodStores(hash, members, stores, m) && |key| == KEY_BYTES
    ensures GoodStores(hash, members, Send(stores, Owner(members, hash(key)), key, Item(value, NEVER)), m[key := value])
  {
    var owner := Owner(members, hash(key));
    var after := Send(stores, owner, key, Item(value, NEVER));
    forall n, k {:trigger k in after[n]} | n in after && k in after[n]
      ensures GoodItem(hash, members, m[key := value], n, k, after[n][k])
    {
      if n != owner || k != key {
        assert k in stores[n];
        if k == key { OwnerIsUnique(members, hash(key), n); }
      }
    }
    forall k {:trigger Present(hash, members, after, k)} | k in m[key := value]
      ensures Present(hash, members, after, k)
    {
      assert k in m ==> Present(hash, members, stores, k);
    }
  }

  lemma CopyIsGood(hash: Key -> Id, members: set<Id>, stores: map<Id, Store>, m: Content, copy: Key, value: Data)
    requires members != {} && GoodStores(hash, members, stores, m)
    requires |copy| == KEY_BYTES + 1 && copy[..KEY_BYTES] in m
    ensures GoodStores(hash, members, Send(stores, Owner(members, hash(copy)), copy, Item(value, NEVER)), m)
  {
    var owner := Owner(members, hash(copy));
    var after := Send(stores, owner, copy, Item(value, NEVER));
    forall n, k {:trigger k in after[n]} | n in after && k in after[n]
      ensures GoodItem(hash, members, m, n, k, after[n][k])
    {
      if n != owner || k != copy { assert k in stores[n]; }
    }
    forall k {:trigger Present(hash, members, after, k)} | k in m
      ensures Present(hash, members, after, k)
    {
      assert Present(hash, members, stores, k);
    }
  }

  lemma {:induction false} CopiesAreGood(find: Key -> Option<Id>, hash: Key -> Id, members: set<Id>,
                                         stores: map<Id, Store>, m: Content, key: Key, value: Data,
                                         limit: Byte, original: Option<Id>, lookup: nat -> Option<Id>, n: nat)
    requires members != {} && FindsOwners(find, hash, members) && GoodStores(hash, members, stores, m)
    requires |key| == KEY_BYTES && key in m
    requires forall i :: lookup(i) == find(CopyKey(key, i))
    ensures GoodStores(hash, members, SendAll(stores, Replicas(key, limit, original, lookup, n), Item(value, NEVER)), m)
    decreases n
  {
    if n > 0 {
      CopiesAreGood(find, hash, members, stores, m, key, value, limit, original, lookup, n - 1);
      var before := Replicas(key, limit, original, lookup, n - 1);
      if lookup(n - 1).Some? && MayTake(original, before, lookup(n - 1).value, limit) {
        var copy := CopyKey(key, n - 1);
        assert copy[..KEY_BYTES] == key;
        assert find(copy) == Some(Owner(members, hash(copy)));
        SendOneMore(stores, before, Placement(lookup(n - 1).value, copy), Item(value, NEVER));
        CopyIsGood(hash, members, SendAll(stores, before, Item(value, NEVER)), m, copy, value);
      }
    }
  }

  lemma PutWritesTheMap(find: Key -> Option<Id>, hash: Key -> Id, members: set<Id>, stores: map<Id, Store>, m: Content,
                        key: Key, value: Data, replication: Byte, limit: Byte)
    requires members != {} && FindsOwners(find, hash, members) && GoodStores(hash, members, stores, m)
    requires |key| == KEY_BYTES
    ensures GoodStores(hash, members, AfterPut(find, stores, key, Item(value, NEVER), replication, limit),
                       m[key := value])
  {
    var found := find(key);
    OriginalIsGood(hash, members, stores, m, key, value);
    if replication >= 2 {
      var stored := Send(stores, found.value, key, Item(value, NEVER));
      CopiesAreGood(find, hash, members, stored, m[key := value], key, value, limit, found,
                    FindCopies(find, key), replication - 1);
    }
  }

  // ---- Growing ----

  /** Who owns an id once n has entered between p and s. */
  lemma OwnerAfterEntering(members: set<Id>, p: Id, n: Id, s: Id, id: Id)
    requires p in members && s in members && n !in members
    requires IsNext(members, p, s) && Inside(p, n, s)
    ensures Owner(members + {n}, id) == if Upto(p, id, n) then n else Owner(members, id)
  {
    SplitsNeighbours(members, n, p, s);
    NeighbourArcIsOwned(members + {n}, p, n, id);
    var o := Owner(members, id);
    if Upto(p, id, n) {
      OwnerIsUnique(members + {n}, id, n);
    } else {
      assert Gap(id, o) <= Gap(id, n) by {
        assert Gap(id, n) < Gap(id, o) ==> IsOwner(members + {n}, id, n);
      }
      OwnerIsUnique(members + {n}, id, o);
    }
  }

  /** A handoff moves every item to its new owner and leaves all others in place. */
  lemma HandoffKeepsStores(hash: Key -> Id, members: set<Id>, stores: map<Id, Store>, m: Content, p: Id, n: Id, s: Id)
    requires members != {} && GoodStores(hash, members, stores, m)
    requires p in members && s in members && n !in members && IsNext(members, p, s) && Inside(p, n, s)
    ensures var (kept, received) := Handoff(stores[s], hash, p, s, n);
            GoodStores(hash, members + {n}, stores[s := kept][n := received], m)
  {
    var (kept, received) := Handoff(stores[s], hash, p, s, n);
    var after := stores[s := kept][n := received];
    HandoffConserves(stores[s], hash, p, s, n);
    forall x, key {:trigger key in after[x]} | x in after && key in after[x]
      ensures GoodItem(hash, members + {n}, m, x, key, after[x][key])
    {
      MovedItemIsGood(hash, members, stores, m, p, n, s, x, key);
    }
    forall key {:trigger Present(hash, members + {n}, after, key)} | key in m
      ensures Present(hash, members + {n}, after, key)
    {
      StillPresent(hash, members, stores, m, p, n, s, key);
    }
  }

  lemma StillPresent(hash: Key -> Id, members: set<Id>, stores: map<Id, Store>, m: Content,
                     p: Id, n: Id, s: Id, key: Key)
    requires members != {} && GoodStores(hash, members, stores, m) && key in m
    requires p in members && s in members && n !in members && IsNext(members, p, s) && Inside(p, n, s)
    ensures var (kept, received) := Handoff(stores[s], hash, p, s, n);
            Present(hash, members + {n}, stores[s := kept][n := received], key)
  {
    HandoffConserves(stores[s], hash, p, s, n);
    OwnerAfterEntering(members, p, n, s, hash(key));
    assert Present(hash, members, stores, key);
    NeighbourArcIsOwned(members, p, s, hash(key));
    if Upto(p, hash(key), n) {
      ArcSplits(p, n, s, hash(key));
      OwnerIsUnique(members, hash(key), s);
    }
  }

  lemma MovedItemIsGood(hash: Key -> Id, members: set<Id>, stores: map<Id, Store>, m: Content,
                        p: Id, n: Id, s: Id, x: Id, key: Key)
    requires members != {} && GoodStores(hash, members, stores, m)
    requires p in members && s in members && n !in members && IsNext(members, p, s) && Inside(p, n, s)
    requires var (kept, received) := Handoff(stores[s], hash, p, s, n);
             var after := stores[s := kept][n := received];
             x in after && key in after[x]
    ensures var (kept, received) := Handoff(stores[s], hash, p, s, n);
            GoodItem(hash, members + {n}, m, x, key, stores[s := kept][n := received][x][key])
  {
    HandoffConserves(stores[s], hash, p, s, n);
    OwnerAfterEntering(members, p, n, s, hash(key));
    var from := if x == n then s else x;
    assert key in stores[from];
    OwnerIsUnique(members, hash(key), from);
    NeighbourArcIsOwned(members, p, s, hash(key));
    if Upto(p, hash(key), n) {
      ArcSplits(p, n, s, hash(key));
      OwnerIsUnique(members, hash(key), s);
    }
  }

  lemma EnterKeepsRing(nodes: Nodes, n: Id)
    requires GoodRing(nodes) && n !in nodes
    ensures var s := Owner(nodes.Keys, n);
      && nodes[s].pred.Some? && nodes[s].pred.value in nodes
      && IsNext(nodes.Keys, nodes[s].pred.value, s) && Inside(nodes[s].pred.value, n, s)
      && GoodRing(Grown(nodes, n, s))
  {
    var s := Owner(nodes.Keys, n);
    GrownPointers(nodes, n);
    assert IdealNode(nodes.Keys, s, nodes[s]);
    JoinThenTwoStabilizesIsIdeal(nodes, n);
    GrowthKeepsFingers(nodes, n);
  }

  lemma EnterKeepsTheMap(hash: Key -> Id, sys: System, m: Content, n: Id, at: Id)
    requires Refines(hash, sys, m) && Enabled(hash, sys, Enter(n, at))
    ensures Refines(hash, Apply(hash, sys, Enter(n, at)), m)
  {
    LocalIsExact(sys.nodes, at, n);
    EnterKeepsRing(sys.nodes, n);
    var s := Owner(sys.nodes.Keys, n);
    HandoffKeepsStores(hash, sys.nodes.Keys, sys.stores, m, sys.nodes[s].pred.value, n, s);
  }

  /** A node outside the ring can always enter, through any member. */
  lemma EnterIsPossible(hash: Key -> Id, sys: System, m: Content, n: Id, at: Id)
    requires Refines(hash, sys, m) && at in sys.nodes && n !in sys.nodes
    ensures Enabled(hash, sys, Enter(n, at))
  {
    LocalIsExact(sys.nodes, at, n);
    EnterKeepsRing(sys.nodes, n);
  }

  // ---- Whole runs ----

  lemma OpKeepsTheMap(hash: Key -> Id, sys: System, m: Content, op: Op)
    requires Refines(hash, sys, m) && Enabled(hash, sys, op)
    ensures Refines(hash, Apply(hash, sys, op), Written(m, op))
  {
    match op
    case Put(at, key, value, replication, limit, now) =>
      StoredForever(value, now);
      MembersFindOwners(hash, sys.nodes, at);
      PutWritesTheMap(Finder(hash, sys.nodes, at), hash, sys.nodes.Keys, sys.stores, m, key, value, replication, limit);
    case Enter(n, at) => EnterKeepsTheMap(hash, sys, m, n, at);
    case Repair(n, k) => RepairKeepsRing(sys.nodes, n, k);
    case Sweep(n, erased, now) => SweepErasesNothing(hash, sys.nodes.Keys, sys.stores, m, n, erased, now);
  }

  lemma RepairKeepsRing(nodes: Nodes, n: Id, k: nat)
    requires GoodRing(nodes) && n in nodes && k < KEY_BITS
    ensures GoodRing(AfterRepair(nodes, n, k))
  {
    RepairKeepsIdeal(nodes, n, k);
  }

  /** In a table that refines a map, the repaired finger names the owner of its start. */
  lemma RepairFindsOwner(hash: Key -> Id, sys: System, m: Content, n: Id, k: nat)
    requires Refines(hash, sys, m) && Enabled(hash, sys, Repair(n, k))
    ensures Apply(hash, sys, Repair(n, k)).nodes[n].fingers[k] == Some(Owner(sys.nodes.Keys, Start(n, k)))
  {
    LocalIsExact(sys.nodes, n, Start(n, k));
  }

  /** Data stored without a time to live is never swept, not even after handoffs cut its expiry. */
  lemma SweepErasesNothing(hash: Key -> Id, members: set<Id>, stores: map<Id, Store>, m: Content,
                           n: Id, erased: set<Key>, now: Instant)
    requires members != {} && GoodStores(hash, members, stores, m)
    requires n in stores && now <= WholeSeconds(NEVER)
    requires forall key :: key in erased ==> key in stores[n] && ExpiredAt(stores[n][key], now)
    ensures Without(stores, n, erased) == stores
  {
    assert forall key :: key in stores[n] ==> key !in erased;
    assert stores[n] - erased == stores[n];
  }

  lemma {:induction false} OpsRefineTheMap(hash: Key -> Id, sys: System, m: Content, ops: seq<Op>)
    requires Refines(hash, sys, m) && ValidOps(hash, sys, ops)
    ensures Refines(hash, Exec(hash, sys, ops), AllWritten(m, ops))
    decreases |ops|
  {
    if |ops| > 0 {
      OpKeepsTheMap(hash, sys, m, ops[0]);
      OpsRefineTheMap(hash, Apply(hash, sys, ops[0]), Written(m, ops[0]), ops[1..]);
    }
  }

  /** The table right after its first node created the ring and stabilized once. */
  function Fresh(base: Id): System {
    System(Stabilize(map[base := Joined(base)], base), map[base := map[]])
  }

  lemma FreshNode(base: Id)
    ensures Fresh(base).nodes == map[base := Joined(base).(pred := Some(base))]
  {
  }

  lemma AloneIsGood(base: Id, nodes: Nodes)
    requires nodes == map[base := Joined(base).(pred := Some(base))]
    ensures GoodRing(nodes)
  {
    assert nodes.Keys == {base};
    assert IdealNode({base}, base, nodes[base]);
  }

  lemma FreshIsEmpty(hash: Key -> Id, base: Id)
    ensures Refines(hash, Fresh(base), map[])
  {
    FreshNode(base);
    AloneIsGood(base, Fresh(base).nodes);
  }

  lemma AloneFindsItself(hash: Key -> Id, base: Id, key: Key)
    ensures Finder(hash, Fresh(base).nodes, base)(key) == Some(base)
  {
    FreshIsEmpty(hash, base);
    MembersFindOwners(hash, Fresh(base).nodes, base);
    assert Fresh(base).nodes.Keys == {base};
  }

  /**
    Stale reads in the smallest table, of one node: a value is put with a copy and without a
    time to live, the next one without a copy and with a time to live; once the newer original
    is lost, or its time has passed and the node has swept, the first value is read.
   */
  lemma StaleRead(hash: Key -> Id, base: Id, key: Key, overwritten: Data, value: Data, ttl: nat,
                  replication: Byte, limit: Byte, average: Byte, earlier: Instant, later: Instant, now: Instant)
    requires replication >= 2 && limit >= 2 && average >= 1
    requires ttl > 0 && later + ttl * TICKS < now
    ensures var sys := Fresh(base);
            var find := Finder(hash, sys.nodes, base);
            var first := AfterPut(find, sys.stores, key, Item(overwritten, Deadline(0, earlier)), replication, limit);
            var second := AfterPut(find, first, key, Item(value, Deadline(ttl, later)), 1, limit);
      && base in second
      && Get(hash, System(sys.nodes, second), base, key, average) == Some(value)
      && Get(hash, System(sys.nodes, Without(second, base, {key})), base, key, average) == Some(overwritten)
      && Get(hash, System(sys.nodes, Without(second, base, Expired(second[base], now))), base, key, average)
         == Some(overwritten)
  {
    var sys := Fresh(base);
    AloneFindsItself(hash, base, key);
    AloneFindsItself(hash, base, CopyKey(key, 0));
    ExpiresExactlyWhen(value, ttl, later, now);
    OverwrittenValueIsRead(Finder(hash, sys.nodes, base), sys.stores, key, overwritten,
                           Item(value, Deadline(ttl, later)), replication, limit, average, base, base, earlier, now);
  }

  /**
    The table is one map: after any run of puts, joins, finger repairs and sweeps, a read
    from any member returns the value last put under the key, and nothing if there was none.
   */
  lemma TableIsOneMap(hash: Key -> Id, base: Id, ops: seq<Op>, at: Id, key: Key, average: Byte)
    requires ValidOps(hash, Fresh(base), ops)
    requires at in Exec(hash, Fresh(base), ops).nodes && |key| == KEY_BYTES
    ensures var m := AllWritten(map[], ops);
            Get(hash, Exec(hash, Fresh(base), ops), at, key, average) == if key in m then Some(m[key]) else None
  {
    FreshIsEmpty(hash, base);
    OpsRefineTheMap(hash, Fresh(base), map[], ops);
    var sys := Exec(hash, Fresh(base), ops);
    MembersFindOwners(hash, sys.nodes, at);
    FetchReadsTheMap(Finder(hash, sys.nodes, at), hash, sys.nodes.Keys, sys.stores, AllWritten(map[], ops),
                     key, average);
  }
}
