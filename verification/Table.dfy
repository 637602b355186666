/**
  Puts and gets on the stores of all nodes, when find(k) is the outcome of looking up the
  hash of k: where a put leaves the item and its copies, and what a get makes of them.
 */
module Table {
  import opened Options
  import opened Ring
  import opened Bytes
  import opened Storage
  import opened Replication

  function Send(stores: map<Id, Store>, node: Id, key: Key, item: Item): map<Id, Store> {
    if node in stores then stores[node := stores[node][key := item]] else stores
  }

  function SendAll(stores: map<Id, Store>, placed: seq<Placement>, item: Item): map<Id, Store> {
    if |placed| == 0 then stores
    else
      var last := |placed| - 1;
      Send(SendAll(stores, placed[..last], item), placed[last].node, placed[last].key, item)
  }

  /** The lookups of the copies of a key. */
  function FindCopies(find: Key -> Option<Id>, key: Key): nat -> Option<Id> {
    (i: nat) => find(CopyKey(key, i))
  }

  /** The effect of a put on the stores, when find(k) is the outcome of looking up the hash of k. */
  function AfterPut(find: Key -> Option<Id>, stores: map<Id, Store>, key: Key, item: Item,
                    replication: Byte, limit: Byte): map<Id, Store>
  {
    var found := find(key);
    var stored := if found.Some? then Send(stores, found.value, key, item) else stores;
    if replication < 2 then stored
    else SendAll(stored, Replicas(key, limit, found, FindCopies(find, key), replication - 1), item)
  }

  function Read(stores: map<Id, Store>, node: Id, key: Key): Option<Data> {
    if node in stores then Storage.Lookup(stores[node], key) else None
  }

  /** The item a node holds under a key. */
  function Held(stores: map<Id, Store>, node: Id, key: Key): (r: Option<Item>)
    ensures Read(stores, node, key) == if r.Some? then Some(r.value.value) else None
  {
    if node in stores && key in stores[node] then Some(stores[node][key]) else None
  }

  /** The stores once a node has lost or erased some keys. */
  function Without(stores: map<Id, Store>, node: Id, erased: set<Key>): map<Id, Store>
    requires node in stores
  {
    stores[node := stores[node] - erased]
  }

  /** The outcome of a get. */
  function Fetch(find: Key -> Option<Id>, stores: map<Id, Store>, key: Key, average: Byte): Option<Data> {
    var found := find(key);
    var response := if found.Some? then Read(stores, found.value, key) else None;
    if response.None? && average >= 1
    then Fallback(key, average, FindCopies(find, key), (node: Id, k: Key) => Read(stores, node, k), 0)
    else response
  }

  // ---- Sending ----

  lemma SendOneMore(stores: map<Id, Store>, placed: seq<Placement>, p: Placement, item: Item)
    ensures SendAll(stores, placed + [p], item) == Send(SendAll(stores, placed, item), p.node, p.key, item)
  {
    assert (placed + [p])[..|placed|] == placed;
  }

  lemma HeldAfterSend(stores: map<Id, Store>, p: Placement, item: Item, node: Id, key: Key)
    ensures Send(stores, p.node, p.key, item).Keys == stores.Keys
    ensures Held(Send(stores, p.node, p.key, item), node, key)
         == if node in stores && p == Placement(node, key) then Some(item) else Held(stores, node, key)
  {
  }

  /** What nodes hold after sending: the item where it was placed, anything else as before. */
  lemma {:induction false} HeldAfterSends(stores: map<Id, Store>, placed: seq<Placement>, item: Item,
                                          node: Id, key: Key)
    ensures SendAll(stores, placed, item).Keys == stores.Keys
    ensures Held(SendAll(stores, placed, item), node, key)
         == if node in stores && Placement(node, key) in placed then Some(item) else Held(stores, node, key)
    decreases |placed|
  {
    if |placed| > 0 {
      var last := |placed| - 1;
      HeldAfterSends(stores, placed[..last], item, node, key);
      HeldAfterSend(SendAll(stores, placed[..last], item), placed[last], item, node, key);
      assert placed == placed[..last] + [placed[last]];
    }
  }

  // ---- What a put leaves behind ----

  /** The number of copies a put asks for, besides the original. */
  function Wanted(replication: Byte): nat {
    if replication < 2 then 0 else replication - 1
  }

  /** A put writes under k at this node: the original, or a copy that was placed there. */
  predicate Writes(find: Key -> Option<Id>, key: Key, replication: Byte, limit: Byte, node: Id, k: Key) {
    || (k == key && find(key) == Some(node))
    || Placement(node, k) in Replicas(key, limit, find(key), FindCopies(find, key), Wanted(replication))
  }

  lemma HeldAfterPut(find: Key -> Option<Id>, stores: map<Id, Store>, key: Key, item: Item,
                     replication: Byte, limit: Byte, node: Id, k: Key)
    ensures AfterPut(find, stores, key, item, replication, limit).Keys == stores.Keys
    ensures Held(AfterPut(find, stores, key, item, replication, limit), node, k)
         == if node in stores && Writes(find, key, replication, limit, node, k) then Some(item)
            else Held(stores, node, k)
  {
    var found := find(key);
    var stored := if found.Some? then Send(stores, found.value, key, item) else stores;
    if found.Some? { HeldAfterSend(stores, Placement(found.value, key), item, node, k); }
    HeldAfterSends(stored, Replicas(key, limit, found, FindCopies(find, key), Wanted(replication)), item, node, k);
  }

  /** A put changes nothing but the original and the copies at the nodes found for them. */
  lemma PutTouchesNothingElse(find: Key -> Option<Id>, stores: map<Id, Store>, key: Key, item: Item,
                              replication: Byte, limit: Byte, node: Id, k: Key)
    requires k == key ==> find(key) != Some(node)
    requires forall i :: 0 <= i < Wanted(replication) && k == CopyKey(key, i) ==> find(k) != Some(node)
    ensures Held(AfterPut(find, stores, key, item, replication, limit), node, k) == Held(stores, node, k)
  {
    HeldAfterPut(find, stores, key, item, replication, limit, node, k);
    var lookup := FindCopies(find, key);
    if Placement(node, k) in Replicas(key, limit, find(key), lookup, Wanted(replication)) {
      var i := PlacedIsACopy(key, limit, find(key), lookup, Wanted(replication), Placement(node, k));
    }
  }

  /** The keys of an item and of its first n copies. */
  function ItemKeys(key: Key, n: nat): set<Key> {
    {key} + set i | 0 <= i < n :: CopyKey(key, i)
  }

  /** Those under which a node holds the item. */
  function HeldKeys(stores: map<Id, Store>, node: Id, key: Key, item: Item, n: nat): set<Key> {
    set k | k in ItemKeys(key, n) && Held(stores, node, k) == Some(item)
  }

  /** Those under which a node holds something else than before. */
  function ChangedKeys(stores: map<Id, Store>, after: map<Id, Store>, node: Id, key: Key, n: nat): set<Key> {
    set k | k in ItemKeys(key, n) && Held(after, node, k) != Held(stores, node, k)
  }

  /** The keys a put writes at a node. */
  function WrittenKeys(key: Key, original: Option<Id>, placed: seq<Placement>, node: Id): set<Key> {
    KeysOn(placed, node) + if original == Some(node) then {key} else {}
  }

  lemma WrittenKeysAreCounted(key: Key, limit: Byte, original: Option<Id>, lookup: nat -> Option<Id>, n: nat, node: Id)
    requires n <= 254
    ensures var placed := Replicas(key, limit, original, lookup, n);
      && |WrittenKeys(key, original, placed, node)| == OnNode(original, placed, node)
      && WrittenKeys(key, original, placed, node) <= ItemKeys(key, n)
      && key !in KeysOn(placed, node)
  {
    var placed := Replicas(key, limit, original, lookup, n);
    CopyKeysAreDistinct(key, limit, original, lookup, n, placed);
    KeysAreCounted(placed, node);
    forall k | k in KeysOn(placed, node)
      ensures k in ItemKeys(key, n) && k != key
    {
      var i := PlacedIsACopy(key, limit, original, lookup, n, Placement(node, k));
      assert |k| != |key|;
    }
  }

  /**
    Every copy the put asked for whose lookup finds a node is there afterwards, or that node
    holds max(1, limit) of the item and its copies. A put never writes more of them at a node.
   */
  lemma PutStoresEveryCopy(find: Key -> Option<Id>, stores: map<Id, Store>, key: Key, item: Item,
                           replication: Byte, limit: Byte, i: nat, node: Id)
    requires node in stores
    ensures var after := AfterPut(find, stores, key, item, replication, limit);
            var n := Wanted(replication);
      && (find(key) == Some(node) ==> Held(after, node, key) == Some(item))
      && (i < n && find(CopyKey(key, i)) == Some(node) ==>
            || Held(after, node, CopyKey(key, i)) == Some(item)
            || |HeldKeys(after, node, key, item, n)| >= AtMost(limit))
      && |ChangedKeys(stores, after, node, key, n)| <= AtMost(limit)
  {
    var original, lookup, n := find(key), FindCopies(find, key), Wanted(replication);
    var placed := Replicas(key, limit, original, lookup, n);
    var after := AfterPut(find, stores, key, item, replication, limit);
    var written := WrittenKeys(key, original, placed, node);
    WrittenKeysAreCounted(key, limit, original, lookup, n, node);
    WrittenIsHeld(find, stores, key, item, replication, limit, node, written);
    LimitHolds(key, limit, original, lookup, n, node);
    SubsetIsSmaller(written, HeldKeys(after, node, key, item, n));
    SubsetIsSmaller(ChangedKeys(stores, after, node, key, n), written);
    HeldAfterPut(find, stores, key, item, replication, limit, node, key);
    if i < n && find(CopyKey(key, i)) == Some(node) {
      SkippedOnlyAtLimit(key, limit, original, lookup, n, i);
      HeldAfterPut(find, stores, key, item, replication, limit, node, CopyKey(key, i));
    }
  }

  lemma WrittenIsHeld(find: Key -> Option<Id>, stores: map<Id, Store>, key: Key, item: Item,
                      replication: Byte, limit: Byte, node: Id, written: set<Key>)
    requires node in stores
    requires written == WrittenKeys(key, find(key),
               Replicas(key, limit, find(key), FindCopies(find, key), Wanted(replication)), node)
    ensures var after := AfterPut(find, stores, key, item, replication, limit);
      && (written <= ItemKeys(key, Wanted(replication)) ==>
            written <= HeldKeys(after, node, key, item, Wanted(replication)))
      && ChangedKeys(stores, after, node, key, Wanted(replication)) <= written
  {
    var after := AfterPut(find, stores, key, item, replication, limit);
    forall k
      ensures k in written ==> Held(after, node, k) == Some(item)
      ensures k !in written ==> Held(after, node, k) == Held(stores, node, k)
    {
      HeldAfterPut(find, stores, key, item, replication, limit, node, k);
    }
  }

  /** A put whose first copy is allowed where it belongs. */
  predicate StoresFirstCopy(replication: Byte, limit: Byte, owner: Id, node: Id) {
    replication >= 2 && (node != owner || limit >= 2)
  }

  /** Right after a put: the original, and the first copy if it was stored, else what was there before. */
  lemma FirstCopyAfterPut(find: Key -> Option<Id>, stores: map<Id, Store>, key: Key, item: Item,
                          replication: Byte, limit: Byte, owner: Id, node: Id, copy: Key)
    requires copy == CopyKey(key, 0) && find(key) == Some(owner) && find(copy) == Some(node)
    requires owner in stores && node in stores
    ensures var after := AfterPut(find, stores, key, item, replication, limit);
      && after.Keys == stores.Keys
      && Held(after, owner, key) == Some(item)
      && Held(after, node, copy)
         == if StoresFirstCopy(replication, limit, owner, node) then Some(item) else Held(stores, node, copy)
  {
    HeldAfterPut(find, stores, key, item, replication, limit, owner, key);
    HeldAfterPut(find, stores, key, item, replication, limit, node, copy);
    assert |copy| != |key|;
    FirstPlacedExactlyWhen(key, limit, Some(owner), FindCopies(find, key), Wanted(replication), node);
  }

  // ---- Getting ----

  /**
    What a get returns in general: the original if it is found and there; otherwise what is
    under the first copy key for which a node is found, of as many as the average says.
   */
  lemma FetchExactly(find: Key -> Option<Id>, stores: map<Id, Store>, key: Key, average: Byte, i: nat)
    requires i <= average && forall j :: 0 <= j < i ==> FindCopies(find, key)(j).None?
    requires i < average ==> find(CopyKey(key, i)).Some?
    ensures Fetch(find, stores, key, average)
         == if find(key).Some? && Held(stores, find(key).value, key).Some? then Read(stores, find(key).value, key)
            else if i == average then None
            else Read(stores, find(CopyKey(key, i)).value, CopyKey(key, i))
  {
    var read := (node: Id, k: Key) => Read(stores, node, k);
    FallbackReadsFirst(key, average, FindCopies(find, key), read, 0, i);
  }

  /** When nodes are found for the original and the first copy, no other copy matters. */
  lemma FetchFromHeld(find: Key -> Option<Id>, stores: map<Id, Store>, key: Key, average: Byte, owner: Id, node: Id)
    requires find(key) == Some(owner) && find(CopyKey(key, 0)) == Some(node)
    ensures Fetch(find, stores, key, average)
         == if Held(stores, owner, key).Some? then Read(stores, owner, key)
            else if average == 0 then None
            else Read(stores, node, CopyKey(key, 0))
  {
    FetchExactly(find, stores, key, average, 0);
  }

  // ---- Losing an original ----

  /** What is left of an item once its node has erased some keys. */
  lemma HeldWithout(stores: map<Id, Store>, owner: Id, erased: set<Key>, node: Id, key: Key)
    requires owner in stores
    ensures Held(Without(stores, owner, erased), node, key)
         == if node == owner && key in erased then None else Held(stores, node, key)
  {
  }

  /**
    What copies are good for: the outcome of a read when the owner lost some keys after a put.
    A lost value is read back exactly when the put stored a first copy and that is not lost
    too; if the put stored none, the read returns the first copy of an earlier put.
   */
  lemma ReadAfterLoss(find: Key -> Option<Id>, stores: map<Id, Store>, key: Key, item: Item,
                      replication: Byte, limit: Byte, average: Byte, owner: Id, node: Id, lost: set<Key>)
    requires find(key) == Some(owner) && find(CopyKey(key, 0)) == Some(node)
    requires owner in stores && node in stores
    ensures var after := AfterPut(find, stores, key, item, replication, limit);
      && owner in after
      && Fetch(find, Without(after, owner, lost), key, average)
         == if key !in lost then Some(item.value)
            else if average == 0 || (node == owner && CopyKey(key, 0) in lost) then None
            else if StoresFirstCopy(replication, limit, owner, node) then Some(item.value)
            else Read(stores, node, CopyKey(key, 0))
  {
    var copy := CopyKey(key, 0);
    FirstCopyAfterPut(find, stores, key, item, replication, limit, owner, node, copy);
    var after := AfterPut(find, stores, key, item, replication, limit);
    HeldWithout(after, owner, lost, owner, key);
    HeldWithout(after, owner, lost, node, copy);
    FetchFromHeld(find, Without(after, owner, lost), key, average, owner, node);
  }

  /** The items the cleaner erases. */
  function Expired(store: Store, now: Instant): set<Key> {
    set key | key in store && ExpiredAt(store[key], now)
  }

  /**
    The same when the owner has swept its expired items: after the deadline of the value a
    read still returns its first copy, or one of an earlier put, unless that was swept as well.
   */
  lemma ReadAfterSweep(find: Key -> Option<Id>, stores: map<Id, Store>, key: Key, item: Item,
                       replication: Byte, limit: Byte, average: Byte, owner: Id, node: Id, now: Instant)
    requires find(key) == Some(owner) && find(CopyKey(key, 0)) == Some(node)
    requires owner in stores && node in stores
    ensures var after := AfterPut(find, stores, key, item, replication, limit);
            var copy := if StoresFirstCopy(replication, limit, owner, node) then Some(item)
                        else Held(stores, node, CopyKey(key, 0));
      && owner in after
      && Fetch(find, Without(after, owner, Expired(after[owner], now)), key, average)
         == if !ExpiredAt(item, now) then Some(item.value)
            else if average == 0 || copy.None? || (node == owner && ExpiredAt(copy.value, now)) then None
            else Some(copy.value.value)
  {
    FirstCopyAfterPut(find, stores, key, item, replication, limit, owner, node, CopyKey(key, 0));
    var after := AfterPut(find, stores, key, item, replication, limit);
    ReadAfterLoss(find, stores, key, item, replication, limit, average, owner, node, Expired(after[owner], now));
  }

  /**
    Reads of a value that has been overwritten: it was put with copies, the next value under
    the key without, and then the original was lost, or had a deadline and was swept.
   */
  lemma OverwrittenValueIsRead(find: Key -> Option<Id>, stores: map<Id, Store>, key: Key, overwritten: Data, item: Item,
                               replication: Byte, limit: Byte, average: Byte, owner: Id, node: Id,
                               earlier: Instant, now: Instant)
    requires find(key) == Some(owner) && find(CopyKey(key, 0)) == Some(node)
    requires owner in stores && node in stores
    requires StoresFirstCopy(replication, limit, owner, node) && average >= 1
    ensures var first := AfterPut(find, stores, key, Item(overwritten, Deadline(0, earlier)), replication, limit);
            var second := AfterPut(find, first, key, item, 1, limit);
      && owner in second
      && Fetch(find, second, key, average) == Some(item.value)
      && Fetch(find, Without(second, owner, {key}), key, average) == Some(overwritten)
      && (ExpiredAt(item, now) ==>
            Fetch(find, Without(second, owner, Expired(second[owner], now)), key, average) == Some(overwritten))
  {
    var copy := CopyKey(key, 0);
    StoredForever(overwritten, earlier);
    var before := Item(overwritten, Deadline(0, earlier));
    var first := AfterPut(find, stores, key, before, replication, limit);
    FirstCopyAfterPut(find, stores, key, before, replication, limit, owner, node, copy);
    FirstCopyAfterPut(find, first, key, item, 1, limit, owner, node, copy);
    FetchFromHeld(find, AfterPut(find, first, key, item, 1, limit), key, average, owner, node);
    assert copy !in {key} by { assert |copy| != |key|; }
    ReadAfterLoss(find, first, key, item, 1, limit, average, owner, node, {key});
    ReadAfterSweep(find, first, key, item, 1, limit, average, owner, node, now);
  }
}
