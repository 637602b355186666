/**
  The data a node holds: values with an expiry instant under byte-string keys, and
  the part of them that belongs to a node joining just before this one.
 */
module Storage {
  import opened Options
  import opened Ring
  import opened Bytes

  type Key = seq<Byte>
  type Data = seq<Byte>

  /** Ticks of the system clock (nanoseconds) in one second. */
  const TICKS: nat := 1_000_000_000
  /** The last instant the clock can express; the expiry of data stored without a time to live. */
  const NEVER: nat := 0x7fff_ffff_ffff_ffff

  type Instant = t: nat | t <= NEVER

  datatype Item = Item(value: Data, expires: Instant)
  type Store = map<Key, Item>

  /** One item of a handoff message; the expiry travels in whole seconds. */
  datatype Parcel = Parcel(key: Key, value: Data, seconds: nat)

  function Lookup(store: Store, key: Key): Option<Data> {
    if key in store then Some(store[key].value) else None
  }

  /** When data stored now with a time to live in seconds expires; zero means never. */
  function Deadline(ttl: nat, now: Instant): Instant
    requires now + ttl * TICKS <= NEVER
  {
    if ttl > 0 then now + ttl * TICKS else NEVER
  }

  /** The cleaner's test. */
  predicate ExpiredAt(item: Item, t: Instant) {
    item.expires < t
  }

  /** An item stored with a time to live is erased after that time, and one without is never. */
  lemma ExpiresExactlyWhen(value: Data, ttl: nat, now: Instant, t: Instant)
    requires now + ttl * TICKS <= NEVER
    ensures ExpiredAt(Item(value, Deadline(ttl, now)), t) <==> ttl > 0 && now + ttl * TICKS < t
  {
  }

  lemma StoredForever(value: Data, now: Instant)
    ensures Item(value, Deadline(0, now)) == Item(value, NEVER)
  {
    ExpiresExactlyWhen(value, 0, now, NEVER);
  }

  /** The items whose key hashes into (pred, newNode]; without a predecessor, all of them. */
  function ItemsFor(store: Store, hash: Key -> Id, pred: Option<Id>, newNode: Id): Store {
    var from := if pred.Some? then pred.value else newNode;
    map key | key in store && Upto(from, hash(key), newNode) :: store[key]
  }

  function WholeSeconds(expires: Instant): (t: Instant)
    ensures expires - TICKS < t <= expires
    ensures t / TICKS == expires / TICKS
  {
    (expires / TICKS) * TICKS
  }

  /** An item after it travelled in a handoff message. */
  function Shipped(store: Store): Store {
    map key | key in store :: Item(store[key].value, WholeSeconds(store[key].expires))
  }

  /** A handoff: what the serving node keeps, and what the new node receives. */
  function Handoff(store: Store, hash: Key -> Id, pred: Id, self: Id, newNode: Id): (r: (Store, Store)) {
    if !Inside(pred, newNode, self) then (store, map[])
    else
      var moved := ItemsFor(store, hash, Some(pred), newNode);
      (store - moved.Keys, Shipped(moved))
  }

  /**
    A handoff loses nothing and duplicates nothing: what moves is exactly the part of the
    newcomer's arc, and nothing when it does not fall between predecessor and self.
   */
  lemma HandoffConserves(store: Store, hash: Key -> Id, pred: Id, self: Id, newNode: Id)
    ensures var (kept, received) := Handoff(store, hash, pred, self, newNode);
      && kept.Keys !! received.Keys
      && kept.Keys + received.Keys == store.Keys
      && (forall key :: key in store ==>
           (key in received <==> Inside(pred, newNode, self) && Upto(pred, hash(key), newNode)))
      && (forall key :: key in kept ==> kept[key] == store[key])
      && (forall key :: key in received ==>
           && received[key].value == store[key].value
           && store[key].expires - TICKS < received[key].expires <= store[key].expires)
      && (forall key :: key in kept && Inside(pred, newNode, self) && Upto(pred, hash(key), self) ==>
           Upto(newNode, hash(key), self))
  {
  }

  /** Reading the message back item by item. */
  function Unpack(parcels: seq<Parcel>, into: Store): Store
    requires forall p :: p in parcels ==> p.seconds * TICKS <= NEVER
  {
    if |parcels| == 0 then into
    else
      var p := parcels[|parcels| - 1];
      Unpack(parcels[..|parcels| - 1], into)[p.key := Item(p.value, p.seconds * TICKS)]
  }

  lemma UnpackOneMore(parcels: seq<Parcel>, p: Parcel, into: Store)
    requires forall q :: q in parcels + [p] ==> q.seconds * TICKS <= NEVER
    ensures forall q :: q in parcels ==> q.seconds * TICKS <= NEVER
    ensures Unpack(parcels + [p], into) == Unpack(parcels, into)[p.key := Item(p.value, p.seconds * TICKS)]
  {
  }

  predicate Carries(parcels: seq<Parcel>, key: Key) {
    exists i :: 0 <= i < |parcels| && parcels[i].key == key
  }

  /** What was there before the message stays, unless the message has an item under the same key... */
  lemma {:induction false} UnpackKeepsOthers(parcels: seq<Parcel>, into: Store, key: Key)
    requires forall p :: p in parcels ==> p.seconds * TICKS <= NEVER
    requires !Carries(parcels, key)
    ensures key in Unpack(parcels, into) <==> key in into
    ensures key in into ==> Unpack(parcels, into)[key] == into[key]
  {
    if |parcels| > 0 {
      UnpackKeepsOthers(parcels[..|parcels| - 1], into, key);
    }
  }

  /** ...and then the last one of them is there. */
  lemma {:induction false} UnpackStores(parcels: seq<Parcel>, into: Store, i: nat)
    requires forall p :: p in parcels ==> p.seconds * TICKS <= NEVER
    requires i < |parcels| && forall j :: i < j < |parcels| ==> parcels[j].key != parcels[i].key
    ensures parcels[i].key in Unpack(parcels, into)
    ensures Unpack(parcels, into)[parcels[i].key] == Item(parcels[i].value, parcels[i].seconds * TICKS)
  {
    if i < |parcels| - 1 {
      UnpackStores(parcels[..|parcels| - 1], into, i);
    }
  }

  lemma ShippedOneMore(store: Store, key: Key, item: Item)
    ensures Shipped(store[key := item]) == Shipped(store)[key := Item(item.value, WholeSeconds(item.expires))]
  {
  }
}
