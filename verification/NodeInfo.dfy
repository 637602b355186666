/** The mutable state of one node, and the operations that change it in place. */
module NodeInfo {
  import opened Options
  import opened Ring
  import opened Pointers
  import opened Storage

  datatype Result<+T> = Ok(value: T) | OutOfRange

  class NodeInformation {
    const id: Id
    const fingerTable: array<Option<Id>>
    var predecessor: Option<Id>
    var data: Store

    ghost predicate Valid() {
      fingerTable.Length == KEY_BITS
    }

    /** The routing state as a value. */
    ghost function State(): Node
      reads this, fingerTable
      requires Valid()
    {
      Node(fingerTable[..], predecessor)
    }

    constructor (id: Id)
      ensures Valid() && fresh(fingerTable) && this.id == id
      ensures State() == Node(EmptyTable(), None) && data == map[]
    {
      this.id := id;
      fingerTable := new Option<Id>[KEY_BITS](_ => None);
      predecessor := None;
      data := map[];
      new;
      assert fingerTable[..] == EmptyTable();
    }

    method GetFinger(index: nat) returns (r: Result<Option<Id>>)
      requires Valid()
      ensures r.OutOfRange? <==> index >= KEY_BITS
      ensures r.Ok? ==> r.value == State().fingers[index]
    {
      if index >= fingerTable.Length {
        return OutOfRange;
      }
      return Ok(fingerTable[index]);
    }

    method SetFinger(index: nat, node: Option<Id>) returns (r: Result<()>)
      requires Valid()
      modifies fingerTable
      ensures r.OutOfRange? <==> index >= KEY_BITS
      ensures State() == if r.Ok? then old(State()).(fingers := old(State()).fingers[index := node]) else old(State())
    {
      if index >= fingerTable.Length {
        return OutOfRange;
      }
      fingerTable[index] := node;
      return Ok(());
    }

    /** The first populated finger. */
    method GetSuccessor() returns (r: Option<Id>)
      requires Valid()
      ensures r == Succ(State())
    {
      var i := 0;
      while i < fingerTable.Length
        invariant 0 <= i <= fingerTable.Length
        invariant FirstFinger(fingerTable[..]) == FirstFinger(fingerTable[i..])
      {
        if fingerTable[i].Some? {
          return fingerTable[i];
        }
        assert fingerTable[i..][1..] == fingerTable[i + 1..];
        i := i + 1;
      }
      return fingerTable[0];
    }

    method SetSuccessor(node: Option<Id>)
      requires Valid()
      modifies fingerTable
      ensures State() == Pointers.SetSuccessor(old(State()), node)
      ensures fingerTable[0] == node && predecessor == old(predecessor)
      ensures forall k :: 0 < k < KEY_BITS ==> fingerTable[k] == old(fingerTable[k])
    {
      fingerTable[0] := node;
    }

    method SetPredecessor(node: Option<Id>)
      requires Valid()
      modifies this`predecessor
      ensures State() == old(State()).(pred := node)
    {
      predecessor := node;
    }

    method GetData(key: Key) returns (r: Option<Data>)
      ensures r == Storage.Lookup(data, key)
    {
      r := if key in data then Some(data[key].value) else None;
    }

    method SetDataExpires(key: Key, value: Data, expires: Instant)
      modifies this`data
      ensures data == old(data)[key := Item(value, expires)]
    {
      data := data[key := Item(value, expires)];
    }

    /** Storing with a time to live in seconds; zero means forever. */
    method SetData(key: Key, value: Data, ttl: nat, now: Instant)
      requires now + ttl * TICKS <= NEVER
      modifies this`data
      ensures data == old(data)[key := Item(value, Deadline(ttl, now))]
      ensures data[key].value == value
      ensures forall t: Instant {:trigger ExpiredAt(data[key], t)} ::
        ExpiredAt(data[key], t) <==> ttl > 0 && now + ttl * TICKS < t
    {
      forall t: Instant {:trigger ExpiredAt(Item(value, Deadline(ttl, now)), t)}
        ensures ExpiredAt(Item(value, Deadline(ttl, now)), t) <==> ttl > 0 && now + ttl * TICKS < t
      {
        ExpiresExactlyWhen(value, ttl, now, t);
      }
      SetDataExpires(key, value, Deadline(ttl, now));
    }

    /** The cleaner's pass over the data, reading the clock before each test. */
    method Clean(clock: nat -> Instant)
      requires forall i, j :: i <= j ==> clock(i) <= clock(j)
      modifies this`data
      ensures data.Keys <= old(data).Keys && forall key :: key in data ==> data[key] == old(data)[key]
      ensures forall key :: key in old(data) && ExpiredAt(old(data)[key], clock(0)) ==> key !in data
      ensures forall key :: key in old(data) && !ExpiredAt(old(data)[key], clock(|old(data)|)) ==> key in data
    {
      var rest := data.Keys;
      var tick := 0;
      while rest != {}
        invariant tick + |rest| == |old(data).Keys|
        invariant rest <= data.Keys <= old(data).Keys
        invariant forall key :: key in data ==> data[key] == old(data)[key]
        invariant forall key :: key in old(data) && key !in rest && ExpiredAt(old(data)[key], clock(0)) ==> key !in data
        invariant forall key :: key in old(data) && !ExpiredAt(old(data)[key], clock(|old(data)|)) ==> key in data
        decreases |rest|
      {
        var key :| key in rest;
        var now := clock(tick);
        if ExpiredAt(data[key], now) {
          data := data - {key};
        }
        rest := rest - {key};
        tick := tick + 1;
      }
    }

    /** The items a node joining before this one becomes responsible for. */
    method GetDataItemsForNodeId(newNode: Id, hash: Key -> Id) returns (items: Store)
      ensures items == ItemsFor(data, hash, predecessor, newNode)
      ensures predecessor.None? ==> items == data
    {
      var from := if predecessor.Some? then predecessor.value else newNode;
      items := map[];
      var rest := data.Keys;
      while rest != {}
        invariant rest <= data.Keys
        invariant forall key :: key in items <==> key in data && key !in rest && Upto(from, hash(key), newNode)
        invariant forall key :: key in items ==> items[key] == data[key]
        decreases |rest|
      {
        var key :| key in rest;
        if Upto(from, hash(key), newNode) {
          items := items[key := data[key]];
        }
        rest := rest - {key};
      }
    }

    method DeleteDataAssignedToPredecessor(keys: seq<Key>)
      modifies this`data
      ensures data == old(data) - (set key | key in keys)
    {
      var i := 0;
      while i < |keys|
        invariant 0 <= i <= |keys|
        invariant data == old(data) - (set key | key in keys[..i])
      {
        data := data - {keys[i]};
        assert keys[..i + 1] == keys[..i] + [keys[i]];
        i := i + 1;
      }
      assert keys[..i] == keys;
    }
  }
}
