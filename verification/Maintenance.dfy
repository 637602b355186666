/**
  The maintenance operations of a node on its own state. What other nodes answer comes in
  as a parameter, and a message to send comes out as a result.
 */
module Maintenance {
  import opened Options
  import opened Ring
  import opened Pointers
  import opened Storage
  import opened NodeInfo

  /** The server side of a node: what it does when peers call it. */
  class PeerImpl {
    const info: NodeInformation

    constructor (info: NodeInformation)
      ensures this.info == info
    {
      this.info := info;
    }

    method Notify(node: Id)
      requires info.Valid()
      modifies info`predecessor
      ensures info.State() == Notified(info.id, old(info.State()), node)
      ensures var before := old(info.predecessor);
        info.predecessor ==
          if before.None? || Dist(before.value, node) < Dist(before.value, info.id) then Some(node) else before
    {
      var pred := info.predecessor;
      if pred.None? || InRange(node, pred.value, info.id, false, false) {
        info.SetPredecessor(Some(node));
      }
    }

    /** The part of a lookup a node does alone. */
    method AnswerAlone(id: Id) returns (r: Option<Id>)
      requires info.Valid()
      ensures r == OwnAnswer(info.id, info.State(), id)
      ensures var pred, s := info.predecessor, Succ(info.State());
        r == (if pred.Some? && Dist(pred.value, id) <= Dist(pred.value, info.id) then Some(info.id)
              else if s.Some? && Dist(info.id, id) <= Dist(info.id, s.value) then s
              else None)
    {
      var pred := info.predecessor;
      if pred.Some? && InRange(id, pred.value, info.id, false, true) {
        return Some(info.id);
      }
      var successor := info.GetSuccessor();
      if successor.Some? && InRange(id, info.id, successor.value, false, true) {
        return successor;
      }
      return None;
    }

    /** Fingers are tried from the highest down. */
    method GetClosestPreceding(id: Id) returns (r: Option<Id>)
      requires info.Valid()
      ensures r == ClosestPreceding(info.id, info.State().fingers, id)
    {
      ghost var fingers := info.State().fingers;
      var i := KEY_BITS;
      while i >= 1
        invariant 0 <= i <= KEY_BITS
        invariant forall j :: i <= j < KEY_BITS && fingers[j].Some? ==> !Inside(info.id, fingers[j].value, id)
      {
        var finger := info.fingerTable[i - 1];
        if finger.Some? && InRange(finger.value, info.id, id, false, false) {
          ClosestPrecedingIsHighest(info.id, fingers, id, i - 1);
          return finger;
        }
        i := i - 1;
      }
      return None;
    }

    /** Handing data to a node that joins right before this one; only called when a predecessor is known. */
    method GetDataItemsOnJoin(newNode: Id, hash: Key -> Id) returns (parcels: seq<Parcel>)
      requires info.predecessor.Some?
      modifies info`data
      ensures forall p :: p in parcels ==> p.seconds * TICKS <= NEVER
      ensures (info.data, Unpack(parcels, map[]))
           == Handoff(old(info.data), hash, info.predecessor.value, info.id, newNode)
      ensures forall key :: key in old(info.data) ==>
        (key in Unpack(parcels, map[]) <==>
           Inside(info.predecessor.value, newNode, info.id) && Upto(info.predecessor.value, hash(key), newNode))
      ensures forall key :: key in info.data <==> key in old(info.data) && key !in Unpack(parcels, map[])
      ensures forall key :: key in info.data ==> info.data[key] == old(info.data[key])
    {
      HandoffConserves(info.data, hash, info.predecessor.value, info.id, newNode);
      parcels := [];
      if !InRange(newNode, info.predecessor.value, info.id, false, false) {
        return;
      }
      var items := info.GetDataItemsForNodeId(newNode, hash);
      var keys, packed := Pack(items);
      parcels := packed;
      info.DeleteDataAssignedToPredecessor(keys);
    }

    /** The items as a list of keys to delete and a message to send. */
    static method Pack(items: Store) returns (keys: seq<Key>, parcels: seq<Parcel>)
      ensures (set key | key in keys) == items.Keys
      ensures forall p :: p in parcels ==> p.seconds * TICKS <= NEVER
      ensures Unpack(parcels, map[]) == Shipped(items)
    {
      keys, parcels := [], [];
      var done: Store := map[];
      var rest := items;
      while rest.Keys != {}
        invariant forall key :: key in items <==> key in done || key in rest
        invariant forall key :: key in done ==> key in items && done[key] == items[key]
        invariant forall key :: key in rest ==> key in items && rest[key] == items[key]
        invariant (set key | key in keys) == done.Keys
        invariant forall p :: p in parcels ==> p.seconds * TICKS <= NEVER
        invariant Unpack(parcels, map[]) == Shipped(done)
        decreases |rest.Keys|
      {
        var key :| key in rest.Keys;
        var item := rest[key];
        var parcel := Parcel(key, item.value, item.expires / TICKS);
        UnpackOneMore(parcels, parcel, map[]);
        ShippedOneMore(done, key, item);
        keys := keys + [key];
        parcels := parcels + [parcel];
        done := done[key := item];
        rest := rest - {key};
      }
      assert done == items;
    }

    /** Taking over the data received from the successor. */
    method StoreReceived(parcels: seq<Parcel>)
      requires forall p :: p in parcels ==> p.seconds * TICKS <= NEVER
      modifies info`data
      ensures info.data == Unpack(parcels, old(info.data))
      ensures forall key :: key in old(info.data) && !Carries(parcels, key) ==>
        key in info.data && info.data[key] == old(info.data)[key]
      ensures forall key :: key in info.data ==> key in old(info.data) || Carries(parcels, key)
    {
      var i := 0;
      while i < |parcels|
        invariant 0 <= i <= |parcels|
        invariant info.data == Unpack(parcels[..i], old(info.data))
      {
        assert parcels[..i + 1] == parcels[..i] + [parcels[i]];
        UnpackOneMore(parcels[..i], parcels[i], old(info.data));
        info.SetDataExpires(parcels[i].key, parcels[i].value, parcels[i].seconds * TICKS);
        i := i + 1;
      }
      assert parcels[..i] == parcels;
      forall key | !Carries(parcels, key)
        ensures key in info.data <==> key in old(info.data)
        ensures key in info.data ==> info.data[key] == old(info.data)[key]
      {
        UnpackKeepsOthers(parcels, old(info.data), key);
      }
    }
  }

  /**
    How an attempt to join ends: a request fails, or the bootstrap node's answer has no
    successor in it, or it has one, which then sends its data (none when that request fails).
   */
  datatype JoinReply =
    | Failed
    | NoSuccessor
    | Accepted(successor: Id, parcels: seq<Parcel>)

  /** The periodic side of a node: its main loop calls these. */
  class Dht {
    const peer: PeerImpl
    const info: NodeInformation
    var nextFinger: nat

    constructor (peer: PeerImpl)
      ensures this.peer == peer && info == peer.info && nextFinger == 0
    {
      this.peer := peer;
      this.info := peer.info;
      nextFinger := 0;
    }

    method Create()
      requires info.Valid()
      modifies info`predecessor, info.fingerTable
      ensures info.State() == Pointers.SetSuccessor(old(info.State()), Some(info.id)).(pred := None)
      ensures old(info.State()).fingers == EmptyTable() ==> info.State() == Joined(info.id)
    {
      info.SetPredecessor(None);
      info.SetSuccessor(Some(info.id));
    }

    /** Joining with the reply of the bootstrap node. */
    method Join(reply: JoinReply)
      requires info.Valid() && peer.info == info
      requires reply.Accepted? ==> forall p :: p in reply.parcels ==> p.seconds * TICKS <= NEVER
      modifies info`predecessor, info`data, info.fingerTable
      ensures reply.Failed? ==> info.State() == old(info.State()).(pred := None)
      ensures reply.NoSuccessor? ==> info.State() == Pointers.SetSuccessor(old(info.State()), None).(pred := None)
      ensures reply.Accepted? ==>
        && info.State() == Pointers.SetSuccessor(old(info.State()), Some(reply.successor)).(pred := None)
        && info.data == Unpack(reply.parcels, old(info.data))
        && (old(info.State()).fingers == EmptyTable() ==> info.State() == Joined(reply.successor))
      ensures !reply.Accepted? ==> info.data == old(info.data)
    {
      info.SetPredecessor(None);
      match reply
      case Failed =>
      case NoSuccessor =>
        info.SetSuccessor(None);
      case Accepted(successor, parcels) =>
        info.SetSuccessor(Some(successor));
        peer.StoreReceived(parcels);
    }

    /** A stabilize round given what the successor reported; the result is the node to notify. */
    method Stabilize(predOfSuccessor: Option<Id>) returns (target: Option<Id>)
      requires info.Valid()
      modifies info.fingerTable
      ensures (info.State(), target) == Stabilized(info.id, old(info.State()), predOfSuccessor)
      ensures forall k :: 0 < k < KEY_BITS ==> info.fingerTable[k] == old(info.fingerTable[k])
      ensures info.predecessor == old(info.predecessor)
      ensures var s := old(Succ(info.State()));
              var adopts := s.Some? && predOfSuccessor.Some? && predOfSuccessor.value != info.id
                            && Dist(info.id, predOfSuccessor.value) < Dist(info.id, s.value);
        && info.fingerTable[0] == (if adopts then predOfSuccessor else old(info.fingerTable[0]))
        && target == (if s.None? || predOfSuccessor == Some(info.id) then None
                      else if adopts then predOfSuccessor else s)
    {
      var successor := info.GetSuccessor();
      if successor.None? {
        return None;
      }
      if !(predOfSuccessor.Some? && predOfSuccessor.value == info.id) {
        if predOfSuccessor.Some? && InRange(predOfSuccessor.value, info.id, successor.value, false, false) {
          info.SetSuccessor(predOfSuccessor);
          return predOfSuccessor;
        } else {
          return successor;
        }
      }
      return None;
    }

    /** Repairing the next finger with the outcome of its lookup. */
    method FixFingers(answer: Option<Id>)
      requires info.Valid() && nextFinger < KEY_BITS
      modifies this`nextFinger, info.fingerTable
      ensures nextFinger == (old(nextFinger) + 1) % KEY_BITS
      ensures info.State() == old(info.State()).(fingers := old(info.State()).fingers[old(nextFinger) := answer])
    {
      var r := info.SetFinger(nextFinger, answer);
      nextFinger := (nextFinger + 1) % KEY_BITS;
    }
  }
}
