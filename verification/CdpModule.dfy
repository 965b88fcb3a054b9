/** The two kernel hooks that drive the neighbour table, each atomic under the table's write
    lock: module/cdp_receive.c and the timer of module/cdp_module.c. */
module CdpModule {
  import opened Bytes
  import opened NeighborTable
  import opened Neighbors
  import opened TransmitTimer

  lemma ReceiveIs(t: seq<Entry>, deviceType: int, id: Identity, now: Timespec, frame: seq<Byte>, k: nat,
                  after: seq<Entry>)
    requires k <= |t| && (k < |t| ==> t[k].id == id) && (forall i | 0 <= i < k :: t[i].id != id)
    requires var found := if k < |t| then t else t + [NewEntry(deviceType, id)];
             after == found[k := Accept(found[k].(receivedAt := now), frame)]
    ensures after == Receive(t, deviceType, id, now, frame)
  {
    LookupIs(t, id, k);
  }

  class CdpModule {
    const neighbors: NeighborList
    var lastFrameTransmitted: Timespec

    constructor ()
      ensures neighbors.Valid() && neighbors.AsTable() == EMPTY
      ensures fresh(neighbors)
    {
      neighbors := new NeighborList();
      lastFrameTransmitted := Timespec(0, 0);
    }

    /** Stamps the neighbour and stores the frame. */
    method Store(neighbor: Neighbor, ghost k: nat, now: Timespec, frame: seq<Byte>)
      requires neighbors.Valid() && k < |neighbors.nodes| && neighbors.nodes[k] == neighbor
      modifies neighbor`receivedAt, neighbor`frameBuffer, neighbor`frameBufferSize, neighbor`frameBufferLength
      modifies neighbor.Buffer()
      ensures neighbors.Valid()
      ensures neighbors.Entries()
              == old(neighbors.Entries())[k := Accept(old(neighbors.Entries())[k].(receivedAt := now), frame)]
    {
      assert neighbor in neighbors.nodes && neighbor.Valid();
      neighbor.receivedAt := now;
      assert neighbor.AsEntry() == old(neighbor.AsEntry()).(receivedAt := now);
      var _ := neighbor.SetFrameBuffer(frame);
      OthersKept(neighbor);
    }

    /** Changing one node's buffer leaves the other entries alone. */
    twostate lemma OthersKept(neighbor: Neighbor)
      requires old(neighbors.Valid()) && neighbor in old(neighbors.nodes) && neighbor.Valid()
      requires unchanged(neighbors) && unchanged(neighbor`next, neighbor`prev)
      requires forall n | n in old(neighbors.nodes) && n != neighbor :: unchanged(n)
      requires forall n, b | n in old(neighbors.nodes) && n != neighbor && b in old(n.Buffer()) :: unchanged(b)
      requires fresh(neighbor.Buffer() - old(neighbor.Buffer()))
      ensures neighbors.Valid()
      ensures forall i | 0 <= i < |neighbors.nodes| && neighbors.nodes[i] != neighbor ::
                neighbors.Entries()[i] == old(neighbors.Entries())[i]
    {
      forall n | n in neighbors.nodes ensures n.next == old(n.next) && n.prev == old(n.prev) {
      }
      forall n | n in neighbors.nodes && n != neighbor
        ensures n.Valid() && n.Buffer() == old(n.Buffer()) && n.AsEntry() == old(n.AsEntry())
      {
      }
    }

    /** Finds or creates the neighbour, at index k, and stores the frame with it. */
    method ReceiveFrom(deviceType: int, id: Identity, now: Timespec, frame: seq<Byte>) returns (ghost k: nat)
      requires neighbors.Valid() && |id.mac| == 6
      modifies neighbors, neighbors.nodes, neighbors.Buffers()
      ensures neighbors.Valid() && old(neighbors.FirstAt(id, k))
      ensures var t := old(neighbors.Entries());
              var found := if k < |t| then t else t + [NewEntry(deviceType, id)];
              neighbors.Entries() == found[k := Accept(found[k].(receivedAt := now), frame)]
      ensures neighbors.count == old(neighbors.count) + (if old(neighbors.nodes) == [] then 1 else 0)
    {
      var neighbor;
      neighbor, k := neighbors.GetOrCreateByIdentity(deviceType, id);
      if neighbor != null {
        Store(neighbor, k, now, frame);
      }
    }

    /** A frame that is not from an Ethernet device is ignored; any other is stored under its
        interface and source address. */
    method ReceiveFrame(deviceType: int, name: CString, source: seq<Byte>, now: Timespec, frame: seq<Byte>)
      requires neighbors.Valid() && |source| == 6
      modifies neighbors, neighbors.nodes, neighbors.Buffers()
      ensures neighbors.Valid()
      ensures neighbors.AsTable()
              == Step(old(neighbors.AsTable()), Received(deviceType, Identity(name, source), now, frame))
      ensures deviceType != 1 ==> neighbors.AsTable() == old(neighbors.AsTable())
    {
      if deviceType == ARPHRD_ETHER {
        ghost var t := neighbors.Entries();
        var k := ReceiveFrom(deviceType, Identity(name, source), now, frame);
        ReceiveIs(t, deviceType, Identity(name, source), now, frame, k, neighbors.Entries());
      }
    }

    /** Tells whether a transmission is due and notes its time; the interval is compared without
        sign. */
    method TransmitIfDue(now: Timespec) returns (transmit: bool)
      requires neighbors.Valid()
      modifies this`lastFrameTransmitted
      ensures neighbors.Valid() && neighbors.AsTable() == old(neighbors.AsTable())
      ensures NoOverflow(old(lastFrameTransmitted), now) ==>
                (transmit <==> Due(old(lastFrameTransmitted), now))
                && 0 <= now.sec - lastFrameTransmitted.sec < 5
      ensures lastFrameTransmitted == if transmit then now else old(lastFrameTransmitted)
    {
      transmit := SizeT((now.sec - lastFrameTransmitted.sec) * 1000) >= TRANSMIT_INTERVAL_MS;
      if NoOverflow(lastFrameTransmitted, now) {
        UnsignedComparison(lastFrameTransmitted, now);
      }
      if transmit {
        lastFrameTransmitted := now;
      }
      neighbors.Unaffected();
    }

    method PurgeTable(now: Timespec)
      requires neighbors.Valid()
      modifies neighbors, neighbors.nodes
      ensures neighbors.Valid() && neighbors.AsTable() == Step(old(neighbors.AsTable()), Tick(now))
    {
      var _ := neighbors.PurgeExpiredNeighbors(now);
    }

    /** Purges the table and tells whether this tick transmits. */
    method TimerEvent(now: Timespec) returns (transmit: bool)
      requires neighbors.Valid()
      modifies this`lastFrameTransmitted, neighbors, neighbors.nodes
      ensures neighbors.Valid()
      ensures neighbors.AsTable() == Step(old(neighbors.AsTable()), Tick(now))
      ensures NoOverflow(old(lastFrameTransmitted), now) ==>
                (transmit <==> Due(old(lastFrameTransmitted), now))
                && 0 <= now.sec - lastFrameTransmitted.sec < 5
      ensures lastFrameTransmitted == if transmit then now else old(lastFrameTransmitted)
    {
      PurgeTable(now);
      transmit := TransmitIfDue(now);
    }
  }
}
