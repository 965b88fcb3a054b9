/** libcdp/cdp_neighbor.c: neighbours in an intrusive doubly linked list. Entries() is the
    list as a value of module NeighborTable. */
module Neighbors {
  import opened Bytes
  import opened NeighborTable

  function Removed<T>(s: seq<T>, k: nat): seq<T>
    requires k < |s|
  {
    s[..k] + s[k + 1..]
  }

  class Neighbor {
    const deviceType: int
    const id: Identity
    var receivedAt: Timespec
    var frameBuffer: array?<Byte>
    var frameBufferSize: nat
    var frameBufferLength: nat
    var next: Neighbor?
    var prev: Neighbor?

    ghost predicate Valid()
      reads this
    {
      && (frameBuffer == null ==> frameBufferSize == 0 && frameBufferLength == 0)
      && (frameBuffer != null ==> frameBufferSize == frameBuffer.Length && 0 < frameBufferLength <= frameBufferSize)
    }

    ghost function Buffer(): set<object>
      reads this
    {
      if frameBuffer == null then {} else {frameBuffer}
    }

    ghost function AsEntry(): Entry
      requires Valid()
      reads this, Buffer()
    {
      Entry(deviceType, id, receivedAt, frameBufferSize,
            if frameBuffer == null then [] else frameBuffer[..frameBufferLength])
    }

    constructor (deviceType: int, id: Identity)
      ensures Valid() && AsEntry() == NewEntry(deviceType, id)
      ensures this.deviceType == deviceType && this.id == id && receivedAt == Timespec(0, 0)
      ensures next == null && prev == null && frameBuffer == null
    {
      this.deviceType, this.id := deviceType, id;
      receivedAt := Timespec(0, 0);
      frameBuffer, frameBufferSize, frameBufferLength := null, 0, 0;
      next, prev := null, null;
    }

    /** Fails on an empty frame and on nothing else: no buffer is ever found corrupt. */
    method SetFrameBuffer(frame: seq<Byte>) returns (rc: int)
      requires Valid()
      modifies this`frameBuffer, this`frameBufferSize, this`frameBufferLength, Buffer()
      ensures Valid() && AsEntry() == Accept(old(AsEntry()), frame)
      ensures rc == 0 <==> frame != []
      ensures fresh(Buffer() - old(Buffer()))
    {
      if |frame| == 0 {
        return -1;
      }
      if frameBuffer != null && frameBufferSize < |frame| {
        frameBuffer := null;
        frameBufferLength := 0;
        frameBufferSize := 0;
      }
      if frameBuffer == null {
        if frameBufferSize > 0 {
          return -1;
        }
        if frameBufferLength > 0 {
          return -1;
        }
        frameBuffer := new Byte[|frame|];
        frameBufferSize := |frame|;
      }
      if frameBufferSize < |frame| {
        return -1;
      }
      forall i | 0 <= i < |frame| {
        frameBuffer[i] := frame[i];
      }
      frameBufferLength := |frame|;
      assert frameBuffer[..frameBufferLength] == frame;
      return 0;
    }

    function GetHoldTime(): (holdTime: int)
      requires Valid()
      reads this, Buffer()
      ensures holdTime == HoldTime(AsEntry())
    {
      if frameBuffer == null then 0
      else if frameBufferSize < 4 then 0
      else if frameBufferLength < 2 then 0
      else frameBuffer[1]
    }

    predicate IsExpired(now: Timespec): (expired: bool)
      requires Valid()
      reads this, Buffer()
      ensures expired == Expired(AsEntry(), now)
    {
      var secondsSinceUpdate := Int32(now.sec - receivedAt.sec);
      Int32(secondsSinceUpdate + 1) >= GetHoldTime()
    }
  }

  class NeighborList {
    var head: Neighbor?
    var tail: Neighbor?
    var count: int
    ghost var nodes: seq<Neighbor>

    /** head and the next links run through ns. */
    ghost predicate Forward(ns: seq<Neighbor>)
      reads this, ns
    {
      && (head == if ns == [] then null else ns[0])
      && (forall i {:trigger ns[i].next} | 0 <= i < |ns| :: ns[i].next == if i + 1 < |ns| then ns[i + 1] else null)
    }

    /** tail and the prev links run through ns, backwards. */
    ghost predicate Backward(ns: seq<Neighbor>)
      reads this, ns
    {
      && (tail == if ns == [] then null else ns[|ns| - 1])
      && (forall i {:trigger ns[i].prev} | 0 <= i < |ns| :: ns[i].prev == if i > 0 then ns[i - 1] else null)
    }

    /** Both directions describe one acyclic sequence of nodes. */
    ghost predicate Linked()
      reads this, nodes
    {
      Forward(nodes) && Backward(nodes) && (forall i, j | 0 <= i < j < |nodes| :: nodes[i] != nodes[j])
    }

    /** Every node's buffer is consistent and its own. */
    ghost predicate Buffered()
      reads this, nodes
    {
      && (forall n | n in nodes :: n.Valid())
      && (forall m, n | m in nodes && n in nodes && m != n :: m.Buffer() !! n.Buffer())
    }

    ghost predicate Valid()
      reads this, nodes
    {
      Linked() && Buffered()
    }

    ghost function Buffers(): set<object>
      reads this, nodes
    {
      set n, b | n in nodes && b in n.Buffer() :: b
    }

    ghost function Entries(): (t: seq<Entry>)
      requires Buffered()
      reads this, nodes, Buffers()
      ensures |t| == |nodes|
      ensures forall i | 0 <= i < |t| :: t[i] == nodes[i].AsEntry()
    {
      seq(|nodes|, i requires 0 <= i < |nodes| && nodes[i].Valid() reads this, nodes, Buffers() => nodes[i].AsEntry())
    }

    constructor ()
      ensures Valid() && nodes == [] && count == 0
    {
      head, tail, count := null, null, 0;
      nodes := [];
    }

    /** Appends a node whose links are both null and refuses any other. The sole node of the list
        has null links too: appending it again turns it into a loop of its own. */
    method Append(item: Neighbor) returns (rc: int)
      requires Linked()
      modifies `head, `tail, `count, `nodes, nodes`next, item`next, item`prev
      ensures rc == 0 <==> old(item.next) == null && old(item.prev) == null
      ensures Linked() <==> old(nodes) != [item]
      ensures rc == 0 && old(nodes) != [item] ==>
                item !in old(nodes) && nodes == old(nodes) + [item]
                && count == old(count) + (if old(nodes) == [] then 1 else 0)
      ensures old(nodes) == [item] ==>
                rc == 0 && head == item && tail == item && item.next == item && item.prev == item
                && nodes == old(nodes) && count == old(count)
      ensures rc != 0 ==> nodes == old(nodes) && count == old(count)
                          && item.next == old(item.next) && item.prev == old(item.prev)
    {
      if item.next != null || item.prev != null {
        return -1;
      }
      OnlySoleNodeIsDetached(item);
      if tail == null {
        if head != null {
          return -1;
        }
        head := item;
        tail := item;
        count := count + 1;
        nodes := nodes + [item];
        return 0;
      }
      if tail.next != null {
        return -1;
      }
      ghost var loop := tail == item;
      tail.next := item;
      item.prev := tail;
      tail := item;
      nodes := if loop then nodes else nodes + [item];
      return 0;
    }

    lemma OnlySoleNodeIsDetached(item: Neighbor)
      requires Linked() && item.next == null && item.prev == null
      ensures item in nodes ==> nodes == [item]
      ensures tail == item ==> item in nodes
    {
      if k :| 0 <= k < |nodes| && nodes[k] == item {
        assert nodes[k].next == null && nodes[k].prev == null;
      }
    }

    /** Takes the node at index k out of the forward direction. */
    method UnlinkForward(item: Neighbor, ghost k: nat) returns (rc: int)
      requires Linked()
      requires if item in nodes then k < |nodes| && nodes[k] == item else item.prev == null
      modifies `head, nodes`next
      ensures item in nodes ==> rc == 0 && Forward(Removed(nodes, k)) && item.next == old(item.next)
      ensures item !in nodes ==> rc == -1 && Linked()
    {
      if item.prev == null {
        if head != item {
          return -1;
        }
        head := item.next;
      } else {
        if item.prev.next != item {
          return -1;
        }
        item.prev.next := item.next;
      }
      return 0;
    }

    /** Takes the node at index k out of the backward direction. */
    method UnlinkBackward(item: Neighbor, ghost k: nat) returns (rc: int)
      requires k < |nodes| && nodes[k] == item && Backward(nodes)
      requires item.next == if k + 1 < |nodes| then nodes[k + 1] else null
      requires forall i, j | 0 <= i < j < |nodes| :: nodes[i] != nodes[j]
      modifies `tail, nodes`prev
      ensures rc == 0 && Backward(Removed(nodes, k))
    {
      if item.next == null {
        if tail != item {
          return -1;
        }
        tail := item.prev;
      } else {
        if item.next.prev != item {
          return -1;
        }
        item.next.prev := item.prev;
      }
      return 0;
    }

    /** Unlinks the node at index k; on a member, none of the corruption checks fires. A
        detached node that is not in the list is refused. */
    method RemoveItem(item: Neighbor, ghost k: nat) returns (rc: int)
      requires Linked()
      requires if item in nodes then k < |nodes| && nodes[k] == item else item.prev == null
      modifies `head, `tail, `nodes, nodes`next, nodes`prev
      ensures Linked()
      ensures item in old(nodes) ==>
                rc == 0 && nodes == Removed(old(nodes), k) && item.next == null && item.prev == null
      ensures item !in old(nodes) ==> rc == -1 && nodes == old(nodes)
    {
      rc := UnlinkForward(item, k);
      if rc < 0 {
        return;
      }
      rc := UnlinkBackward(item, k);
      if rc < 0 {
        return;
      }
      item.next := null;
      item.prev := null;
      nodes := Removed(nodes, k);
    }

    method TakeFirst() returns (result: Neighbor?)
      requires Linked()
      modifies `head, `tail, `count, `nodes, nodes`next, nodes`prev
      ensures Linked()
      ensures old(nodes) == [] ==> result == null && nodes == [] && count == old(count)
      ensures old(nodes) != [] ==> result == old(nodes)[0] && nodes == old(nodes)[1..] && count == old(count) - 1
                                   && result.next == null && result.prev == null
    {
      if head == null {
        return null;
      }
      result := head;
      if result.prev == null {
        head := result.next;
      } else {
        // The list head having a previous element is logged as critical; it never has one.
        assert false;
      }
      if result.next == null {
        tail := result.prev;
      } else {
        result.next.prev := result.prev;
      }
      result.next := null;
      result.prev := null;
      count := count - 1;
      nodes := nodes[1..];
    }

    /** Takes first nodes until none is left. */
    method Clean()
      requires Linked()
      modifies `head, `tail, `count, `nodes, nodes`next, nodes`prev
      ensures Linked() && nodes == [] && count == old(count) - |old(nodes)|
    {
      ghost var k := 0;
      var entry := TakeFirst();
      while entry != null
        invariant Linked() && k <= |old(nodes)|
        invariant entry != null ==> k < |old(nodes)| && nodes == old(nodes)[k + 1..] && count == old(count) - k - 1
        invariant entry == null ==> nodes == [] && count == old(count) - |old(nodes)|
        decreases |nodes|, entry != null
      {
        k := k + 1;
        entry := TakeFirst();
      }
    }

    /** The node at the index, as long as the index is below both the counter and the length. */
    method GetByIndex(index: int) returns (result: Neighbor?)
      requires Linked()
      ensures result == if 0 <= index < count && index < |nodes| then nodes[index] else null
    {
      if index < 0 {
        return null;
      }
      if index >= count {
        return null;
      }
      result := head;
      var i := index;
      while i > 0 && result != null
        invariant 0 <= i <= index
        invariant result == if index - i < |nodes| then nodes[index - i] else null
      {
        i := i - 1;
        result := result.next;
      }
    }

    /** k is the index of the first node of that identity, or the length. */
    ghost predicate FirstAt(id: Identity, k: nat)
      reads this
    {
      && k <= |nodes|
      && (forall i | 0 <= i < k :: nodes[i].id != id)
      && (k < |nodes| ==> nodes[k].id == id)
    }

    method GetByIdentity(id: Identity) returns (result: Neighbor?, ghost k: nat)
      requires Linked()
      ensures FirstAt(id, k) && result == if k < |nodes| then nodes[k] else null
      ensures result == null <==> forall n | n in nodes :: n.id != id
      ensures result != null ==> result in nodes && result.id == id
    {
      result := head;
      k := 0;
      while result != null
        invariant k <= |nodes| && result == if k < |nodes| then nodes[k] else null
        invariant forall i | 0 <= i < k :: nodes[i].id != id
        decreases |nodes| - k
      {
        if result.id == id {
          return;
        }
        result := result.next;
        k := k + 1;
      }
    }

    ghost function AsTable(): Table
      requires Buffered()
      reads this, nodes, Buffers()
    {
      Table(Entries(), count)
    }

    twostate lemma Unaffected()
      requires old(Valid()) && unchanged(this) && (forall n | n in old(nodes) :: unchanged(n))
      requires forall n, b | n in old(nodes) && b in old(n.Buffer()) :: unchanged(b)
      ensures Valid() && AsTable() == old(AsTable())
    {
      forall n | n in nodes ensures n.next == old(n.next) && n.prev == old(n.prev) {
      }
      forall n | n in nodes ensures n.Valid() && n.Buffer() == old(n.Buffer()) && n.AsEntry() == old(n.AsEntry()) {
      }
      forall i | 0 <= i < |nodes| ensures Entries()[i] == old(Entries())[i] {
      }
    }

    /** Links that changed leave every entry as it was. */
    twostate lemma EntriesWithout(k: nat)
      requires old(Buffered()) && k < |old(nodes)|
      requires forall n | n in old(nodes) ::
                 unchanged(n`receivedAt, n`frameBuffer, n`frameBufferSize, n`frameBufferLength)
      requires forall n, b | n in old(nodes) && b in old(n.Buffer()) :: unchanged(b)
      requires nodes == Removed(old(nodes), k)
      ensures Buffered() && Entries() == Removed(old(Entries()), k)
    {
      forall n | n in old(nodes) ensures n.Valid() && n.Buffer() == old(n.Buffer()) && n.AsEntry() == old(n.AsEntry()) {
      }
      forall n | n in nodes ensures n in old(nodes) {
      }
      forall i | 0 <= i < |nodes| ensures Entries()[i] == Removed(old(Entries()), k)[i] {
        assert nodes[i] == old(nodes)[if i < k then i else i + 1];
      }
    }

    twostate lemma EntriesWith(new item: Neighbor)
      requires old(Buffered()) && item.Valid() && item.Buffer() == {}
      requires forall n | n in old(nodes) ::
                 unchanged(n`receivedAt, n`frameBuffer, n`frameBufferSize, n`frameBufferLength)
      requires forall n, b | n in old(nodes) && b in old(n.Buffer()) :: unchanged(b)
      requires nodes == old(nodes) + [item]
      ensures Buffered() && Entries() == old(Entries()) + [item.AsEntry()] && Buffers() == old(Buffers())
    {
      forall n | n in old(nodes) ensures n.Valid() && n.Buffer() == old(n.Buffer()) && n.AsEntry() == old(n.AsEntry()) {
      }
      forall i | 0 <= i < |nodes| ensures Entries()[i] == (old(Entries()) + [item.AsEntry()])[i] {
        if i < |old(nodes)| {
          assert nodes[i] == old(nodes)[i];
        }
      }
    }

    /** Creates a neighbour at the end of the list. */
    method AppendNew(deviceType: int, id: Identity) returns (result: Neighbor, rc: int)
      requires Valid()
      modifies `head, `tail, `count, `nodes, nodes`next
      ensures Valid() && Buffers() == old(Buffers())
      ensures rc == 0 && fresh(result) && nodes == old(nodes) + [result]
      ensures Entries() == old(Entries()) + [NewEntry(deviceType, id)]
      ensures count == old(count) + (if old(nodes) == [] then 1 else 0)
    {
      result := new Neighbor(deviceType, id);
      rc := Append(result);
      EntriesWith(result);
    }

    /** Finds the neighbour or appends a new one; a MAC address of no bytes is refused. */
    method GetOrCreateByIdentity(deviceType: int, id: Identity) returns (result: Neighbor?, ghost k: nat)
      requires Valid()
      modifies `head, `tail, `count, `nodes, nodes`next
      ensures Valid() && Buffers() == old(Buffers())
      ensures id.mac == [] ==> result == null && nodes == old(nodes) && count == old(count) && Entries() == old(Entries())
      ensures id.mac != [] ==>
                && old(FirstAt(id, k)) && k < |nodes| && result == nodes[k]
                && Entries() == (if k < |old(nodes)| then old(Entries()) else old(Entries()) + [NewEntry(deviceType, id)])
                && count == old(count) + (if old(nodes) == [] then 1 else 0)
                && (nodes == old(nodes) || (fresh(result) && nodes == old(nodes) + [result]))
    {
      k := 0;
      if |id.mac| == 0 {
        return null, 0;
      }
      result, k := GetByIdentity(id);
      if result != null {
        return;
      }
      var rc;
      result, rc := AppendNew(deviceType, id);
      if rc != 0 {
        return null, k;
      }
    }

    /** RemoveItem on a member, with the list's entries in view. */
    method Unlink(item: Neighbor, ghost k: nat) returns (rc: int)
      requires Valid() && k < |nodes| && nodes[k] == item
      modifies `head, `tail, `nodes, nodes`next, nodes`prev
      ensures Valid() && rc == 0
      ensures nodes == Removed(old(nodes), k)
      ensures Entries() == Removed(old(Entries()), k)
    {
      rc := RemoveItem(item, k);
      EntriesWithout(k);
    }

    /** One step of the purge walk at the node of index k: after a removal it steps back to the
        previous node and forward again, which ends the walk when the head was removed. */
    method PurgeStep(item: Neighbor, ghost k: nat, now: Timespec, ghost frame: set<Neighbor>)
      returns (following: Neighbor?, rc: int, removed: bool)
      requires Valid() && k < |nodes| && nodes[k] == item && (forall n | n in nodes :: n in frame)
      modifies `head, `tail, `nodes, frame`next, frame`prev
      ensures Valid() && rc == 0 && count == old(count) && (forall n | n in nodes :: n in frame)
      ensures removed == Expired(old(Entries())[k], now)
      ensures nodes == if removed then Removed(old(nodes), k) else old(nodes)
      ensures Entries() == if removed then Removed(old(Entries()), k) else old(Entries())
      ensures var k' := if removed then k else k + 1;
              following == if 0 < k' < |nodes| then nodes[k'] else null
    {
      assert item.AsEntry() == Entries()[k];
      following := item;
      removed := item.IsExpired(now);
      if removed {
        following := item.prev;
        rc := Unlink(item, k);
        if rc < 0 {
          return null, -1, removed;
        }
      }
      if following != null {
        following := following.next;
      }
      rc := 0;
    }

    method PurgeExpiredNeighbors(now: Timespec) returns (rc: int)
      requires Valid()
      modifies `head, `tail, `nodes, nodes`next, nodes`prev
      ensures Valid() && rc == 0 && count == old(count)
      ensures Entries() == Purge(old(Entries()), now)
      ensures forall n | n in nodes :: n in old(nodes)
    {
      ghost var all := Entries();
      ghost var frame := set n | n in nodes;
      ghost var cur, kept: nat := all, 0;
      ghost var target := Walk(all, 0, now);
      rc := 0;
      var item := head;
      while item != null
        invariant Valid() && count == old(count) && rc == 0 && cur == Entries()
        invariant forall n | n in nodes :: n in frame
        invariant item == null ==> cur == target
        invariant item != null ==> Walk(cur, kept, now) == target && kept < |nodes| && item == nodes[kept]
        decreases |cur| - kept, item != null
      {
        var removed;
        item, rc, removed := PurgeStep(item, kept, now, frame);
        cur, kept := Entries(), if removed then kept else kept + 1;
      }
      WalkIsPurge(all, now);
    }
  }

  /** What the purge walk leaves of cur when it stands at index k. */
  function Walk(cur: seq<Entry>, k: nat, now: Timespec): seq<Entry>
    decreases |cur| - k
  {
    if k >= |cur| then cur
    else if !Expired(cur[k], now) then Walk(cur, k + 1, now)
    else if k == 0 then Removed(cur, 0)
    else Walk(Removed(cur, k), k, now)
  }

  lemma {:induction false} AliveKeepsHead(t: seq<Entry>, now: Timespec)
    requires t != [] && !Expired(t[0], now)
    ensures Alive(t, now) == [t[0]] + Alive(t[1..], now)
  {
    if |t| <= 1 {
    } else {
      assert t[1..][..|t| - 2] == t[..|t| - 1][1..];
      AliveKeepsHead(t[..|t| - 1], now);
    }
  }

  lemma {:induction false} WalkBehindHead(cur: seq<Entry>, k: nat, now: Timespec)
    requires 0 < k <= |cur|
    ensures Walk(cur, k, now) == cur[..k] + Alive(cur[k..], now)
    decreases |cur| - k
  {
    if k < |cur| {
      assert cur[k..][1..] == cur[k + 1..];
      if Expired(cur[k], now) {
        AliveSkipsHead(cur[k..], now);
        WalkBehindHead(Removed(cur, k), k, now);
        assert Removed(cur, k)[..k] == cur[..k] && Removed(cur, k)[k..] == cur[k + 1..];
      } else {
        AliveKeepsHead(cur[k..], now);
        WalkBehindHead(cur, k + 1, now);
        assert cur[..k + 1] == cur[..k] + [cur[k]];
      }
    }
  }

  lemma WalkIsPurge(t: seq<Entry>, now: Timespec)
    ensures Walk(t, 0, now) == Purge(t, now)
  {
    if t != [] && !Expired(t[0], now) {
      AliveKeepsHead(t, now);
      WalkBehindHead(t, 1, now);
      assert t[..1] == [t[0]];
    }
  }
}
