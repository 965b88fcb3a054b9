/** The parser of libcdp/cdp_packet_parser.c: one TLV as a function, the dispatch loop as a
    transition system, and the parsing method proved to compute the loop's outcome. */
module PacketParsing {
  import opened Bytes
  import opened Wrappers
  import opened SocketAddresses
  import opened StreamReading
  import opened Packets

  // ---------- Payloads ----------

  /** A string TLV's value. A length below 4 turns into a huge size_t, which no buffer holds. */
  function ReadText(d: seq<Byte>, pos: nat, length: U16): (r: ReadResult<CString>)
    ensures r.Got? ==> 4 <= length && r.next == pos + length - 4 <= |d| && |r.value| <= length - 4
  {
    if length < 4 then Failed else ReadString(d, pos, length - 4)
  }

  type Reader<!T> = (seq<Byte>, nat) -> ReadResult<T>

  /** The same read count times, each behind the last. */
  function ReadMany<T>(read: Reader<T>, d: seq<Byte>, pos: nat, count: nat): (r: ReadResult<seq<T>>) {
    if count == 0 then Got([], pos)
    else
      var (items, p1) :- ReadMany(read, d, pos, count - 1);
      var (item, p2) :- read(d, p1);
      Got(items + [item], p2)
  }

  /** The read consumes at least size bytes of the buffer. */
  ghost predicate Consumes<T>(read: Reader<T>, size: T -> nat, d: seq<Byte>) {
    forall q: nat :: read(d, q).Got? ==> q + size(read(d, q).value) <= read(d, q).next <= |d|
  }

  function Total<T>(size: T -> nat, items: seq<T>): nat {
    if items == [] then 0 else Total(size, items[..|items| - 1]) + size(items[|items| - 1])
  }

  lemma {:induction false} ReadManyConsumes<T>(read: Reader<T>, size: T -> nat, d: seq<Byte>, pos: nat, count: nat)
    requires Consumes(read, size, d) && pos <= |d| && ReadMany(read, d, pos, count).Got?
    ensures var r := ReadMany(read, d, pos, count);
            |r.value| == count && pos + Total(size, r.value) <= r.next <= |d|
  {
    if count == 0 {
    } else {
      ReadManyConsumes(read, size, d, pos, count - 1);
      var items := ReadMany(read, d, pos, count).value;
      assert items[..count - 1] == ReadMany(read, d, pos, count - 1).value;
    }
  }

  lemma {:induction false} ReadManyFails<T>(read: Reader<T>, d: seq<Byte>, pos: nat, i: nat, count: nat)
    requires i <= count && ReadMany(read, d, pos, i).Failed?
    ensures ReadMany(read, d, pos, count).Failed?
    decreases count
  {
    if i < count {
      ReadManyFails(read, d, pos, i, count - 1);
    }
  }

  function ReadSlot(d: seq<Byte>, pos: nat): (r: ReadResult<Option<SockAddr>>) {
    var (a, q) :- ReadAddress(d, pos);
    Got(Some(a), q)
  }

  function SlotSize(slot: Option<SockAddr>): nat {
    if slot.Some? then AddressSize(slot.value) else 0
  }

  /** A 32-bit count and that many addresses. */
  function ReadAddressList(d: seq<Byte>, pos: nat): (r: ReadResult<Slots>)
    ensures r.Got? ==> pos + 4 + Total(SlotSize, r.value) <= r.next <= |d| && |r.value| < 0x1_0000_0000
  {
    var (count, p1) :- Read32(d, pos);
    var r := ReadMany(ReadSlot, d, p1, count);
    assert r.Got? ==> pos + 4 + Total(SlotSize, r.value) <= r.next <= |d| && |r.value| == count by {
      if r.Got? {
        ReadManyConsumes(ReadSlot, SlotSize, d, p1, count);
      }
    }
    r
  }

  function ReadPrefix(d: seq<Byte>, pos: nat): (r: ReadResult<Prefix>) {
    var (network, p1) :- ReadInet(d, pos);
    var (length, p2) :- Read8(d, p1);
    Got(Prefix(network, length), p2)
  }

  function ReadPrefixes(d: seq<Byte>, pos: nat, count: nat): (r: ReadResult<seq<Prefix>>)
    ensures r.Got? && pos <= |d| ==> pos <= r.next <= |d|
  {
    var r := ReadMany(ReadPrefix, d, pos, count);
    assert r.Got? && pos <= |d| ==> pos <= r.next <= |d| by {
      if r.Got? && pos <= |d| {
        ReadManyConsumes(ReadPrefix, (p: Prefix) => 5, d, pos, count);
      }
    }
    r
  }

  /** (tlvLength - 4) / 5 in int arithmetic, which truncates towards zero. */
  function PrefixCount(length: U16): nat {
    if length < 4 then 0 else (length - 4) / 5
  }

  /** The OUI must be Cisco's; the other 30 bytes are kept as they are. */
  function ReadCluster(d: seq<Byte>, pos: nat): (r: ReadResult<seq<Byte>>)
    ensures r.Got? ==> r.next == pos + 33 <= |d|
  {
    var (oui, p1) :- Read24(d, pos);
    if oui != 0x00000C then Failed else ReadBuffer(d, p1, 30)
  }

  function ReadNativeVlan(d: seq<Byte>, pos: nat): (r: ReadResult<U16>)
    ensures r.Got? ==> r.next == pos + 2 <= |d|
  {
    var (vlan, p1) :- Read16(d, pos);
    if vlan > 4095 then Failed else Got(vlan, p1)
  }

  function ReadTextValue(d: seq<Byte>, pos: nat, tag: U16, length: U16): (r: ReadResult<TlvValue>)
    requires IsText(tag)
    ensures r.Got? ==> pos <= r.next <= |d|
  {
    var (s, q) :- ReadText(d, pos, length);
    Got(TextValue(tag, s), q)
  }

  function ReadAddressListValue(d: seq<Byte>, pos: nat, tag: U16): (r: ReadResult<TlvValue>)
    requires IsAddressList(tag)
    ensures r.Got? ==> pos <= r.next <= |d|
  {
    var (slots, q) :- ReadAddressList(d, pos);
    Got(AddressListValue(tag, slots), q)
  }

  function ReadNumberValue(d: seq<Byte>, pos: nat, tag: U16): (r: ReadResult<TlvValue>)
    requires tag == CAPABILITIES || tag == NATIVE_VLAN || IsByte(tag)
    ensures r.Got? ==> pos <= r.next <= |d|
  {
    if tag == CAPABILITIES then
      var (n, q) :- Read32(d, pos);
      Got(Capabilities(n), q)
    else if tag == NATIVE_VLAN then
      var (vlan, q) :- ReadNativeVlan(d, pos);
      Got(NativeVlan(vlan), q)
    else
      var (b, q) :- Read8(d, pos);
      Got(ByteValue(tag, b), q)
  }

  function ReadBlockValue(d: seq<Byte>, pos: nat, tag: U16, length: U16): (r: ReadResult<TlvValue>)
    requires tag in {ODR_PREFIXES, CLUSTER_MANAGEMENT, POWER_AVAILABLE}
    ensures r.Got? && pos <= |d| ==> pos <= r.next <= |d|
  {
    if tag == ODR_PREFIXES then
      var (prefixes, q) :- ReadPrefixes(d, pos, PrefixCount(length));
      Got(OdrPrefixes(prefixes), q)
    else if tag == CLUSTER_MANAGEMENT then
      var (raw, q) :- ReadCluster(d, pos);
      Got(ClusterManagement(raw), q)
    else
      var (raw, q) :- ReadBuffer(d, pos, 12);
      Got(PowerAvailable(raw), q)
  }

  /** The dispatch on the TLV type; pos is behind the TLV's type and length. An unknown
      type reads nothing. */
  function ReadPayload(d: seq<Byte>, pos: nat, tag: U16, length: U16): (r: ReadResult<TlvValue>)
    ensures r.Got? && pos <= |d| ==> pos <= r.next <= |d|
  {
    if IsText(tag) then ReadTextValue(d, pos, tag, length)
    else if IsAddressList(tag) then ReadAddressListValue(d, pos, tag)
    else if tag == CAPABILITIES || tag == NATIVE_VLAN || IsByte(tag) then ReadNumberValue(d, pos, tag)
    else if tag in {ODR_PREFIXES, CLUSTER_MANAGEMENT, POWER_AVAILABLE} then ReadBlockValue(d, pos, tag, length)
    else Got(Ignored, pos)
  }

  /** One iteration of the loop: the TLV's value and the position of the next one. The
      re-seek is relative to the TLV's start; past the end it is silently ignored. */
  function ReadTlv(d: seq<Byte>, pos: nat): (r: ReadResult<TlvValue>)
    ensures r.Got? ==> pos <= r.next <= |d| && pos + 4 <= |d|
    ensures r.Got? ==> (r.next == pos <==> Word16(d[pos + 2], d[pos + 3]) == 0)
  {
    var (tag, p1) :- Read16(d, pos);
    var (length, p2) :- Read16(d, p1);
    var (v, p3) :- ReadPayload(d, p2, tag, length);
    Got(v, if pos + length <= |d| then pos + length else p3)
  }

  // ---------- The loop ----------

  datatype Outcome = Parsed(packet: Packet) | Rejected | Diverges

  /** What the loop does from position pos on, given how it reads one TLV: a TLV that does
      not lead forward is read again for ever. */
  function Loop(read: Reader<TlvValue>, d: seq<Byte>, pos: nat, p: Packet): Outcome
    decreases |d| - pos
  {
    if pos >= |d| then Parsed(p)
    else
      match read(d, pos)
      case Failed => Rejected
      case Got(v, next) => if next <= pos then Diverges else Loop(read, d, next, Apply(p, v))
  }

  function ParseLoop(d: seq<Byte>, pos: nat, p: Packet): Outcome {
    Loop(ReadTlv, d, pos, p)
  }

  function Parse(d: seq<Byte>, pos: nat): Outcome {
    if pos + 4 > |d| then Rejected
    else ParseLoop(d, pos + 4, NewPacket(d[pos], d[pos + 1], Word16(d[pos + 2], d[pos + 3])))
  }

  // ---------- Reading methods of the parser ----------

  lemma ReadManyStep<T>(read: Reader<T>, d: seq<Byte>, pos: nat, items: seq<T>, mid: nat)
    requires ReadMany(read, d, pos, |items|) == Got(items, mid)
    ensures read(d, mid).Got? ==>
              ReadMany(read, d, pos, |items| + 1) == Got(items + [read(d, mid).value], read(d, mid).next)
    ensures read(d, mid).Failed? ==> ReadMany(read, d, pos, |items| + 1).Failed?
  {
  }

  /** Reads one address into slot i. */
  method FillSlot(reader: StreamReader, result: IpAddressArray, i: nat) returns (ok: bool)
    requires reader.Valid() && i < result.slots.Length
    modifies reader, result.slots
    ensures reader.Valid()
    ensures var spec := ReadSlot(reader.data, old(reader.position));
            && ok == spec.Got?
            && (ok ==> reader.position == spec.next && result.slots[..i + 1] == old(result.slots[..i]) + [spec.value])
  {
    var item := reader.GetAddress();
    if item.None? {
      return false;
    }
    ok := result.SetInto(i, item);
  }

  /** Fills an array of the announced size slot by slot. */
  method FillAddresses(reader: StreamReader, result: IpAddressArray) returns (ok: bool)
    requires reader.Valid()
    modifies reader, result.slots
    ensures reader.Valid()
    ensures match ReadMany(ReadSlot, reader.data, old(reader.position), result.slots.Length)
            case Got(slots, q) => ok && result.slots[..] == slots && reader.position == q
            case Failed => !ok
  {
    ghost var start := reader.position;
    ghost var slots: Slots := [];
    var i := 0;
    ok := true;
    while i < result.slots.Length && ok
      invariant reader.Valid() && i <= result.slots.Length
      invariant ok ==> |slots| == i && result.slots[..i] == slots
      invariant ok ==> ReadMany(ReadSlot, reader.data, start, i) == Got(slots, reader.position)
      invariant !ok ==> ReadMany(ReadSlot, reader.data, start, i).Failed?
    {
      ReadManyStep(ReadSlot, reader.data, start, slots, reader.position);
      ghost var spec := ReadSlot(reader.data, reader.position);
      ok := FillSlot(reader, result, i);
      slots := if spec.Got? then slots + [spec.value] else slots;
      i := i + 1;
    }
    if !ok {
      ReadManyFails(ReadSlot, reader.data, start, i, result.slots.Length);
    } else {
      assert result.slots[..result.slots.Length] == result.slots[..];
    }
  }

  /** Provisions the array and fills it. */
  method GetAddressList(reader: StreamReader) returns (r: Option<IpAddressArray>)
    requires reader.Valid()
    modifies reader
    ensures reader.Valid()
    ensures match ReadAddressList(reader.data, old(reader.position))
            case Got(slots, q) => r.Some? && fresh(r.value) && fresh(r.value.slots)
                                  && r.value.slots[..] == slots && reader.position == q
            case Failed => r == None
  {
    var addressCount :- reader.Get32();
    var result := new IpAddressArray(addressCount);
    assert result.slots.Length == |result.slots[..]| == addressCount;
    var ok := FillAddresses(reader, result);
    return if ok then Some(result) else None;
  }

  method GetPrefixes(reader: StreamReader, tlvLength: U16) returns (r: Option<seq<Prefix>>)
    requires reader.Valid()
    modifies reader
    ensures reader.Did(ReadPrefixes(reader.data, old(reader.position), PrefixCount(tlvLength)), r)
  {
    var prefixCount := if tlvLength < 4 then 0 else (tlvLength - 4) / 5;
    var prefixes: seq<Prefix> := [];
    ghost var start := reader.position;
    for i := 0 to prefixCount
      invariant reader.Valid()
      invariant ReadMany(ReadPrefix, reader.data, start, i) == Got(prefixes, reader.position)
    {
      var item := reader.GetInetAddress();
      if item.None? {
        ReadManyFails(ReadPrefix, reader.data, start, i + 1, prefixCount);
        return None;
      }
      var length := reader.Get8();
      if length.None? {
        ReadManyFails(ReadPrefix, reader.data, start, i + 1, prefixCount);
        return None;
      }
      prefixes := prefixes + [Prefix(item.value, length.value)];
    }
    return Some(prefixes);
  }

  method GetText(reader: StreamReader, tlvLength: U16) returns (r: Option<CString>)
    requires reader.Valid()
    modifies reader
    ensures reader.Did(ReadText(reader.data, old(reader.position), tlvLength), r)
  {
    r := reader.GetString(SizeT(tlvLength as int - 4));
  }

  method GetCluster(reader: StreamReader) returns (r: Option<seq<Byte>>)
    requires reader.Valid()
    modifies reader
    ensures reader.Did(ReadCluster(reader.data, old(reader.position)), r)
  {
    var oui :- reader.Get24();
    if oui != 0x00000C {
      return None;
    }
    r := reader.GetBuffer(30);
  }

  /** From its old state, the packet took in the value that the payload's read yields. */
  twostate predicate Stored(packet: CdpPacket, reader: StreamReader, spec: ReadResult<TlvValue>, ok: bool)
    reads packet, packet.Repr(), reader
  {
    && reader.Valid() && fresh(packet.Repr() - old(packet.Repr()))
    && (match spec
        case Got(v, q) => ok && reader.position == q && packet.Value() == Apply(old(packet.Value()), v)
        case Failed => !ok)
  }

  method StoreText(reader: StreamReader, packet: CdpPacket, tag: U16, length: U16) returns (ok: bool)
    requires reader.Valid() && IsText(tag)
    modifies reader, packet
    ensures Stored(packet, reader, ReadTextValue(reader.data, old(reader.position), tag, length), ok)
  {
    var text := GetText(reader, length);
    if text.None? {
      return false;
    }
    WithTextIsApply(packet.Value(), tag, text.value);
    packet.SetText(tag, text);
    return true;
  }

  method StoreAddressList(reader: StreamReader, packet: CdpPacket, tag: U16) returns (ok: bool)
    requires reader.Valid() && IsAddressList(tag)
    modifies reader, packet
    ensures Stored(packet, reader, ReadAddressListValue(reader.data, old(reader.position), tag), ok)
  {
    var list := GetAddressList(reader);
    if list.None? {
      return false;
    }
    packet.SetAddressList(tag, list.value);
    return true;
  }

  method StoreNumber(reader: StreamReader, packet: CdpPacket, tag: U16) returns (ok: bool)
    requires reader.Valid() && (tag == CAPABILITIES || tag == NATIVE_VLAN || IsByte(tag))
    modifies reader, packet
    ensures Stored(packet, reader, ReadNumberValue(reader.data, old(reader.position), tag), ok)
  {
    if tag == CAPABILITIES {
      var capabilities := reader.Get32();
      if capabilities.None? {
        return false;
      }
      packet.SetCapabilities(capabilities.value);
    } else if tag == NATIVE_VLAN {
      var vlan := reader.Get16();
      if vlan.None? {
        return false;
      }
      ok := packet.SetNativeVlan(vlan.value);
      return;
    } else {
      var byte := reader.Get8();
      if byte.None? {
        return false;
      }
      packet.SetByte(tag, byte.value);
    }
    return true;
  }

  method StoreBlock(reader: StreamReader, packet: CdpPacket, tag: U16, length: U16) returns (ok: bool)
    requires reader.Valid() && tag in {ODR_PREFIXES, CLUSTER_MANAGEMENT, POWER_AVAILABLE}
    modifies reader, packet
    ensures Stored(packet, reader, ReadBlockValue(reader.data, old(reader.position), tag, length), ok)
  {
    if tag == ODR_PREFIXES {
      var prefixes := GetPrefixes(reader, length);
      if prefixes.None? {
        return false;
      }
      packet.SetOdrPrefixes(prefixes.value);
    } else if tag == CLUSTER_MANAGEMENT {
      var cluster := GetCluster(reader);
      if cluster.None? {
        return false;
      }
      packet.SetCluster(cluster.value);
    } else {
      var power := reader.GetBuffer(12);
      if power.None? {
        return false;
      }
      packet.SetPower(power.value);
    }
    return true;
  }

  /** The switch; an unknown type stores nothing. */
  method StoreTlv(reader: StreamReader, packet: CdpPacket, tag: U16, length: U16) returns (ok: bool)
    requires reader.Valid()
    modifies reader, packet
    ensures Stored(packet, reader, ReadPayload(reader.data, old(reader.position), tag, length), ok)
  {
    if IsText(tag) {
      ok := StoreText(reader, packet, tag, length);
    } else if IsAddressList(tag) {
      ok := StoreAddressList(reader, packet, tag);
    } else if tag == CAPABILITIES || tag == NATIVE_VLAN || IsByte(tag) {
      ok := StoreNumber(reader, packet, tag);
    } else if tag in {ODR_PREFIXES, CLUSTER_MANAGEMENT, POWER_AVAILABLE} {
      ok := StoreBlock(reader, packet, tag, length);
    } else {
      return true;
    }
  }

  // ---------- The parsing method ----------

  /** NeverReturns stands for a call that re-reads one TLV for ever. */
  datatype Status = Success | Error | NeverReturns

  /** One iteration. On success, again says that the reader is back where it was. */
  method ParseTlv(reader: StreamReader, packet: CdpPacket) returns (ok: bool, again: bool)
    requires reader.Valid()
    modifies reader, packet
    ensures Stored(packet, reader, ReadTlv(reader.data, old(reader.position)), ok)
    ensures ok ==> again == (reader.position == old(reader.position))
  {
    var initialPosition := reader.position;
    var tlvType := reader.Get16();
    if tlvType.None? {
      return false, false;
    }
    var tlvLength := reader.Get16();
    if tlvLength.None? {
      return false, false;
    }
    ok := StoreTlv(reader, packet, tlvType.value, tlvLength.value);
    if !ok {
      return false, false;
    }
    var _ := reader.SetPosition(initialPosition + tlvLength.value);
    again := tlvLength.value == 0;
  }

  /** The loop over the TLVs. */
  method ParseTlvs(reader: StreamReader, packet: CdpPacket) returns (status: Status)
    requires reader.Valid()
    modifies reader, packet
    ensures reader.Valid() && fresh(packet.Repr() - old(packet.Repr()))
    ensures match ParseLoop(reader.data, old(reader.position), old(packet.Value()))
            case Parsed(p) => status == Success && packet.Value() == p
            case Rejected => status == Error
            case Diverges => status == NeverReturns
  {
    while reader.Remaining() != 0
      invariant reader.Valid() && fresh(packet.Repr() - old(packet.Repr()))
      invariant ParseLoop(reader.data, reader.position, packet.Value())
                == ParseLoop(reader.data, old(reader.position), old(packet.Value()))
      decreases |reader.data| - reader.position
    {
      var ok, again := ParseTlv(reader, packet);
      if !ok {
        return Error;
      }
      if again {
        return NeverReturns;
      }
    }
    return Success;
  }

  /** What the parsing method reports for an outcome of the loop. */
  ghost predicate Reports(outcome: Outcome, status: Status, packet: CdpPacket?)
    reads if packet == null then {} else packet.Repr() + {packet}
  {
    match outcome
    case Parsed(p) => status == Success && packet != null && packet.Value() == p
    case Rejected => status == Error && packet == null
    case Diverges => status == NeverReturns
  }

  lemma ParseStarts(d: seq<Byte>, pos: nat, p: Packet)
    requires pos + 4 <= |d| && p == NewPacket(d[pos], d[pos + 1], Word16(d[pos + 2], d[pos + 3]))
    ensures Parse(d, pos) == ParseLoop(d, pos + 4, p)
  {
  }

  /** The version, the hold time and the checksum of a new packet. */
  method ReadHeader(reader: StreamReader) returns (result: CdpPacket?)
    requires reader.Valid()
    modifies reader
    ensures reader.Valid()
    ensures result == null <==> old(reader.position) + 4 > |reader.data|
    ensures result != null ==>
              && fresh(result) && result.Repr() == {result} && reader.position == old(reader.position) + 4
              && var d, pos := reader.data, old(reader.position);
                 result.Value() == NewPacket(d[pos], d[pos + 1], Word16(d[pos + 2], d[pos + 3]))
  {
    var cdpVersion := reader.Get8();
    if cdpVersion.None? {
      return null;
    }
    var ttl := reader.Get8();
    if ttl.None? {
      return null;
    }
    var checksum := reader.Get16();
    if checksum.None? {
      return null;
    }
    result := new CdpPacket(cdpVersion.value, ttl.value, checksum.value);
  }

  /** Parses from the reader's position. */
  method ParsePacket(reader: StreamReader) returns (status: Status, packet: CdpPacket?)
    requires reader.Valid()
    modifies reader
    ensures reader.Valid() && (packet != null ==> fresh(packet))
    ensures Reports(Parse(reader.data, old(reader.position)), status, packet)
  {
    var result := ReadHeader(reader);
    if result == null {
      return Error, null;
    }
    ParseStarts(reader.data, old(reader.position), result.Value());
    status := ParseTlvs(reader, result);
    packet := if status == Success then result else null;
  }
}
