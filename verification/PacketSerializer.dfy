/** The serialiser of libcdp/cdp_packet.c: the bytes of a frame as a function of the packet,
    and the writing methods that produce exactly those bytes or fail. */
module PacketSerializing {
  import opened Bytes
  import opened Wrappers
  import opened SocketAddresses
  import opened Packets
  import opened StreamWriting
  import Checksum

  // ---------- The bytes of a frame ----------

  function StringTlv(tag: U16, s: CString): seq<Byte> {
    Be16(tag) + Be16((|s| + 4) % 0x1_0000) + s
  }

  function Uint8Tlv(tag: U16, value: Byte): seq<Byte> {
    Be16(tag) + Be16(5) + [value]
  }

  function Uint32Tlv(tag: U16, value: U32): seq<Byte> {
    Be16(tag) + Be16(8) + Be32(value)
  }

  /** The slot holds an address of a family the serialiser knows. */
  predicate Known(slot: Option<SockAddr>) {
    slot.Some? && !slot.value.OtherFamily?
  }

  predicate AllKnown(slots: Slots) {
    forall i | 0 <= i < |slots| :: Known(slots[i])
  }

  const INET_HEADER: seq<Byte> := [0x01, 0x01, 0xCC, 0, 4]
  const INET6_HEADER: seq<Byte> := [0x02, 0x08, 0xAA, 0xAA, 0x03, 0, 0, 0, 0x86, 0xDD, 0, 0x10]

  function AddressBytes(a: SockAddr): seq<Byte>
    requires !a.OtherFamily?
  {
    match a
    case Inet(sAddr) => INET_HEADER + Le32(sAddr)
    case Inet6(octets) => INET6_HEADER + octets
  }

  function AddressesBytes(slots: Slots): seq<Byte>
    requires AllKnown(slots)
  {
    if slots == [] then []
    else AddressesBytes(slots[..|slots| - 1]) + AddressBytes(slots[|slots| - 1].value)
  }

  /** The extent of an address TLV as the first loop of the C writer adds it up. */
  function AddressTlvSize(slots: Slots): nat
    requires AllKnown(slots)
  {
    if slots == [] then 8
    else AddressTlvSize(slots[..|slots| - 1]) + (if slots[|slots| - 1].value.Inet? then 9 else 28)
  }

  function AddressesTlv(tag: U16, slots: Slots): seq<Byte>
    requires AllKnown(slots)
  {
    Be16(tag) + Be16(AddressTlvSize(slots) % 0x1_0000) + Be32(|slots| % 0x1_0000_0000) + AddressesBytes(slots)
  }

  /** The fields every frame must carry. */
  predicate HasRequiredFields(p: Packet) {
    && p.deviceId.Some? && p.softwareVersion.Some? && p.platform.Some? && p.portId.Some?
    && p.capabilities.Some?
    && p.addresses.Some? && p.addresses.value != [] && AllKnown(p.addresses.value)
  }

  /** What the serialiser asks of a packet, besides room for it. */
  predicate Serializable(p: Packet) {
    HasRequiredFields(p) && (p.version == 2 ==> p.duplex != DUPLEX_UNSET)
  }

  /** The TLVs in the order in which they are written. */
  function Tlvs(p: Packet): seq<seq<Byte>>
    requires HasRequiredFields(p)
  {
    [StringTlv(DEVICE_ID, p.deviceId.value),
     StringTlv(SOFTWARE_VERSION, p.softwareVersion.value),
     StringTlv(PLATFORM, p.platform.value),
     StringTlv(PORT_ID, p.portId.value),
     Uint32Tlv(CAPABILITIES, p.capabilities.value),
     AddressesTlv(ADDRESSES, p.addresses.value)]
    + (if p.version == 2 then [Uint8Tlv(DUPLEX, p.duplex)] else [])
  }

  function Flatten(tlvs: seq<seq<Byte>>): seq<Byte> {
    if tlvs == [] then [] else Flatten(tlvs[..|tlvs| - 1]) + tlvs[|tlvs| - 1]
  }

  /** The frame before the checksum replaces its placeholder. */
  function UnsealedFrame(p: Packet): seq<Byte>
    requires HasRequiredFields(p)
  {
    [p.version, p.ttl, 0, 0] + Flatten(Tlvs(p))
  }

  function Frame(p: Packet): seq<Byte>
    requires Serializable(p)
  {
    Checksum.Inject(UnsealedFrame(p), 2)
  }

  /** The four bytes in front of the TLVs: version, hold time and checksum. */
  type Header = h: seq<Byte> | |h| == 4 witness [0, 0, 0, 0]

  /** The packet's TLVs behind any header. */
  function Headed(header: Header, p: Packet): seq<Byte>
    requires HasRequiredFields(p)
  {
    header + Flatten(Tlvs(p))
  }

  /** The header is the packet's own, whatever the checksum in it. */
  predicate Heads(header: Header, p: Packet) {
    header[0] == p.version && header[1] == p.ttl
  }

  function HeaderOf(p: Packet): Header
    requires Serializable(p)
  {
    Frame(p)[..4]
  }

  // ---------- Exact sizes ----------

  function CountInet(slots: Slots): (n: nat)
    ensures n <= |slots|
  {
    if slots == [] then 0
    else CountInet(slots[..|slots| - 1]) + (if slots[|slots| - 1].Some? && slots[|slots| - 1].value.Inet? then 1 else 0)
  }

  /** Headers, four strings, capabilities, 9 bytes an IPv4 and 28 an IPv6 address, and the
      duplex TLV of version 2. */
  function FrameSize(p: Packet): nat
    requires HasRequiredFields(p)
  {
    4
    + (4 + |p.deviceId.value|) + (4 + |p.softwareVersion.value|)
    + (4 + |p.platform.value|) + (4 + |p.portId.value|)
    + 8
    + (8 + 9 * CountInet(p.addresses.value) + 28 * (|p.addresses.value| - CountInet(p.addresses.value)))
    + (if p.version == 2 then 5 else 0)
  }

  lemma {:induction false} AddressTlvSizeCounts(slots: Slots)
    requires AllKnown(slots)
    ensures AddressTlvSize(slots) == 8 + 9 * CountInet(slots) + 28 * (|slots| - CountInet(slots))
    ensures AddressTlvSize(slots) == 8 + |AddressesBytes(slots)|
  {
    if slots == [] {
    } else {
      AddressTlvSizeCounts(slots[..|slots| - 1]);
    }
  }

  lemma FlattenAppend(tlvs: seq<seq<Byte>>, t: seq<Byte>)
    ensures Flatten(tlvs + [t]) == Flatten(tlvs) + t
  {
    assert (tlvs + [t])[..|tlvs|] == tlvs;
  }

  lemma FlattenSix(ts: seq<seq<Byte>>)
    requires |ts| == 6
    ensures Flatten(ts) == [] + ts[0] + ts[1] + ts[2] + ts[3] + ts[4] + ts[5]
  {
    assert ts[..5][..4] == ts[..4] && ts[..4][..3] == ts[..3] && ts[..3][..2] == ts[..2];
    assert ts[..2][..1] == ts[..1] && ts[..1][..0] == [];
    assert Flatten(ts[..1]) == [] + ts[0];
    assert Flatten(ts[..2]) == [] + ts[0] + ts[1];
    assert Flatten(ts[..3]) == [] + ts[0] + ts[1] + ts[2];
    assert Flatten(ts[..4]) == [] + ts[0] + ts[1] + ts[2] + ts[3];
  }

  lemma FlattenTlvs(p: Packet)
    requires HasRequiredFields(p)
    ensures Flatten(Tlvs(p))
            == Flatten(Tlvs(p)[..6]) + (if p.version == 2 then Uint8Tlv(DUPLEX, p.duplex) else [])
  {
    var ts := Tlvs(p);
    if p.version == 2 {
      assert ts[..6] + [ts[6]] == ts;
      FlattenAppend(ts[..6], ts[6]);
    } else {
      assert ts[..6] == ts;
    }
  }

  lemma RequiredTlvsSize(p: Packet)
    requires HasRequiredFields(p)
    ensures |Flatten(Tlvs(p)[..6])| + 4 == FrameSize(p) - (if p.version == 2 then 5 else 0)
  {
    FlattenSix(Tlvs(p)[..6]);
    AddressTlvSizeCounts(p.addresses.value);
  }

  lemma FlatTlvsSize(p: Packet)
    requires HasRequiredFields(p)
    ensures |Flatten(Tlvs(p))| + 4 == FrameSize(p)
  {
    RequiredTlvsSize(p);
    FlattenTlvs(p);
  }

  /** The closed form of the frame's length. */
  lemma FrameHasFrameSize(header: Header, p: Packet)
    requires HasRequiredFields(p)
    ensures |Headed(header, p)| == FrameSize(p)
  {
    FlatTlvsSize(p);
  }

  lemma SealingKeepsTlvs(b: seq<Byte>)
    requires |b| >= 4
    ensures var c := Checksum.Inject(b, 2); c == c[..4] + b[4..] && c[0] == b[0] && c[1] == b[1]
  {
  }

  /** The serialiser's frame is the packet's TLVs behind the packet's header. */
  lemma FrameIsHeaded(p: Packet)
    requires Serializable(p)
    ensures Frame(p) == Headed(HeaderOf(p), p) && Heads(HeaderOf(p), p)
  {
    SealingKeepsTlvs(UnsealedFrame(p));
    assert UnsealedFrame(p)[4..] == Flatten(Tlvs(p));
  }

  /** However long the serialiser's frame is, it passes the receiver's checksum validation. */
  lemma FrameValidates(p: Packet)
    requires Serializable(p)
    ensures Checksum.Validates(Frame(p))
  {
    Checksum.InjectedChecksumValidates(UnsealedFrame(p), 2);
  }

  // ---------- The writing methods ----------

  method WriteStringTlv(writer: StreamWriter, tag: U16, value: Option<CString>, isRequired: bool) returns (ok: bool)
    requires writer.Valid()
    modifies writer`position, writer.buffer
    ensures value.None? ==> ok == !isRequired && writer.State() == old(writer.State()) && writer.Valid()
    ensures value.Some? ==> Appends(old(writer.State()), StringTlv(tag, value.value), writer.State(), ok)
  {
    if value.None? {
      return !isRequired;
    }
    ghost var s0 := writer.State();
    ok := writer.Put16(tag);
    if !ok {
      return;
    }
    ghost var s1 := writer.State();
    ok := writer.Put16((|value.value| + 4) % 0x1_0000);
    ghost var s2 := writer.State();
    AppendsTwice(s0, Be16(tag), s1, Be16((|value.value| + 4) % 0x1_0000), s2, ok);
    if !ok {
      return;
    }
    ok := writer.PutString(value.value);
    AppendsTwice(s0, Be16(tag) + Be16((|value.value| + 4) % 0x1_0000), s2, value.value, writer.State(), ok);
  }

  method WriteUint8Tlv(writer: StreamWriter, tag: U16, value: Byte) returns (ok: bool)
    requires writer.Valid()
    modifies writer`position, writer.buffer
    ensures Appends(old(writer.State()), Uint8Tlv(tag, value), writer.State(), ok)
  {
    ghost var s0 := writer.State();
    ok := writer.Put16(tag);
    if !ok {
      return;
    }
    ghost var s1 := writer.State();
    ok := writer.Put16(5);
    ghost var s2 := writer.State();
    AppendsTwice(s0, Be16(tag), s1, Be16(5), s2, ok);
    if !ok {
      return;
    }
    ok := writer.Put8(value);
    AppendsTwice(s0, Be16(tag) + Be16(5), s2, [value], writer.State(), ok);
  }

  method WriteUint32Tlv(writer: StreamWriter, tag: U16, value: U32) returns (ok: bool)
    requires writer.Valid()
    modifies writer`position, writer.buffer
    ensures Appends(old(writer.State()), Uint32Tlv(tag, value), writer.State(), ok)
  {
    ghost var s0 := writer.State();
    ok := writer.Put16(tag);
    if !ok {
      return;
    }
    ghost var s1 := writer.State();
    ok := writer.Put16(8);
    ghost var s2 := writer.State();
    AppendsTwice(s0, Be16(tag), s1, Be16(8), s2, ok);
    if !ok {
      return;
    }
    ok := writer.Put32(value);
    AppendsTwice(s0, Be16(tag) + Be16(8), s2, Be32(value), writer.State(), ok);
  }

  method WriteUint32PtrTlv(writer: StreamWriter, tag: U16, value: Option<U32>, isRequired: bool) returns (ok: bool)
    requires writer.Valid()
    modifies writer`position, writer.buffer
    ensures value.None? ==> ok == !isRequired && writer.State() == old(writer.State()) && writer.Valid()
    ensures value.Some? ==> Appends(old(writer.State()), Uint32Tlv(tag, value.value), writer.State(), ok)
  {
    if value.None? {
      return !isRequired;
    }
    ok := WriteUint32Tlv(writer, tag, value.value);
  }

  /** Appends one more byte of a longer output that began in state s. */
  method PutNext(writer: StreamWriter, ghost s: WriterState, ghost out: seq<Byte>, value: Byte) returns (ok: bool)
    requires writer.Valid() && Appends(s, out, writer.State(), true)
    modifies writer`position, writer.buffer
    ensures Appends(s, out + [value], writer.State(), ok)
  {
    ghost var t := writer.State();
    ok := writer.Put8(value);
    AppendsTwice(s, out, t, [value], writer.State(), ok);
  }

  method WriteNlpid(writer: StreamWriter) returns (ok: bool)
    requires writer.Valid()
    modifies writer`position, writer.buffer
    ensures Appends(old(writer.State()), [0x01, 0x01, 0xCC], writer.State(), ok)
  {
    ghost var s := writer.State();
    ok := writer.Put8(0x01);
    if !ok {
      return;
    }
    ok := PutNext(writer, s, [0x01], 0x01);
    if !ok {
      return;
    }
    assert [0x01] + [0x01] == [0x01, 0x01];
    ok := PutNext(writer, s, [0x01, 0x01], 0xCC);
    assert [0x01, 0x01] + [0xCC] == [0x01, 0x01, 0xCC];
  }

  method WriteInetAddress(writer: StreamWriter, sAddr: U32) returns (ok: bool)
    requires writer.Valid()
    modifies writer`position, writer.buffer
    ensures Appends(old(writer.State()), AddressBytes(Inet(sAddr)), writer.State(), ok)
  {
    ghost var s := writer.State();
    ok := WriteNlpid(writer);
    if !ok {
      return;
    }
    ghost var t := writer.State();
    ok := writer.Put16(4);
    ghost var u := writer.State();
    AppendsTwice(s, [0x01, 0x01, 0xCC], t, Be16(4), u, ok);
    if !ok {
      return;
    }
    assert [0x01, 0x01, 0xCC] + Be16(4) == INET_HEADER;
    ok := writer.Put32(Swap32(sAddr));
    Be32OfSwap32(sAddr);
    AppendsTwice(s, INET_HEADER, u, Le32(sAddr), writer.State(), ok);
  }

  method WriteSnapSelectors(writer: StreamWriter) returns (ok: bool)
    requires writer.Valid()
    modifies writer`position, writer.buffer
    ensures Appends(old(writer.State()), [0x02, 0x08, 0xAA, 0xAA, 0x03], writer.State(), ok)
  {
    ghost var s := writer.State();
    ok := writer.Put8(0x02);
    if !ok {
      return;
    }
    ok := PutNext(writer, s, [0x02], 0x08);
    if !ok {
      return;
    }
    assert [0x02] + [0x08] == [0x02, 0x08];
    ok := PutNext(writer, s, [0x02, 0x08], 0xAA);
    if !ok {
      return;
    }
    assert [0x02, 0x08] + [0xAA] == [0x02, 0x08, 0xAA];
    ok := PutNext(writer, s, [0x02, 0x08, 0xAA], 0xAA);
    if !ok {
      return;
    }
    assert [0x02, 0x08, 0xAA] + [0xAA] == [0x02, 0x08, 0xAA, 0xAA];
    ok := PutNext(writer, s, [0x02, 0x08, 0xAA, 0xAA], 0x03);
    assert [0x02, 0x08, 0xAA, 0xAA] + [0x03] == [0x02, 0x08, 0xAA, 0xAA, 0x03];
  }

  method WriteSnapProtocol(writer: StreamWriter) returns (ok: bool)
    requires writer.Valid()
    modifies writer`position, writer.buffer
    ensures Appends(old(writer.State()), [0, 0, 0, 0x86, 0xDD, 0, 0x10], writer.State(), ok)
  {
    ghost var s := writer.State();
    ok := writer.Put24(0);
    if !ok {
      return;
    }
    ghost var t := writer.State();
    ok := writer.Put16(0x86DD);
    ghost var u := writer.State();
    AppendsTwice(s, Be24(0), t, Be16(0x86DD), u, ok);
    if !ok {
      return;
    }
    assert Be24(0) + Be16(0x86DD) == [0, 0, 0, 0x86, 0xDD];
    ok := writer.Put16(0x10);
    AppendsTwice(s, [0, 0, 0, 0x86, 0xDD], u, Be16(0x10), writer.State(), ok);
    assert [0, 0, 0, 0x86, 0xDD] + Be16(0x10) == [0, 0, 0, 0x86, 0xDD, 0, 0x10];
  }

  method WriteInet6Address(writer: StreamWriter, octets: Octets16) returns (ok: bool)
    requires writer.Valid()
    modifies writer`position, writer.buffer
    ensures Appends(old(writer.State()), AddressBytes(Inet6(octets)), writer.State(), ok)
  {
    ghost var s := writer.State();
    ok := WriteSnapSelectors(writer);
    if !ok {
      return;
    }
    ghost var t := writer.State();
    ok := WriteSnapProtocol(writer);
    ghost var u := writer.State();
    AppendsTwice(s, [0x02, 0x08, 0xAA, 0xAA, 0x03], t, [0, 0, 0, 0x86, 0xDD, 0, 0x10], u, ok);
    if !ok {
      return;
    }
    assert [0x02, 0x08, 0xAA, 0xAA, 0x03] + [0, 0, 0, 0x86, 0xDD, 0, 0x10] == INET6_HEADER;
    ok := writer.PutBuffer(octets);
    AppendsTwice(s, INET6_HEADER, u, octets, writer.State(), ok);
  }

  /** The address loop: one entry after the other, in slot order. */
  method WriteAddresses(writer: StreamWriter, value: IpAddressArray) returns (ok: bool)
    requires writer.Valid() && AllKnown(value.slots[..])
    modifies writer`position, writer.buffer
    ensures Appends(old(writer.State()), AddressesBytes(value.slots[..]), writer.State(), ok)
  {
    ghost var s := writer.State();
    ghost var slots := value.slots[..];
    ok := true;
    AppendsNothing(s);
    for i := 0 to value.slots.Length
      invariant writer.Valid() && value.slots[..] == slots
      invariant Appends(s, AddressesBytes(slots[..i]), writer.State(), ok) && ok
    {
      ghost var t := writer.State();
      assert slots[..i + 1][..i] == slots[..i];
      assert slots[i] == value.slots[i];
      match value.slots[i].value {
        case Inet(sAddr) => ok := WriteInetAddress(writer, sAddr);
        case Inet6(octets) => ok := WriteInet6Address(writer, octets);
      }
      AppendsTwice(s, AddressesBytes(slots[..i]), t, AddressBytes(slots[i].value), writer.State(), ok);
      if !ok {
        AddressesBytesOfPrefix(slots, i + 1);
        return;
      }
    }
    assert slots[..value.slots.Length] == slots;
  }

  lemma {:induction false} AddressesBytesOfPrefix(slots: Slots, n: nat)
    requires AllKnown(slots) && n <= |slots|
    ensures AddressesBytes(slots[..n]) <= AddressesBytes(slots)
  {
    if n < |slots| {
      assert slots[..|slots| - 1][..n] == slots[..n];
      AddressesBytesOfPrefix(slots[..|slots| - 1], n);
    } else {
      assert slots[..n] == slots;
    }
  }

  method WriteAddressesTlv(writer: StreamWriter, tag: U16, value: IpAddressArray?, isRequired: bool) returns (ok: bool)
    requires writer.Valid()
    modifies writer`position, writer.buffer
    ensures value == null || value.slots.Length == 0 ==>
              ok == !isRequired && writer.State() == old(writer.State()) && writer.Valid()
    ensures value != null && !AllKnown(value.slots[..]) ==>
              !ok && writer.State() == old(writer.State()) && writer.Valid()
    ensures value != null && value.slots.Length > 0 && AllKnown(value.slots[..]) ==>
              Appends(old(writer.State()), AddressesTlv(tag, value.slots[..]), writer.State(), ok)
  {
    if value == null || value.slots.Length == 0 {
      return !isRequired;
    }
    ghost var s := writer.State();
    ghost var slots := value.slots[..];
    var length := 8;
    for i := 0 to value.slots.Length
      invariant AllKnown(slots[..i]) && length == AddressTlvSize(slots[..i])
    {
      assert slots[..i + 1][..i] == slots[..i];
      match value.slots[i] {
        case Some(Inet(_)) => length := length + 9;
        case Some(Inet6(_)) => length := length + 28;
        case _ =>
          assert !Known(slots[i]);
          return false;
      }
    }
    assert slots[..value.slots.Length] == slots;
    ok := writer.Put16(tag);
    if !ok {
      return;
    }
    ghost var t := writer.State();
    ok := writer.Put16(length % 0x1_0000);
    ghost var u := writer.State();
    AppendsTwice(s, Be16(tag), t, Be16(length % 0x1_0000), u, ok);
    if !ok {
      return;
    }
    ghost var out := Be16(tag) + Be16(length % 0x1_0000);
    ok := writer.Put32(value.slots.Length % 0x1_0000_0000);
    ghost var v := writer.State();
    AppendsTwice(s, out, u, Be32(value.slots.Length % 0x1_0000_0000), v, ok);
    if !ok {
      return;
    }
    out := out + Be32(value.slots.Length % 0x1_0000_0000);
    ok := WriteAddresses(writer, value);
    AppendsTwice(s, out, v, AddressesBytes(slots), writer.State(), ok);
  }

  // Each of the next three writes one more TLV of a frame whose TLVs began in state s.

  method ThenString(writer: StreamWriter, ghost s: WriterState, ghost out: seq<Byte>, tag: U16, value: Option<CString>)
    returns (ok: bool)
    requires writer.Valid() && Appends(s, out, writer.State(), true)
    modifies writer`position, writer.buffer
    ensures value.None? ==> !ok && Confined(s, writer.State())
    ensures value.Some? ==> Appends(s, out + StringTlv(tag, value.value), writer.State(), ok)
  {
    ghost var t := writer.State();
    ok := WriteStringTlv(writer, tag, value, true);
    if value.Some? {
      AppendsTwice(s, out, t, StringTlv(tag, value.value), writer.State(), ok);
    }
  }

  method ThenCapabilities(writer: StreamWriter, ghost s: WriterState, ghost out: seq<Byte>, value: Option<U32>)
    returns (ok: bool)
    requires writer.Valid() && Appends(s, out, writer.State(), true)
    modifies writer`position, writer.buffer
    ensures value.None? ==> !ok && Confined(s, writer.State())
    ensures value.Some? ==> Appends(s, out + Uint32Tlv(CAPABILITIES, value.value), writer.State(), ok)
  {
    ghost var t := writer.State();
    ok := WriteUint32PtrTlv(writer, CAPABILITIES, value, true);
    if value.Some? {
      AppendsTwice(s, out, t, Uint32Tlv(CAPABILITIES, value.value), writer.State(), ok);
    }
  }

  method ThenAddresses(writer: StreamWriter, ghost s: WriterState, ghost out: seq<Byte>, value: IpAddressArray?)
    returns (ok: bool)
    requires writer.Valid() && Appends(s, out, writer.State(), true)
    modifies writer`position, writer.buffer
    ensures value == null || value.slots.Length == 0 || !AllKnown(value.slots[..]) ==>
              !ok && Confined(s, writer.State())
    ensures value != null && value.slots.Length > 0 && AllKnown(value.slots[..]) ==>
              Appends(s, out + AddressesTlv(ADDRESSES, value.slots[..]), writer.State(), ok)
  {
    ghost var t := writer.State();
    ok := WriteAddressesTlv(writer, ADDRESSES, value, true);
    if value != null && value.slots.Length > 0 && AllKnown(value.slots[..]) {
      AppendsTwice(s, out, t, AddressesTlv(ADDRESSES, value.slots[..]), writer.State(), ok);
    }
  }

  function StringTlvs(deviceId: CString, softwareVersion: CString, platform: CString, portId: CString): seq<Byte> {
    [] + StringTlv(DEVICE_ID, deviceId) + StringTlv(SOFTWARE_VERSION, softwareVersion)
    + StringTlv(PLATFORM, platform) + StringTlv(PORT_ID, portId)
  }

  /** The four string TLVs. */
  method WriteStrings(writer: StreamWriter, deviceId: Option<CString>, softwareVersion: Option<CString>,
                      platform: Option<CString>, portId: Option<CString>) returns (ok: bool)
    requires writer.Valid()
    modifies writer`position, writer.buffer
    ensures deviceId.Some? && softwareVersion.Some? && platform.Some? && portId.Some? ==>
              Appends(old(writer.State()),
                      StringTlvs(deviceId.value, softwareVersion.value, platform.value, portId.value),
                      writer.State(), ok)
    ensures Confined(old(writer.State()), writer.State())
    ensures ok ==> deviceId.Some? && softwareVersion.Some? && platform.Some? && portId.Some?
  {
    ghost var s := writer.State();
    AppendsNothing(s);
    ok := ThenString(writer, s, [], DEVICE_ID, deviceId);
    if !ok {
      return;
    }
    ghost var out := [] + StringTlv(DEVICE_ID, deviceId.value);
    ok := ThenString(writer, s, out, SOFTWARE_VERSION, softwareVersion);
    if !ok {
      return;
    }
    out := out + StringTlv(SOFTWARE_VERSION, softwareVersion.value);
    ok := ThenString(writer, s, out, PLATFORM, platform);
    if !ok {
      return;
    }
    out := out + StringTlv(PLATFORM, platform.value);
    ok := ThenString(writer, s, out, PORT_ID, portId);
  }

  lemma FlattenRequired(p: Packet)
    requires HasRequiredFields(p)
    ensures Flatten(Tlvs(p)[..6])
            == StringTlvs(p.deviceId.value, p.softwareVersion.value, p.platform.value, p.portId.value)
               + Uint32Tlv(CAPABILITIES, p.capabilities.value)
               + AddressesTlv(ADDRESSES, p.addresses.value)
  {
    FlattenSix(Tlvs(p)[..6]);
  }

  /** The capabilities and the addresses, behind the four strings. */
  method ThenNumbersAndAddresses(writer: StreamWriter, ghost s: WriterState, ghost out: seq<Byte>,
                                 capabilities: Option<U32>, addresses: IpAddressArray?) returns (ok: bool)
    requires writer.Valid() && Appends(s, out, writer.State(), true)
    modifies writer`position, writer.buffer
    ensures Confined(s, writer.State())
    ensures ok ==> capabilities.Some? && addresses != null && addresses.slots.Length > 0
                   && AllKnown(addresses.slots[..])
    ensures capabilities.Some? && addresses != null && addresses.slots.Length > 0 && AllKnown(addresses.slots[..]) ==>
              Appends(s, out + Uint32Tlv(CAPABILITIES, capabilities.value) + AddressesTlv(ADDRESSES, addresses.slots[..]),
                      writer.State(), ok)
  {
    ok := ThenCapabilities(writer, s, out, capabilities);
    if !ok {
      return;
    }
    ok := ThenAddresses(writer, s, out + Uint32Tlv(CAPABILITIES, capabilities.value), addresses);
  }

  /** The six required TLVs. */
  method WriteRequiredTlvs(packet: CdpPacket, writer: StreamWriter, ghost p: Packet) returns (ok: bool)
    requires writer.Valid() && p == packet.Value()
    modifies writer`position, writer.buffer
    ensures Confined(old(writer.State()), writer.State())
    ensures HasRequiredFields(p) ==> Appends(old(writer.State()), Flatten(Tlvs(p)[..6]), writer.State(), ok)
    ensures ok ==> HasRequiredFields(p)
  {
    ghost var s := writer.State();
    if HasRequiredFields(p) {
      FlattenRequired(p);
    }
    ok := WriteStrings(writer, packet.deviceId, packet.softwareVersion, packet.platform, packet.portId);
    if !ok {
      return;
    }
    ghost var out := StringTlvs(p.deviceId.value, p.softwareVersion.value, p.platform.value, p.portId.value);
    ok := ThenNumbersAndAddresses(writer, s, out, packet.capabilities, packet.addresses);
  }

  method WriteTlvs(packet: CdpPacket, writer: StreamWriter, ghost p: Packet) returns (ok: bool)
    requires writer.Valid() && p == packet.Value()
    modifies writer`position, writer.buffer
    ensures Confined(old(writer.State()), writer.State())
    ensures HasRequiredFields(p) ==> Appends(old(writer.State()), Flatten(Tlvs(p)), writer.State(), ok)
    ensures ok ==> HasRequiredFields(p)
  {
    ghost var s := writer.State();
    if HasRequiredFields(p) {
      FlattenTlvs(p);
    }
    ok := WriteRequiredTlvs(packet, writer, p);
    if !ok {
      return;
    }
    if packet.version == 2 {
      ghost var t := writer.State();
      ok := WriteUint8Tlv(writer, DUPLEX, packet.duplex);
      AppendsTwice(s, Flatten(Tlvs(p)[..6]), t, Uint8Tlv(DUPLEX, packet.duplex), writer.State(), ok);
    }
  }

  method WriteHeader(packet: CdpPacket, writer: StreamWriter) returns (ok: bool)
    requires writer.Valid()
    modifies writer`position, writer.buffer
    ensures Appends(old(writer.State()), [packet.version, packet.ttl, 0, 0], writer.State(), ok)
  {
    ghost var s := writer.State();
    ok := writer.Put8(packet.version);
    if !ok {
      return;
    }
    ok := PutNext(writer, s, [packet.version], packet.ttl);
    if !ok {
      return;
    }
    ghost var t := writer.State();
    assert [packet.version] + [packet.ttl] == [packet.version, packet.ttl];
    ok := writer.Put16(0);
    AppendsTwice(s, [packet.version, packet.ttl], t, Be16(0), writer.State(), ok);
    assert [packet.version, packet.ttl] + Be16(0) == [packet.version, packet.ttl, 0, 0];
  }

  lemma TailBehindSize(s: WriterState, t: WriterState)
    requires Confined(s, t)
    ensures t.bytes[s.size..] == s.bytes[s.size..]
  {
    assert t.bytes[s.size..] == t.bytes[t.position..][s.size - t.position..];
    assert s.bytes[s.size..] == s.bytes[t.position..][s.size - t.position..];
  }

  /** The unsealed frame, from an empty writer. */
  method WriteUnsealed(packet: CdpPacket, writer: StreamWriter, ghost p: Packet) returns (ok: bool)
    requires writer.Valid() && writer.position == 0 && p == packet.Value()
    modifies writer`position, writer.buffer
    ensures Confined(old(writer.State()), writer.State())
    ensures ok == (HasRequiredFields(p) && FrameSize(p) <= writer.size)
    ensures ok ==> writer.buffer[..writer.position] == UnsealedFrame(p)
  {
    ghost var s := writer.State();
    ghost var header := [p.version, p.ttl, 0, 0];
    if HasRequiredFields(p) {
      FlatTlvsSize(p);
    }
    ok := WriteHeader(packet, writer);
    if !ok {
      return;
    }
    ghost var t := writer.State();
    ok := WriteTlvs(packet, writer, p);
    ghost var u := writer.State();
    ConfinedTwice(s, t, u);
    if HasRequiredFields(p) {
      AppendsTwice(s, header, t, Flatten(Tlvs(p)), u, ok);
      if ok {
        assert u.Written() == [] + UnsealedFrame(p) == UnsealedFrame(p);
      }
    }
  }

  /** Writes the frame into the first size bytes of the buffer. Succeeds exactly when the
      packet is serialisable and its frame fits, returns the frame's length, and touches
      nothing behind the frame, or behind the given size on failure. */
  method Serialize(packet: CdpPacket, buffer: array<Byte>, size: nat) returns (result: int)
    requires size <= buffer.Length
    modifies buffer
    ensures var p := old(packet.Value());
            result == if Serializable(p) && FrameSize(p) <= size then FrameSize(p) else -1
    ensures result >= 0 ==> result <= size
                            && buffer[..result] == Frame(old(packet.Value()))
                            && buffer[..result] == Headed(HeaderOf(old(packet.Value())), old(packet.Value()))
                            && Checksum.Validates(buffer[..result])
                            && buffer[result..] == old(buffer[result..])
    ensures result < 0 ==> buffer[size..] == old(buffer[size..])
  {
    ghost var p := packet.Value();
    if packet.version == 2 && packet.duplex == DUPLEX_UNSET {
      return -1;
    }
    var writer := StreamWriter.New(buffer, size);
    if writer == null {
      return -1;
    }
    ghost var s := writer.State();
    var ok := WriteUnsealed(packet, writer, p);
    ghost var t := writer.State();
    TailBehindSize(s, t);
    if !ok {
      return -1;
    }
    FlatTlvsSize(p);
    FrameIsHeaded(p);
    FrameValidates(p);
    result := writer.position;
    ok := writer.InjectChecksum(2);
    if !ok {
      return -1;
    }
  }
}
