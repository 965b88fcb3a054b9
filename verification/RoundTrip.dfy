/** The serialiser against the parser. */
module RoundTrip {
  import opened Bytes
  import opened Wrappers
  import opened SocketAddresses
  import opened StreamReading
  import opened Packets
  import opened PacketParsing
  import opened PacketSerializing
  import opened ParserLocality
  import opened TlvOrder
  import opened ParsedFields
  import Checksum

  // ---------- Each written TLV decodes to what was written ----------

  predicate Means(t: seq<Byte>, v: TlvValue) {
    WellFormed(t) && ValueOf(t) == v
  }

  lemma {:induction false} UntilNulOfCString(s: CString)
    ensures UntilNul(s) == s
  {
    UntilNulStops(s, |s|);
  }

  lemma StringTlvShape(tag: U16, length: U16, s: CString)
    ensures var t := Be16(tag) + Be16(length) + s;
            |t| == 4 + |s| && TagOf(t) == tag && LengthOf(t) == length && t[4..4 + |s|] == s
  {
  }

  lemma ShortStringTlv(tag: U16, s: CString)
    requires |s| <= MAX_TEXT
    ensures StringTlv(tag, s) == Be16(tag) + Be16(|s| + 4) + s
  {
    SmallRemainders(|s| + 4, 0);
  }

  lemma StringTlvDecodes(tag: U16, length: U16, s: CString)
    requires IsText(tag) && length == |s| + 4
    ensures Means(Be16(tag) + Be16(length) + s, TextValue(tag, s))
  {
    StringTlvShape(tag, length, s);
    UntilNulOfCString(s);
    TextDecodes(Be16(tag) + Be16(length) + s, tag, s);
  }

  lemma TextDecodes(t: seq<Byte>, tag: U16, s: CString)
    requires |t| == 4 + |s| && TagOf(t) == tag && LengthOf(t) == |t| && t[4..4 + |s|] == s
    requires IsText(tag) && UntilNul(s) == s
    ensures Means(t, TextValue(tag, s))
  {
    assert ReadTextValue(t, 4, tag, LengthOf(t)) == Got(TextValue(tag, s), |t|);
  }

  lemma CapabilitiesTlvDecodes(n: U32)
    ensures WellFormed(Uint32Tlv(CAPABILITIES, n)) && ValueOf(Uint32Tlv(CAPABILITIES, n)) == Capabilities(n)
  {
    Word32OfBe32(n);
    var t := Uint32Tlv(CAPABILITIES, n);
    assert t[4..] == Be32(n);
    assert ReadNumberValue(t, 4, CAPABILITIES) == Got(Capabilities(n), 8);
  }

  lemma DuplexTlvDecodes(b: Byte)
    ensures WellFormed(Uint8Tlv(DUPLEX, b)) && ValueOf(Uint8Tlv(DUPLEX, b)) == Duplex(b)
  {
    assert ReadNumberValue(Uint8Tlv(DUPLEX, b), 4, DUPLEX) == Got(Duplex(b), 5);
  }

  lemma InetDecodes(sAddr: U32)
    ensures ReadAddress(AddressBytes(Inet(sAddr)), 0) == Got(Inet(sAddr), 9)
  {
    var t := AddressBytes(Inet(sAddr));
    assert t[5..] == Le32(sAddr);
    Word32OfLe32(sAddr);
    assert ReadInet(t, 5) == Got(Inet(sAddr), 9);
    assert ReadProtocolType(t, 0) == Got(FamilyInet, 3);
  }

  lemma Inet6Selectors()
    ensures INET6_HEADER[0] == 0x02 && INET6_HEADER[2] == 0xAA && INET6_HEADER[3] == 0xAA
  {
  }

  lemma Inet6Oui()
    ensures Word24(INET6_HEADER[5], INET6_HEADER[6], INET6_HEADER[7]) == 0
  {
  }

  lemma Inet6Pid()
    ensures Word16(INET6_HEADER[8], INET6_HEADER[9]) == 0x86DD
  {
  }

  lemma Inet6Length()
    ensures Word16(INET6_HEADER[10], INET6_HEADER[11]) == 16
  {
  }

  lemma SameHead(h: seq<Byte>, body: seq<Byte>)
    requires |h| == 12
    ensures var t := h + body;
            && t[0] == h[0] && t[2] == h[2] && t[3] == h[3] && t[5] == h[5] && t[6] == h[6] && t[7] == h[7]
            && t[8] == h[8] && t[9] == h[9] && t[10] == h[10] && t[11] == h[11]
            && t[12..] == body
  {
  }

  lemma Inet6HeaderDecodes(t: seq<Byte>)
    requires |t| == 28 && t[0] == 0x02 && t[2] == 0xAA && t[3] == 0xAA
    requires Word24(t[5], t[6], t[7]) == 0 && Word16(t[8], t[9]) == 0x86DD && Word16(t[10], t[11]) == 16
    ensures ReadProtocolType(t, 0) == Got(FamilyInet6, 10) && Read16(t, 10) == Got(16, 12)
  {
    assert ReadSnap(t, 2) == Got(FamilyInet6, 10);
  }

  lemma Inet6PartsDecode(t: seq<Byte>, octets: Octets16)
    requires |t| == 28 && ReadProtocolType(t, 0) == Got(FamilyInet6, 10) && Read16(t, 10) == Got(16, 12)
    requires t[12..] == octets
    ensures ReadAddress(t, 0) == Got(Inet6(octets), 28)
  {
    assert t[12..12 + 16] == t[12..];
    assert ReadInet6(t, 12) == Got(Inet6(octets), 28);
  }

  lemma Inet6HeaderAndOctetsDecode(h: seq<Byte>, octets: Octets16)
    requires |h| == 12 && h[0] == 0x02 && h[2] == 0xAA && h[3] == 0xAA
    requires Word24(h[5], h[6], h[7]) == 0 && Word16(h[8], h[9]) == 0x86DD && Word16(h[10], h[11]) == 16
    ensures ReadAddress(h + octets, 0) == Got(Inet6(octets), 28)
  {
    SameHead(h, octets);
    Inet6HeaderDecodes(h + octets);
    Inet6PartsDecode(h + octets, octets);
  }

  lemma Inet6Decodes(octets: Octets16)
    ensures ReadAddress(AddressBytes(Inet6(octets)), 0) == Got(Inet6(octets), 28)
  {
    Inet6Selectors();
    Inet6Oui();
    Inet6Pid();
    Inet6Length();
    Inet6HeaderAndOctetsDecode(INET6_HEADER, octets);
  }

  /** The read recovers the item wherever its encoding stands. */
  ghost predicate Decodes<T>(read: Reader<T>, item: T, bytes: seq<Byte>) {
    forall d, pos: nat :: Sees(bytes, 0, d, pos) ==> read(d, pos) == Got(item, pos + |bytes|)
  }

  lemma AddressDecodes(a: SockAddr)
    requires !a.OtherFamily?
    ensures ReadAddress(AddressBytes(a), 0) == Got(a, |AddressBytes(a)|)
  {
    match a {
      case Inet(sAddr) => InetDecodes(sAddr);
      case Inet6(octets) => Inet6Decodes(octets);
    }
  }

  lemma SlotDecodesAt(a: SockAddr, bytes: seq<Byte>, d: seq<Byte>, pos: nat)
    requires ReadAddress(bytes, 0) == Got(a, |bytes|) && Sees(bytes, 0, d, pos)
    ensures ReadSlot(d, pos) == Got(Some(a), pos + |bytes|)
  {
    AddressIsLocal(bytes, 0, d, pos);
  }

  lemma SlotDecodes(a: SockAddr, bytes: seq<Byte>)
    requires ReadAddress(bytes, 0) == Got(a, |bytes|)
    ensures Decodes(ReadSlot, Some(a), bytes)
  {
    forall d, pos: nat | Sees(bytes, 0, d, pos) ensures ReadSlot(d, pos) == Got(Some(a), pos + |bytes|) {
      SlotDecodesAt(a, bytes, d, pos);
    }
  }

  lemma SeesParts(a: seq<Byte>, b: seq<Byte>, d: seq<Byte>, pos: nat)
    requires Sees(a + b, 0, d, pos)
    ensures Sees(a, 0, d, pos) && Sees(b, 0, d, pos + |a|)
  {
    forall k | 0 <= k < |a| ensures a[k] == d[k + pos] {
      assert (a + b)[k] == a[k];
    }
    forall k | 0 <= k < |b| ensures b[k] == d[k + (pos + |a|)] {
      assert (a + b)[|a| + k] == b[k];
    }
  }

  lemma DecodesThere<T>(read: Reader<T>, item: T, bytes: seq<Byte>, d: seq<Byte>, pos: nat)
    requires Decodes(read, item, bytes) && Sees(bytes, 0, d, pos)
    ensures read(d, pos) == Got(item, pos + |bytes|)
  {
  }

  lemma OneMoreDecodes<T>(read: Reader<T>, items: seq<T>, item: T, d: seq<Byte>, pos: nat, mid: nat, next: nat)
    requires ReadMany(read, d, pos, |items|) == Got(items, mid) && read(d, mid) == Got(item, next)
    ensures ReadMany(read, d, pos, |items| + 1) == Got(items + [item], next)
  {
    ReadManyStep(read, d, pos, items, mid);
  }

  ghost predicate AllDecode<T>(read: Reader<T>, items: seq<T>, chunks: seq<seq<Byte>>) {
    |items| == |chunks| && forall i | 0 <= i < |items| :: Decodes(read, items[i], chunks[i])
  }

  lemma AllDecodeParts<T>(read: Reader<T>, items: seq<T>, chunks: seq<seq<Byte>>, n: nat)
    requires AllDecode(read, items, chunks) && |items| == n + 1
    ensures AllDecode(read, items[..n], chunks[..n]) && Decodes(read, items[n], chunks[n])
  {
  }

  lemma FlattenParts(chunks: seq<seq<Byte>>, n: nat, d: seq<Byte>, pos: nat)
    requires |chunks| == n + 1 && Sees(Flatten(chunks), 0, d, pos)
    ensures Sees(Flatten(chunks[..n]), 0, d, pos) && Sees(chunks[n], 0, d, pos + |Flatten(chunks[..n])|)
    ensures |Flatten(chunks)| == |Flatten(chunks[..n])| + |chunks[n]|
  {
    SeesParts(Flatten(chunks[..n]), chunks[n], d, pos);
  }

  /** Reading as many items as were written, one behind the other, recovers them all. */
  lemma {:induction false} ManyDecode<T>(read: Reader<T>, items: seq<T>, chunks: seq<seq<Byte>>, d: seq<Byte>, pos: nat)
    requires AllDecode(read, items, chunks) && Sees(Flatten(chunks), 0, d, pos)
    ensures ReadMany(read, d, pos, |items|) == Got(items, pos + |Flatten(chunks)|)
  {
    if items == [] {
    } else {
      var n := |items| - 1;
      var mid := pos + |Flatten(chunks[..n])|;
      FlattenParts(chunks, n, d, pos);
      AllDecodeParts(read, items, chunks, n);
      ManyDecode(read, items[..n], chunks[..n], d, pos);
      DecodesThere(read, items[n], chunks[n], d, mid);
      OneMoreDecodes(read, items[..n], items[n], d, pos, mid, mid + |chunks[n]|);
      assert items[..n] + [items[n]] == items;
    }
  }

  function Chunks(slots: Slots): seq<seq<Byte>>
    requires AllKnown(slots)
  {
    seq(|slots|, i requires 0 <= i < |slots| => AddressBytes(slots[i].value))
  }

  lemma {:induction false} FlattenChunks(slots: Slots)
    requires AllKnown(slots)
    ensures Flatten(Chunks(slots)) == AddressesBytes(slots)
  {
    if slots == [] {
    } else {
      var n := |slots| - 1;
      FlattenChunks(slots[..n]);
      assert Chunks(slots)[..n] == Chunks(slots[..n]);
    }
  }

  lemma AddressesDecode(slots: Slots, d: seq<Byte>, pos: nat)
    requires AllKnown(slots) && Sees(AddressesBytes(slots), 0, d, pos)
    ensures ReadMany(ReadSlot, d, pos, |slots|) == Got(slots, pos + |AddressesBytes(slots)|)
  {
    forall i | 0 <= i < |slots| ensures Decodes(ReadSlot, slots[i], Chunks(slots)[i]) {
      AddressDecodes(slots[i].value);
      SlotDecodes(slots[i].value, AddressBytes(slots[i].value));
    }
    FlattenChunks(slots);
    ManyDecode(ReadSlot, slots, Chunks(slots), d, pos);
  }

  lemma ListShape(tag: U16, length: U16, count: U32, body: seq<Byte>)
    ensures var d := Be16(tag) + Be16(length) + Be32(count) + body;
            && Read16(d, 0) == Got(tag, 2) && Read16(d, 2) == Got(length, 4) && Read32(d, 4) == Got(count, 8)
            && d[8..] == body
  {
    Word32OfBe32(count);
  }

  /** The fixed part of an address TLV, and where its entries start. */
  lemma AddressesTlvShape(length: U16, count: U32, body: seq<Byte>, rest: seq<Byte>, d: seq<Byte>)
    requires d == Be16(ADDRESSES) + Be16(length) + Be32(count) + body + rest
    ensures Read16(d, 0) == Got(ADDRESSES, 2) && Read16(d, 2) == Got(length, 4) && Read32(d, 4) == Got(count, 8)
    ensures Sees(body, 0, d, 8)
  {
    ListShape(ADDRESSES, length, count, body + rest);
    ConcatRight(Be16(ADDRESSES) + Be16(length) + Be32(count), body, rest);
  }

  lemma ConcatRight(a: seq<Byte>, b: seq<Byte>, c: seq<Byte>)
    ensures a + b + c == a + (b + c)
    ensures Sees(b, 0, a + b + c, |a|)
  {
    assert a + b + c == a + (b + c);
  }

  /** The payload behind an address TLV's header decodes whatever the length field says. */
  lemma AddressListDecodes(slots: Slots, d: seq<Byte>)
    requires AllKnown(slots) && Read32(d, 4) == Got(|slots|, 8) && Sees(AddressesBytes(slots), 0, d, 8)
    ensures ReadAddressList(d, 4) == Got(slots, 8 + |AddressesBytes(slots)|)
  {
    AddressesDecode(slots, d, 8);
  }

  lemma SmallRemainders(x: nat, y: nat)
    ensures x < 0x1_0000 ==> x % 0x1_0000 == x
    ensures y < 0x1_0000_0000 ==> y % 0x1_0000_0000 == y
  {
  }

  lemma AddressesTlvDecodes(slots: Slots)
    requires AllKnown(slots) && AddressTlvSize(slots) <= 0xFFFF
    ensures WellFormed(AddressesTlv(ADDRESSES, slots)) && ValueOf(AddressesTlv(ADDRESSES, slots)) == Addresses(slots)
  {
    AddressesTlvDecodesTo(slots, AddressesTlv(ADDRESSES, slots));
  }

  lemma AddressesTlvDecodesTo(slots: Slots, t: seq<Byte>)
    requires AllKnown(slots) && AddressTlvSize(slots) <= 0xFFFF && t == AddressesTlv(ADDRESSES, slots)
    ensures WellFormed(t) && ValueOf(t) == Addresses(slots)
  {
    AddressCountBound(slots, AddressTlvSize(slots));
    AddressesTlvLength(slots);
    assert t == t + [];
    SmallRemainders(AddressTlvSize(slots), |slots|);
    AddressesTlvShape(AddressTlvSize(slots), |slots|, AddressesBytes(slots), [], t);
    AddressListDecodes(slots, t);
    WellFormedAddressList(t, slots, 8 + |AddressesBytes(slots)|);
  }

  lemma AddressesTlvLength(slots: Slots)
    requires AllKnown(slots)
    ensures |AddressesTlv(ADDRESSES, slots)| == AddressTlvSize(slots)
  {
    AddressTlvSizeCounts(slots);
  }

  lemma WellFormedAddressList(t: seq<Byte>, slots: Slots, next: nat)
    requires Read16(t, 0) == Got(ADDRESSES, 2) && Read16(t, 2) == Got(|t|, 4)
    requires ReadAddressList(t, 4) == Got(slots, next)
    ensures WellFormed(t) && ValueOf(t) == Addresses(slots)
  {
    assert ReadAddressListValue(t, 4, ADDRESSES) == Got(Addresses(slots), next);
  }

  // ---------- The round trip ----------

  predicate TextsFit(p: Packet)
    requires HasRequiredFields(p)
  {
    && |p.deviceId.value| <= MAX_TEXT && |p.softwareVersion.value| <= MAX_TEXT
    && |p.platform.value| <= MAX_TEXT && |p.portId.value| <= MAX_TEXT
  }

  /** What a receiver makes of the packet's TLVs behind a header: the header, the written fields,
      and everything else absent. */
  function Received(header: Header, p: Packet): Packet {
    NewPacket(header[0], header[1], Word16(header[2], header[3])).(
      deviceId := p.deviceId,
      softwareVersion := p.softwareVersion,
      platform := p.platform,
      portId := p.portId,
      capabilities := p.capabilities,
      addresses := p.addresses,
      duplex := if p.version == 2 then p.duplex else DUPLEX_UNSET)
  }

  function ApplyAll(q: Packet, vs: seq<TlvValue>): Packet {
    if vs == [] then q else Apply(ApplyAll(q, vs[..|vs| - 1]), vs[|vs| - 1])
  }

  lemma {:induction false} EffectIsApplyAll(value: Decoder, q: Packet, ts: seq<seq<Byte>>, vs: seq<TlvValue>)
    requires |ts| == |vs| && forall i | 0 <= i < |ts| :: value(ts[i]) == vs[i]
    ensures Effect(value, q, ts) == ApplyAll(q, vs)
  {
    if ts == [] {
    } else {
      EffectIsApplyAll(value, q, ts[..|ts| - 1], vs[..|vs| - 1]);
    }
  }

  /** The values behind the written TLVs, in the same order. */
  function Values(p: Packet): seq<TlvValue>
    requires HasRequiredFields(p)
  {
    [DeviceId(p.deviceId.value), SoftwareVersion(p.softwareVersion.value), Platform(p.platform.value),
     PortId(p.portId.value), Capabilities(p.capabilities.value), Addresses(p.addresses.value)]
    + (if p.version == 2 then [Duplex(p.duplex)] else [])
  }

  type Meaning = (seq<Byte>, TlvValue) -> bool

  lemma TlvAt(p: Packet, means: Meaning, i: nat)
    requires HasRequiredFields(p) && i < |Tlvs(p)|
    requires i == 0 ==> means(StringTlv(DEVICE_ID, p.deviceId.value), DeviceId(p.deviceId.value))
    requires i == 1 ==>
               means(StringTlv(SOFTWARE_VERSION, p.softwareVersion.value), SoftwareVersion(p.softwareVersion.value))
    requires i == 2 ==> means(StringTlv(PLATFORM, p.platform.value), Platform(p.platform.value))
    requires i == 3 ==> means(StringTlv(PORT_ID, p.portId.value), PortId(p.portId.value))
    requires i == 4 ==> means(Uint32Tlv(CAPABILITIES, p.capabilities.value), Capabilities(p.capabilities.value))
    requires i == 5 ==> means(AddressesTlv(ADDRESSES, p.addresses.value), Addresses(p.addresses.value))
    requires i == 6 ==> means(Uint8Tlv(DUPLEX, p.duplex), Duplex(p.duplex))
    ensures means(Tlvs(p)[i], Values(p)[i])
  {
  }

  lemma TlvDecodes(p: Packet, i: nat)
    requires HasRequiredFields(p) && TextsFit(p) && i < |Tlvs(p)|
    requires i == 5 ==> AddressTlvSize(p.addresses.value) <= 0xFFFF
    ensures Means(Tlvs(p)[i], Values(p)[i])
  {
    match i {
      case 0 =>
        ShortStringTlv(DEVICE_ID, p.deviceId.value);
        StringTlvDecodes(DEVICE_ID, |p.deviceId.value| + 4, p.deviceId.value);
      case 1 =>
        ShortStringTlv(SOFTWARE_VERSION, p.softwareVersion.value);
        StringTlvDecodes(SOFTWARE_VERSION, |p.softwareVersion.value| + 4, p.softwareVersion.value);
      case 2 =>
        ShortStringTlv(PLATFORM, p.platform.value);
        StringTlvDecodes(PLATFORM, |p.platform.value| + 4, p.platform.value);
      case 3 =>
        ShortStringTlv(PORT_ID, p.portId.value);
        StringTlvDecodes(PORT_ID, |p.portId.value| + 4, p.portId.value);
      case 4 => CapabilitiesTlvDecodes(p.capabilities.value);
      case 5 => AddressesTlvDecodes(p.addresses.value);
      case _ => DuplexTlvDecodes(p.duplex);
    }
    TlvAt(p, Means, i);
  }

  lemma FirstTlvs(p: Packet, q: Packet, n: nat)
    requires HasRequiredFields(p) && TextsFit(p) && n <= |Tlvs(p)|
    requires n > 5 ==> AddressTlvSize(p.addresses.value) <= 0xFFFF
    ensures AllWellFormed(Tlvs(p)[..n])
    ensures Effect(ValueOf, q, Tlvs(p)[..n]) == ApplyAll(q, Values(p)[..n])
  {
    forall i | 0 <= i < n ensures WellFormed(Tlvs(p)[..n][i]) && ValueOf(Tlvs(p)[..n][i]) == Values(p)[..n][i] {
      TlvDecodes(p, i);
    }
    EffectIsApplyAll(ValueOf, q, Tlvs(p)[..n], Values(p)[..n]);
  }

  lemma ApplyAllOfThree(q: Packet, vs: seq<TlvValue>)
    requires |vs| >= 3
    ensures ApplyAll(q, vs[..3]) == Apply(Apply(Apply(q, vs[0]), vs[1]), vs[2])
  {
    assert vs[..1][..0] == [] && vs[..2][..1] == vs[..1] && vs[..3][..2] == vs[..2];
    assert ApplyAll(q, vs[..1]) == Apply(q, vs[0]);
    assert ApplyAll(q, vs[..2]) == Apply(ApplyAll(q, vs[..1]), vs[1]);
  }

  lemma ApplyAllOfSix(q: Packet, vs: seq<TlvValue>)
    requires |vs| >= 6
    ensures ApplyAll(q, vs[..6]) == Apply(Apply(Apply(ApplyAll(q, vs[..3]), vs[3]), vs[4]), vs[5])
  {
    assert vs[..4][..3] == vs[..3] && vs[..5][..4] == vs[..4] && vs[..6][..5] == vs[..5];
    assert ApplyAll(q, vs[..4]) == Apply(ApplyAll(q, vs[..3]), vs[3]);
    assert ApplyAll(q, vs[..5]) == Apply(ApplyAll(q, vs[..4]), vs[4]);
  }

  lemma ApplyRequiredValues(p: Packet, q: Packet)
    requires HasRequiredFields(p)
    ensures ApplyAll(q, Values(p)[..6])
            == q.(deviceId := p.deviceId, softwareVersion := p.softwareVersion, platform := p.platform,
                  portId := p.portId, capabilities := p.capabilities, addresses := p.addresses)
  {
    ApplyAllOfThree(q, Values(p));
    ApplyAllOfSix(q, Values(p));
  }

  lemma ApplyAllValues(p: Packet, q: Packet)
    requires HasRequiredFields(p)
    ensures ApplyAll(q, Values(p))
            == q.(deviceId := p.deviceId, softwareVersion := p.softwareVersion, platform := p.platform,
                  portId := p.portId, capabilities := p.capabilities, addresses := p.addresses,
                  duplex := if p.version == 2 then p.duplex else q.duplex)
  {
    var vs := Values(p);
    ApplyRequiredValues(p, q);
    if p.version == 2 {
      assert vs[..|vs| - 1] == vs[..6];
    } else {
      assert vs[..6] == vs;
    }
  }

  lemma AllTlvs(p: Packet, q: Packet)
    requires HasRequiredFields(p) && TextsFit(p) && AddressTlvSize(p.addresses.value) <= 0xFFFF
    ensures AllWellFormed(Tlvs(p)) && Effect(ValueOf, q, Tlvs(p)) == ApplyAll(q, Values(p))
  {
    var ts := Tlvs(p);
    assert ts[..|ts|] == ts && Values(p)[..|ts|] == Values(p);
    FirstTlvs(p, q, |ts|);
  }

  lemma TlvsEnd(header: seq<Byte>, ts: seq<seq<Byte>>)
    requires |header| == 4 && AllWellFormed(ts)
    ensures Parse(header + Flatten(ts), 0) == Parsed(Effect(ValueOf, HeaderPacket(header), ts))
  {
    FrameTakesEffect(header, ts, []);
    assert header + Flatten(ts) + [] == header + Flatten(ts);
  }

  /** Serialising and parsing gives back the header, the four strings, the capabilities, the
      addresses in order and, for version 2, the duplex. */
  lemma ParseOfFrame(header: Header, p: Packet)
    requires HasRequiredFields(p) && TextsFit(p) && AddressTlvSize(p.addresses.value) <= 0xFFFF
    ensures Parse(Headed(header, p), 0) == Parsed(Received(header, p))
  {
    AllTlvs(p, HeaderPacket(header));
    ApplyAllValues(p, HeaderPacket(header));
    TlvsEnd(header, Tlvs(p));
  }

  /** As long as the address list fits its length field, the round trip succeeds exactly
      when every string is at most 65531 bytes long. */
  lemma ShortListRoundTripIff(header: Header, p: Packet)
    requires HasRequiredFields(p) && AddressTlvSize(p.addresses.value) <= 0xFFFF
    ensures Parse(Headed(header, p), 0) == Parsed(Received(header, p)) <==> TextsFit(p)
  {
    if TextsFit(p) {
      ParseOfFrame(header, p);
    } else if Parse(Headed(header, p), 0) == Parsed(Received(header, p)) {
      ParsedPacketFits(Headed(header, p), 0);
    }
  }

  lemma SizeBounds(p: Packet)
    requires HasRequiredFields(p) && FrameSize(p) <= 0xFFFF
    ensures TextsFit(p) && AddressTlvSize(p.addresses.value) <= 0xFFFF
  {
    AddressTlvSizeCounts(p.addresses.value);
  }

  /** Within 65535 bytes every length field on the wire is exact, so the round trip needs no
      further condition. */
  lemma ShortFramesRoundTrip(header: Header, p: Packet)
    requires HasRequiredFields(p) && FrameSize(p) <= 0xFFFF
    ensures Parse(Headed(header, p), 0) == Parsed(Received(header, p))
  {
    SizeBounds(p);
    ParseOfFrame(header, p);
  }

  lemma LengthFieldIs(tag: U16, length: U16, body: seq<Byte>)
    ensures LengthOf(Be16(tag) + Be16(length) + body) == length
  {
  }

  lemma StringTlvLength(tag: U16, s: CString)
    ensures LengthOf(StringTlv(tag, s)) == |StringTlv(tag, s)| % 0x1_0000
  {
    LengthFieldIs(tag, (|s| + 4) % 0x1_0000, s);
  }

  lemma AddressesTlvLengthField(slots: Slots)
    requires AllKnown(slots)
    ensures LengthOf(AddressesTlv(ADDRESSES, slots)) == |AddressesTlv(ADDRESSES, slots)| % 0x1_0000
  {
    AddressesTlvLength(slots);
    var length: U16 := AddressTlvSize(slots) % 0x1_0000;
    ListShape(ADDRESSES, length, |slots| % 0x1_0000_0000, AddressesBytes(slots));
  }

  lemma ModuloIsSelf(x: nat)
    ensures x % 0x1_0000 == x <==> x <= 0xFFFF
  {
  }

  /** A TLV's length field on the wire is its extent modulo 65536, hence its extent exactly
      when that is at most 65535. */
  lemma LengthFields(p: Packet, i: nat)
    requires HasRequiredFields(p) && i < |Tlvs(p)|
    ensures |Tlvs(p)[i]| >= 4
    ensures LengthOf(Tlvs(p)[i]) == |Tlvs(p)[i]| % 0x1_0000
    ensures LengthOf(Tlvs(p)[i]) == |Tlvs(p)[i]| <==> |Tlvs(p)[i]| <= 0xFFFF
  {
    ModuloIsSelf(|Tlvs(p)[i]|);
    match i {
      case 0 => StringTlvLength(DEVICE_ID, p.deviceId.value);
      case 1 => StringTlvLength(SOFTWARE_VERSION, p.softwareVersion.value);
      case 2 => StringTlvLength(PLATFORM, p.platform.value);
      case 3 => StringTlvLength(PORT_ID, p.portId.value);
      case 4 => LengthFieldIs(CAPABILITIES, 8, Be32(p.capabilities.value));
      case 5 => AddressesTlvLengthField(p.addresses.value);
      case _ => LengthFieldIs(DUPLEX, 5, [p.duplex]);
    }
  }

  // ---------- Parsed packets are stable ----------

  /** Serialising depends on nothing that the round trip loses. */
  lemma FrameOfReceived(header: Header, p: Packet)
    requires Serializable(p) && Heads(header, p)
    ensures Serializable(Received(header, p)) && UnsealedFrame(Received(header, p)) == UnsealedFrame(p)
  {
  }

  /** Whatever frame a packet was parsed from, if it can be serialised at all then parsing
      the result gives the same serialisable fields, and serialising again the same bytes. */
  lemma ReserialisedFrameIsStable(d: seq<Byte>, pos: nat, p: Packet, header: Header)
    requires |d| <= 0xFFFF && Parse(d, pos) == Parsed(p) && Serializable(p) && Heads(header, p)
    ensures Parse(Headed(header, p), 0) == Parsed(Received(header, p))
    ensures Serializable(Received(header, p)) && Frame(Received(header, p)) == Frame(p)
  {
    ParsedPacketFits(d, pos);
    ParseOfFrame(header, p);
    FrameOfReceived(header, p);
  }
}
