/** What every successful parse guarantees about the packet it yields. */
module ParsedFields {
  import opened Bytes
  import opened Wrappers
  import opened StreamReading
  import opened Packets
  import opened PacketParsing
  import opened PacketSerializing

  const MAX_TEXT := 65531

  predicate TextFits(s: Option<CString>) {
    s.Some? ==> |s.value| <= MAX_TEXT
  }

  /** No empty slot, only known families, no more addresses than a 32-bit count tells or a
      frame of n bytes can hold in the serialiser's encoding. */
  predicate ListFits(slots: Option<Slots>, n: nat) {
    slots.Some? ==> AllKnown(slots.value) && |slots.value| < 0x1_0000_0000 && AddressTlvSize(slots.value) <= n
  }

  predicate Fits(p: Packet, n: nat) {
    && TextFits(p.deviceId) && TextFits(p.portId) && TextFits(p.softwareVersion)
    && TextFits(p.platform) && TextFits(p.vtpManagementDomain) && TextFits(p.startupNativeVlan)
    && ListFits(p.addresses, n) && ListFits(p.managementAddresses, n)
    && (p.nativeVlan.Some? ==> p.nativeVlan.value <= 4095)
  }

  predicate ValueFits(v: TlvValue, n: nat) {
    match v
    case DeviceId(s) => |s| <= MAX_TEXT
    case PortId(s) => |s| <= MAX_TEXT
    case SoftwareVersion(s) => |s| <= MAX_TEXT
    case Platform(s) => |s| <= MAX_TEXT
    case VtpManagementDomain(s) => |s| <= MAX_TEXT
    case StartupNativeVlan(s) => |s| <= MAX_TEXT
    case Addresses(slots) => ListFits(Some(slots), n)
    case ManagementAddresses(slots) => ListFits(Some(slots), n)
    case NativeVlan(vlan) => vlan <= 4095
    case _ => true
  }

  lemma ApplyKeepsFits(p: Packet, v: TlvValue, n: nat)
    requires Fits(p, n) && ValueFits(v, n)
    ensures Fits(Apply(p, v), n)
  {
  }

  lemma {:induction false} ItemsSatisfy<T>(read: Reader<T>, good: T -> bool, d: seq<Byte>, pos: nat, count: nat)
    requires forall q: nat :: read(d, q).Got? ==> good(read(d, q).value)
    ensures var r := ReadMany(read, d, pos, count);
            r.Got? ==> forall i | 0 <= i < |r.value| :: good(r.value[i])
  {
    if count > 0 && ReadMany(read, d, pos, count).Got? {
      ItemsSatisfy(read, good, d, pos, count - 1);
      var before := ReadMany(read, d, pos, count - 1);
      var last := read(d, before.next);
      assert good(last.value);
      assert ReadMany(read, d, pos, count).value == before.value + [last.value];
    }
  }

  lemma SlotsAreKnown(d: seq<Byte>, pos: nat, count: nat)
    ensures var r := ReadMany(ReadSlot, d, pos, count); r.Got? ==> AllKnown(r.value)
  {
    ItemsSatisfy(ReadSlot, Known, d, pos, count);
  }

  lemma {:induction false} TlvSizeIsTotal(slots: Slots)
    requires AllKnown(slots)
    ensures AddressTlvSize(slots) == 8 + Total(SlotSize, slots)
    ensures 9 * |slots| <= Total(SlotSize, slots)
  {
    if slots == [] {
    } else {
      TlvSizeIsTotal(slots[..|slots| - 1]);
    }
  }

  lemma ListFitsFrame(slots: Slots, pos: nat, next: nat, n: nat)
    requires AllKnown(slots) && |slots| < 0x1_0000_0000 && 4 <= pos && pos + 4 + Total(SlotSize, slots) <= next <= n
    ensures ListFits(Some(slots), n)
  {
    TlvSizeIsTotal(slots);
  }

  lemma AddressListFits(d: seq<Byte>, pos: nat)
    requires pos >= 4
    ensures var r := ReadAddressList(d, pos); r.Got? ==> ListFits(Some(r.value), |d|)
  {
    var r := ReadAddressList(d, pos);
    if r.Got? {
      SlotsAreKnown(d, pos + 4, Read32(d, pos).value);
      ListFitsFrame(r.value, pos, r.next, |d|);
    }
  }

  lemma ListValueFits(d: seq<Byte>, pos: nat, tag: U16)
    requires pos >= 4 && IsAddressList(tag)
    ensures var r := ReadAddressListValue(d, pos, tag); r.Got? ==> ValueFits(r.value, |d|)
  {
    AddressListFits(d, pos);
  }

  lemma PayloadFits(d: seq<Byte>, pos: nat, tag: U16, length: U16)
    requires pos >= 4 && ReadPayload(d, pos, tag, length).Got?
    ensures ValueFits(ReadPayload(d, pos, tag, length).value, |d|)
  {
    if IsAddressList(tag) {
      ListValueFits(d, pos, tag);
    } else if IsText(tag) {
      TextPayloadFits(d, pos, tag, length);
    }
  }

  lemma TextPayloadFits(d: seq<Byte>, pos: nat, tag: U16, length: U16)
    requires IsText(tag) && ReadTextValue(d, pos, tag, length).Got?
    ensures ValueFits(ReadTextValue(d, pos, tag, length).value, |d|)
  {
  }

  ghost predicate AllValuesFit(read: Reader<TlvValue>, d: seq<Byte>) {
    forall q: nat :: read(d, q).Got? ==> ValueFits(read(d, q).value, |d|)
  }

  lemma {:induction false} LoopKeepsFits(read: Reader<TlvValue>, d: seq<Byte>, pos: nat, p: Packet)
    requires AllValuesFit(read, d) && Fits(p, |d|) && Loop(read, d, pos, p).Parsed?
    ensures Fits(Loop(read, d, pos, p).packet, |d|)
    ensures var q := Loop(read, d, pos, p).packet; q.version == p.version && q.ttl == p.ttl && q.checksum == p.checksum
    decreases |d| - pos
  {
    if pos < |d| {
      var v := read(d, pos).value;
      ApplyKeepsFits(p, v, |d|);
      LoopKeepsFits(read, d, read(d, pos).next, Apply(p, v));
    }
  }

  lemma TlvFits(d: seq<Byte>, pos: nat)
    requires ReadTlv(d, pos).Got?
    ensures ValueFits(ReadTlv(d, pos).value, |d|)
  {
    PayloadFits(d, pos + 4, Read16(d, pos).value, Read16(d, pos + 2).value);
  }

  /** Every parsed string is NUL-free (as every CString) and at most 65531 bytes long, every
      parsed address list is full, of known families, and no larger than the frame; the
      header is the frame's own. */
  lemma ParsedPacketFits(d: seq<Byte>, pos: nat)
    requires Parse(d, pos).Parsed?
    ensures pos + 4 <= |d| && Fits(Parse(d, pos).packet, |d|)
    ensures var p := Parse(d, pos).packet;
            p.version == d[pos] && p.ttl == d[pos + 1] && p.checksum == Word16(d[pos + 2], d[pos + 3])
  {
    forall q: nat | ReadTlv(d, q).Got? ensures ValueFits(ReadTlv(d, q).value, |d|) {
      TlvFits(d, q);
    }
    LoopKeepsFits(ReadTlv, d, pos + 4, NewPacket(d[pos], d[pos + 1], Word16(d[pos + 2], d[pos + 3])));
  }

  /** In particular a frame of n bytes yields at most n / 9 addresses. */
  lemma AddressCountBound(slots: Slots, n: nat)
    requires AllKnown(slots) && AddressTlvSize(slots) <= n
    ensures 9 * |slots| <= n - 8
  {
    TlvSizeIsTotal(slots);
  }
}
