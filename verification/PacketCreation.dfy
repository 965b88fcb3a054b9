/** cdp_create_packet: the frame a host announces itself with, from its parts to its
    receiver. */
module PacketCreation {
  import opened Bytes
  import opened Wrappers
  import opened SocketAddresses
  import opened Packets
  import opened PacketSerializing
  import opened PacketParsing
  import opened RoundTrip
  import Checksum

  /** A version 2 packet with a hold time of 180 seconds, the host and IGMP capabilities and
      full duplex. Null arguments are absent values. */
  function Announcement(interfaceName: Option<CString>, deviceId: Option<CString>, platform: Option<CString>,
                        softwareVersion: Option<CString>, addresses: Option<Slots>): Packet
  {
    NewPacket(2, 180, 0).(
      deviceId := deviceId,
      softwareVersion := softwareVersion,
      platform := platform,
      capabilities := Some(CAPABILITY_HOST + CAPABILITY_IGMP),
      portId := interfaceName,
      duplex := DUPLEX_FULL,
      addresses := addresses)
  }

  /** Copies the addresses into an array of the same size; an unknown family is an error. */
  method CopyAddresses(addresses: IpAddressArray) returns (r: Option<IpAddressArray>)
    ensures r.None? <==> Some(OtherFamily) in addresses.slots[..]
    ensures r.Some? ==> fresh(r.value) && fresh(r.value.slots) && r.value.slots[..] == addresses.slots[..]
  {
    var copy := new IpAddressArray(addresses.slots.Length);
    assert copy.slots.Length == |copy.slots[..]| == addresses.slots.Length;
    for i := 0 to addresses.slots.Length
      invariant copy.slots[..i] == addresses.slots[..i]
      invariant Some(OtherFamily) !in addresses.slots[..i]
    {
      ghost var before := copy.slots[..];
      var ok := copy.CopyInto(i, addresses.slots[i]);
      if !ok {
        assert addresses.slots[..][i] == Some(OtherFamily);
        return None;
      }
      assert copy.slots[..i + 1] == before[..i] + [addresses.slots[i]];
      assert addresses.slots[..i + 1] == addresses.slots[..i] + [addresses.slots[i]];
    }
    assert copy.slots[..copy.slots.Length] == copy.slots[..];
    assert addresses.slots[..addresses.slots.Length] == addresses.slots[..];
    return Some(copy);
  }

  method StartAnnouncement(deviceId: Option<CString>, softwareVersion: Option<CString>, platform: Option<CString>)
    returns (packet: CdpPacket)
    ensures fresh(packet) && packet.Repr() == {packet}
    ensures packet.Value()
            == NewPacket(2, 180, 0).(deviceId := deviceId, softwareVersion := softwareVersion, platform := platform)
  {
    packet := new CdpPacket(2, 180, 0);
    packet.SetText(DEVICE_ID, deviceId);
    packet.SetText(SOFTWARE_VERSION, softwareVersion);
    packet.SetText(PLATFORM, platform);
  }

  method FinishAnnouncement(packet: CdpPacket, interfaceName: Option<CString>)
    modifies packet
    ensures packet.Repr() == old(packet.Repr())
    ensures packet.Value()
            == old(packet.Value()).(capabilities := Some(CAPABILITY_HOST + CAPABILITY_IGMP),
                                    portId := interfaceName, duplex := DUPLEX_FULL)
  {
    packet.SetCapabilities(CAPABILITY_HOST + CAPABILITY_IGMP);
    packet.SetText(PORT_ID, interfaceName);
    packet.SetByte(DUPLEX, DUPLEX_FULL);
  }

  method BuildAnnouncement(interfaceName: Option<CString>, deviceId: Option<CString>, platform: Option<CString>,
                           softwareVersion: Option<CString>, addresses: IpAddressArray?)
    returns (packet: CdpPacket?)
    ensures packet == null <==> addresses != null && Some(OtherFamily) in addresses.slots[..]
    ensures packet != null ==>
              fresh(packet)
              && packet.Value() == Announcement(interfaceName, deviceId, platform, softwareVersion, SlotsOf(addresses))
  {
    packet := StartAnnouncement(deviceId, softwareVersion, platform);
    FinishAnnouncement(packet, interfaceName);
    if addresses == null {
      return;
    }
    var copy := CopyAddresses(addresses);
    if copy.None? {
      return null;
    }
    packet.SetAddressList(ADDRESSES, copy.value);
  }

  method CreatePacket(interfaceName: Option<CString>, deviceId: Option<CString>, platform: Option<CString>,
                      softwareVersion: Option<CString>, addresses: IpAddressArray?,
                      buffer: array<Byte>, bufferLength: nat, ghost p: Packet)
    returns (consumed: int)
    requires bufferLength <= buffer.Length
    requires p == Announcement(interfaceName, deviceId, platform, softwareVersion, SlotsOf(addresses))
    modifies buffer
    ensures consumed == if Serializable(p) && FrameSize(p) <= bufferLength then FrameSize(p) else -1
    ensures consumed >= 0 ==> consumed <= bufferLength && buffer[..consumed] == Frame(p)
                              && buffer[..consumed] == Headed(HeaderOf(p), p) && Checksum.Validates(buffer[..consumed])
                              && buffer[consumed..] == old(buffer[consumed..])
  {
    var packet := BuildAnnouncement(interfaceName, deviceId, platform, softwareVersion, addresses);
    if packet == null {
      UnknownFamilyIsNotSerializable(addresses.slots[..]);
      return -1;
    }
    consumed := Serialize(packet, buffer, bufferLength);
  }

  lemma UnknownFamilyIsNotSerializable(slots: Slots)
    requires Some(OtherFamily) in slots
    ensures !AllKnown(slots)
  {
    var i :| 0 <= i < |slots| && slots[i] == Some(OtherFamily);
    assert !Known(slots[i]);
  }

  /** An announcement of at most 65535 bytes tells its receiver the four texts and the addresses
      it was made of, the host and IGMP capabilities, full duplex, and nothing else. */
  lemma AnnouncementArrives(interfaceName: Option<CString>, deviceId: Option<CString>, platform: Option<CString>,
                            softwareVersion: Option<CString>, addresses: Option<Slots>, p: Packet, header: Header)
    requires p == Announcement(interfaceName, deviceId, platform, softwareVersion, addresses)
    requires HasRequiredFields(p) && FrameSize(p) <= 0xFFFF && Heads(header, p)
    ensures var r := Parse(Headed(header, p), 0);
            && r.Parsed?
            && r.packet.version == 2 && r.packet.ttl == 180
            && r.packet.deviceId == deviceId && r.packet.portId == interfaceName
            && r.packet.platform == platform && r.packet.softwareVersion == softwareVersion
            && r.packet.addresses == addresses
            && r.packet.capabilities == Some(0x30) && r.packet.duplex == 1
            && r.packet.odrPrefixes == None && r.packet.cluster == None && r.packet.vtpManagementDomain == None
            && r.packet.nativeVlan == None && r.packet.trustBitmap == None && r.packet.untrustedPortCos == None
            && r.packet.managementAddresses == None && r.packet.power == None && r.packet.startupNativeVlan == None
  {
    ShortFramesRoundTrip(header, p);
  }
}
