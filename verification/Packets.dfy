/** The decoded CDP frame of libcdp/cdp_packet.h: as a value, and as the object the parser
    and the callers of the serialiser fill in. */
module Packets {
  import opened Bytes
  import opened Wrappers
  import opened SocketAddresses

  // ---------- TLV types (libcdp/ecdptlv.h) ----------

  const DEVICE_ID: U16 := 1
  const ADDRESSES: U16 := 2
  const PORT_ID: U16 := 3
  const CAPABILITIES: U16 := 4
  const SOFTWARE_VERSION: U16 := 5
  const PLATFORM: U16 := 6
  const ODR_PREFIXES: U16 := 7
  const CLUSTER_MANAGEMENT: U16 := 8
  const VTP_MANAGEMENT_DOMAIN: U16 := 9
  const NATIVE_VLAN: U16 := 10
  const DUPLEX: U16 := 11
  const TRUST_BITMAP: U16 := 18
  const UNTRUSTED_PORT_COS: U16 := 19
  const MANAGEMENT_ADDRESSES: U16 := 22
  const POWER_AVAILABLE: U16 := 26
  const STARTUP_NATIVE_VLAN: U16 := 0x1007

  const DUPLEX_UNSET: Byte := 0
  const DUPLEX_FULL: Byte := 1

  const CAPABILITY_HOST: U32 := 0x10
  const CAPABILITY_IGMP: U32 := 0x20

  // ---------- The packet as a value ----------

  datatype Prefix = Prefix(network: SockAddr, length: Byte)

  type Slots = seq<Option<SockAddr>>

  /** An absent field is a null pointer of the C structure. The cluster management and power
      fields keep their raw bytes. */
  datatype Packet = Packet(
    version: Byte,
    ttl: Byte,
    checksum: U16,
    deviceId: Option<CString>,
    addresses: Option<Slots>,
    portId: Option<CString>,
    capabilities: Option<U32>,
    softwareVersion: Option<CString>,
    platform: Option<CString>,
    odrPrefixes: Option<seq<Prefix>>,
    cluster: Option<seq<Byte>>,
    vtpManagementDomain: Option<CString>,
    nativeVlan: Option<U16>,
    duplex: Byte,
    trustBitmap: Option<Byte>,
    untrustedPortCos: Option<Byte>,
    managementAddresses: Option<Slots>,
    power: Option<seq<Byte>>,
    startupNativeVlan: Option<CString>)

  function NewPacket(version: Byte, ttl: Byte, checksum: U16): Packet {
    Packet(version, ttl, checksum, None, None, None, None, None, None, None, None, None, None,
           DUPLEX_UNSET, None, None, None, None, None)
  }

  // ---------- One TLV's effect on the packet ----------

  datatype TlvValue =
    | DeviceId(s: CString)
    | Addresses(slots: Slots)
    | PortId(s: CString)
    | Capabilities(n: U32)
    | SoftwareVersion(s: CString)
    | Platform(s: CString)
    | OdrPrefixes(prefixes: seq<Prefix>)
    | ClusterManagement(raw: seq<Byte>)
    | VtpManagementDomain(s: CString)
    | NativeVlan(vlan: U16)
    | Duplex(b: Byte)
    | TrustBitmap(b: Byte)
    | UntrustedPortCos(b: Byte)
    | ManagementAddresses(slots: Slots)
    | PowerAvailable(raw: seq<Byte>)
    | StartupNativeVlan(s: CString)
    | Ignored

  function Apply(p: Packet, v: TlvValue): Packet {
    match v
    case DeviceId(s) => p.(deviceId := Some(s))
    case Addresses(a) => p.(addresses := Some(a))
    case PortId(s) => p.(portId := Some(s))
    case Capabilities(n) => p.(capabilities := Some(n))
    case SoftwareVersion(s) => p.(softwareVersion := Some(s))
    case Platform(s) => p.(platform := Some(s))
    case OdrPrefixes(ps) => p.(odrPrefixes := Some(ps))
    case ClusterManagement(raw) => p.(cluster := Some(raw))
    case VtpManagementDomain(s) => p.(vtpManagementDomain := Some(s))
    case NativeVlan(vlan) => p.(nativeVlan := Some(vlan))
    case Duplex(b) => p.(duplex := b)
    case TrustBitmap(b) => p.(trustBitmap := Some(b))
    case UntrustedPortCos(b) => p.(untrustedPortCos := Some(b))
    case ManagementAddresses(a) => p.(managementAddresses := Some(a))
    case PowerAvailable(raw) => p.(power := Some(raw))
    case StartupNativeVlan(s) => p.(startupNativeVlan := Some(s))
    case Ignored => p
  }

  predicate IsText(tag: U16) {
    tag in {DEVICE_ID, PORT_ID, SOFTWARE_VERSION, PLATFORM, VTP_MANAGEMENT_DOMAIN, STARTUP_NATIVE_VLAN}
  }

  /** The value of a string TLV. */
  function TextValue(tag: U16, s: CString): TlvValue
    requires IsText(tag)
  {
    if tag == DEVICE_ID then DeviceId(s)
    else if tag == PORT_ID then PortId(s)
    else if tag == SOFTWARE_VERSION then SoftwareVersion(s)
    else if tag == PLATFORM then Platform(s)
    else if tag == VTP_MANAGEMENT_DOMAIN then VtpManagementDomain(s)
    else StartupNativeVlan(s)
  }

  /** The packet with one string field replaced, or cleared. */
  function WithText(p: Packet, tag: U16, s: Option<CString>): Packet
    requires IsText(tag)
  {
    if tag == DEVICE_ID then p.(deviceId := s)
    else if tag == PORT_ID then p.(portId := s)
    else if tag == SOFTWARE_VERSION then p.(softwareVersion := s)
    else if tag == PLATFORM then p.(platform := s)
    else if tag == VTP_MANAGEMENT_DOMAIN then p.(vtpManagementDomain := s)
    else p.(startupNativeVlan := s)
  }

  lemma WithTextIsApply(p: Packet, tag: U16, s: CString)
    requires IsText(tag)
    ensures WithText(p, tag, Some(s)) == Apply(p, TextValue(tag, s))
  {
  }

  predicate IsByte(tag: U16) {
    tag in {DUPLEX, TRUST_BITMAP, UNTRUSTED_PORT_COS}
  }

  /** The value of a one-byte TLV. */
  function ByteValue(tag: U16, b: Byte): TlvValue
    requires IsByte(tag)
  {
    if tag == DUPLEX then Duplex(b) else if tag == TRUST_BITMAP then TrustBitmap(b) else UntrustedPortCos(b)
  }

  predicate IsAddressList(tag: U16) {
    tag in {ADDRESSES, MANAGEMENT_ADDRESSES}
  }

  function AddressListValue(tag: U16, slots: Slots): TlvValue
    requires IsAddressList(tag)
  {
    if tag == ADDRESSES then Addresses(slots) else ManagementAddresses(slots)
  }

  // ---------- The packet as an object ----------

  class CdpPacket {
    var version: Byte
    var ttl: Byte
    var checksum: U16
    var deviceId: Option<CString>
    var addresses: IpAddressArray?
    var portId: Option<CString>
    var capabilities: Option<U32>
    var softwareVersion: Option<CString>
    var platform: Option<CString>
    var odrPrefixes: Option<seq<Prefix>>
    var cluster: Option<seq<Byte>>
    var vtpManagementDomain: Option<CString>
    var nativeVlan: Option<U16>
    var duplex: Byte
    var trustBitmap: Option<Byte>
    var untrustedPortCos: Option<Byte>
    var managementAddresses: IpAddressArray?
    var power: Option<seq<Byte>>
    var startupNativeVlan: Option<CString>

    ghost function Repr(): set<object>
      reads this
    {
      {this}
      + (if addresses != null then {addresses.slots} else {})
      + (if managementAddresses != null then {managementAddresses.slots} else {})
    }

    ghost function Value(): Packet
      reads Repr()
    {
      Packet(version, ttl, checksum, deviceId, SlotsOf(addresses), portId, capabilities, softwareVersion,
             platform, odrPrefixes, cluster, vtpManagementDomain, nativeVlan, duplex, trustBitmap,
             untrustedPortCos, SlotsOf(managementAddresses), power, startupNativeVlan)
    }

    constructor (version: Byte, ttl: Byte, checksum: U16)
      ensures Value() == NewPacket(version, ttl, checksum)
      ensures Repr() == {this}
    {
      this.version, this.ttl, this.checksum := version, ttl, checksum;
      deviceId, portId, softwareVersion, platform := None, None, None, None;
      addresses, managementAddresses := null, null;
      capabilities, odrPrefixes, cluster, power := None, None, None, None;
      vtpManagementDomain, startupNativeVlan, nativeVlan := None, None, None;
      duplex, trustBitmap, untrustedPortCos := DUPLEX_UNSET, None, None;
    }

    /** The setters of the six string fields; a null string clears the field. */
    method SetText(tag: U16, s: Option<CString>)
      requires IsText(tag)
      modifies this
      ensures Value() == WithText(old(Value()), tag, s) && Repr() == old(Repr())
    {
      if tag == DEVICE_ID {
        deviceId := s;
      } else if tag == PORT_ID {
        portId := s;
      } else if tag == SOFTWARE_VERSION {
        softwareVersion := s;
      } else if tag == PLATFORM {
        platform := s;
      } else if tag == VTP_MANAGEMENT_DOMAIN {
        vtpManagementDomain := s;
      } else {
        startupNativeVlan := s;
      }
    }

    method SetCapabilities(n: U32)
      modifies this
      ensures Value() == Apply(old(Value()), Capabilities(n)) && Repr() == old(Repr())
    {
      capabilities := Some(n);
    }

    /** The setters of the three one-byte fields. */
    method SetByte(tag: U16, b: Byte)
      requires IsByte(tag)
      modifies this
      ensures Value() == Apply(old(Value()), ByteValue(tag, b)) && Repr() == old(Repr())
    {
      if tag == DUPLEX {
        duplex := b;
      } else if tag == TRUST_BITMAP {
        trustBitmap := Some(b);
      } else {
        untrustedPortCos := Some(b);
      }
    }

    /** Replaces an address list by a provisioned and filled array. */
    method SetAddressList(tag: U16, list: IpAddressArray)
      requires IsAddressList(tag)
      modifies this
      ensures Value() == Apply(old(Value()), AddressListValue(tag, list.slots[..]))
      ensures Repr() <= old(Repr()) + {list.slots}
    {
      if tag == ADDRESSES {
        addresses := list;
      } else {
        managementAddresses := list;
      }
    }

    method SetOdrPrefixes(prefixes: seq<Prefix>)
      modifies this
      ensures Value() == Apply(old(Value()), OdrPrefixes(prefixes)) && Repr() == old(Repr())
    {
      odrPrefixes := Some(prefixes);
    }

    method SetCluster(raw: seq<Byte>)
      modifies this
      ensures Value() == Apply(old(Value()), ClusterManagement(raw)) && Repr() == old(Repr())
    {
      cluster := Some(raw);
    }

    method SetPower(raw: seq<Byte>)
      modifies this
      ensures Value() == Apply(old(Value()), PowerAvailable(raw)) && Repr() == old(Repr())
    {
      power := Some(raw);
    }

    /** VLAN numbers above 4095 are refused. */
    method SetNativeVlan(vlan: U16) returns (ok: bool)
      modifies this
      ensures ok == (vlan <= 4095)
      ensures Value() == (if ok then Apply(old(Value()), NativeVlan(vlan)) else old(Value())) && Repr() == old(Repr())
    {
      if vlan > 4095 {
        return false;
      }
      nativeVlan := Some(vlan);
      return true;
    }
  }

  ghost function SlotsOf(a: IpAddressArray?): Option<Slots>
    reads if a != null then {a.slots} else {}
  {
    if a == null then None else Some(a.slots[..])
  }
}
