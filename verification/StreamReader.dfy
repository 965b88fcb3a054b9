/** libcdp/stream_reader.c: bounds-checked big-endian reads. Each read is specified by a
    function on (buffer, position); the class is the reader object itself. */
module StreamReading {
  import opened Bytes
  import opened Wrappers
  import opened SocketAddresses
  import Checksum

  // ---------- Reads as functions ----------

  /** The value read and the position behind it, or a failed read. */
  datatype ReadResult<+T> = Got(value: T, next: nat) | Failed {
    predicate IsFailure() {
      Failed?
    }

    function PropagateFailure<U>(): ReadResult<U> {
      Failed
    }

    function Extract(): (T, nat)
      requires Got?
    {
      (value, next)
    }
  }

  datatype Family = FamilyInet | FamilyInet6

  function Read8(d: seq<Byte>, pos: nat): (r: ReadResult<Byte>)
    ensures r.Got? ==> r.next == pos + 1 <= |d|
  {
    if pos + 1 <= |d| then Got(d[pos], pos + 1) else Failed
  }

  function Read16(d: seq<Byte>, pos: nat): (r: ReadResult<U16>)
    ensures r.Got? ==> r.next == pos + 2 <= |d|
  {
    if pos + 2 <= |d| then Got(Word16(d[pos], d[pos + 1]), pos + 2) else Failed
  }

  function Read24(d: seq<Byte>, pos: nat): (r: ReadResult<U24>)
    ensures r.Got? ==> r.next == pos + 3 <= |d|
  {
    if pos + 3 <= |d| then Got(Word24(d[pos], d[pos + 1], d[pos + 2]), pos + 3) else Failed
  }

  function Read32(d: seq<Byte>, pos: nat): (r: ReadResult<U32>)
    ensures r.Got? ==> r.next == pos + 4 <= |d|
  {
    if pos + 4 <= |d| then Got(Word32(d[pos], d[pos + 1], d[pos + 2], d[pos + 3]), pos + 4) else Failed
  }

  /** An integer of 1 to 4 bytes; any other length is an error. */
  function ReadVariable(d: seq<Byte>, pos: nat, length: Byte): (r: ReadResult<U32>)
    ensures r.Got? ==> pos < r.next <= |d|
  {
    match length
    case 1 => (var (v, q) :- Read8(d, pos); Got(v, q))
    case 2 => (var (v, q) :- Read16(d, pos); Got(v, q))
    case 3 => (var (v, q) :- Read24(d, pos); Got(v, q))
    case 4 => Read32(d, pos)
    case _ => Failed
  }

  function ReadBuffer(d: seq<Byte>, pos: nat, count: nat): (r: ReadResult<seq<Byte>>)
    ensures r.Got? ==> r.next == pos + count <= |d| && |r.value| == count
  {
    if pos + count <= |d| then Got(d[pos..pos + count], pos + count) else Failed
  }

  /** The bytes before the first NUL, or all of them. */
  function UntilNul(s: seq<Byte>): (r: CString)
    ensures r <= s && (|r| < |s| ==> s[|r|] == 0)
  {
    if s == [] || s[0] == 0 then [] else [s[0]] + UntilNul(s[1..])
  }

  /** UntilNul is the longest NUL-free prefix. */
  lemma {:induction false} UntilNulStops(s: seq<Byte>, n: nat)
    requires n <= |s| && (forall k | 0 <= k < n :: s[k] != 0) && (n < |s| ==> s[n] == 0)
    ensures UntilNul(s) == s[..n]
  {
    if n == 0 {
    } else {
      UntilNulStops(s[1..], n - 1);
    }
  }

  lemma SliceOfSlice(d: seq<Byte>, pos: nat, length: nat, n: nat)
    requires pos + length <= |d| && n <= length
    ensures d[pos..pos + length][..n] == d[pos..pos + n]
  {
  }

  lemma ScanStops(d: seq<Byte>, pos: nat, length: nat, n: nat)
    requires pos + length <= |d| && n <= length
    requires (forall k | pos <= k < pos + n :: d[k] != 0) && (n < length ==> d[pos + n] == 0)
    ensures UntilNul(d[pos..pos + length]) == d[pos..pos + n]
  {
    SliceOfSlice(d, pos, length, n);
    UntilNulStops(d[pos..pos + length], n);
  }

  /** Consumes maximumLength bytes even when a NUL ends the string sooner. */
  function ReadString(d: seq<Byte>, pos: nat, maximumLength: nat): (r: ReadResult<CString>)
    ensures r.Got? ==> r.next == pos + maximumLength <= |d| && |r.value| <= maximumLength
  {
    var (s, q) :- ReadBuffer(d, pos, maximumLength);
    Got(UntilNul(s), q)
  }

  /** An 802.2 SNAP header naming IPv4 or IPv6. The control byte is not checked. */
  function ReadSnap(d: seq<Byte>, pos: nat): (r: ReadResult<Family>)
    ensures r.Got? ==> r.next == pos + 8 <= |d|
  {
    if pos + 8 > |d| || d[pos] != 0xAA || d[pos + 1] != 0xAA then Failed
    else if Word24(d[pos + 3], d[pos + 4], d[pos + 5]) != 0 then Failed
    else if Word16(d[pos + 6], d[pos + 7]) == 0x0800 then Got(FamilyInet, pos + 8)
    else if Word16(d[pos + 6], d[pos + 7]) == 0x86DD then Got(FamilyInet6, pos + 8)
    else Failed
  }

  /** An NLPID of 0xCC, in 1 to 4 bytes, or a SNAP header. */
  function ReadProtocolType(d: seq<Byte>, pos: nat): (r: ReadResult<Family>)
    ensures r.Got? ==> (if r.value.FamilyInet? then pos + 3 else pos + 10) <= r.next <= |d|
  {
    if pos + 2 > |d| then Failed
    else if d[pos] == 0x01 then
      var (protocolId, p3) :- ReadVariable(d, pos + 2, d[pos + 1]);
      if protocolId == 0xCC then Got(FamilyInet, p3) else Failed
    else if d[pos] == 0x02 then ReadSnap(d, pos + 2)
    else Failed
  }

  /** Four octets; the first one is the low byte of a little-endian host's s_addr. */
  function ReadInet(d: seq<Byte>, pos: nat): (r: ReadResult<SockAddr>)
    ensures r.Got? ==> r.next == pos + 4 <= |d| && r.value.Inet?
  {
    if pos + 4 <= |d| then Got(Inet(Word32(d[pos + 3], d[pos + 2], d[pos + 1], d[pos])), pos + 4) else Failed
  }

  function ReadInet6(d: seq<Byte>, pos: nat): (r: ReadResult<SockAddr>)
    ensures r.Got? ==> r.next == pos + 16 <= |d| && r.value.Inet6?
  {
    var (octets, q) :- ReadBuffer(d, pos, 16);
    Got(Inet6(octets), q)
  }

  /** The length our serialiser gives an address on the wire. */
  function AddressSize(a: SockAddr): nat {
    match a
    case Inet(_) => 9
    case Inet6(_) => 28
    case OtherFamily => 0
  }

  /** The declared address length must be present but does not steer the read. No address
      is read from fewer bytes than the serialiser would use for it. */
  function ReadAddress(d: seq<Byte>, pos: nat): (r: ReadResult<SockAddr>)
    ensures r.Got? ==> pos + AddressSize(r.value) <= r.next <= |d| && !r.value.OtherFamily?
  {
    var (family, p1) :- ReadProtocolType(d, pos);
    var (addressLength, p2) :- Read16(d, p1);
    if p2 + addressLength > |d| then Failed
    else if family.FamilyInet? then ReadInet(d, p2)
    else ReadInet6(d, p2)
  }

  // ---------- The reader object ----------

  class StreamReader {
    const data: seq<Byte>
    var position: nat

    ghost predicate Valid()
      reads this
    {
      position <= |data| < 0x8000_0000_0000_0000
    }

    /** A call that took the reader to where the specified read ends, or failed with it. */
    ghost predicate Did<T>(spec: ReadResult<T>, r: Option<T>)
      reads this
    {
      && Valid()
      && (match spec
          case Got(v, q) => r == Some(v) && position == q
          case Failed => r == None)
    }

    constructor (data: seq<Byte>)
      requires |data| < 0x8000_0000_0000_0000
      ensures Valid() && this.data == data && position == 0
    {
      this.data := data;
      position := 0;
    }

    function Remaining(): nat
      requires Valid()
      reads this
    {
      |data| - position
    }

    predicate Need(bytesNeeded: nat)
      requires Valid()
      reads this
    {
      Remaining() >= bytesNeeded
    }

    /** Fails, leaving the position alone, when the new position lies past the end. */
    method SetPosition(newPosition: nat) returns (ok: bool)
      requires Valid()
      modifies this
      ensures Valid() && ok == (newPosition <= |data|)
      ensures position == if ok then newPosition else old(position)
    {
      if newPosition > |data| {
        return false;
      }
      position := newPosition;
      return true;
    }

    method Get8() returns (r: Option<Byte>)
      requires Valid()
      modifies this
      ensures Did(Read8(data, old(position)), r)
    {
      if !Need(1) {
        return None;
      }
      r := Some(data[position]);
      position := position + 1;
    }

    method Get16() returns (r: Option<U16>)
      requires Valid()
      modifies this
      ensures Did(Read16(data, old(position)), r)
    {
      if !Need(2) {
        return None;
      }
      r := Some(0x100 * data[position] as int + data[position + 1] as int);
      position := position + 2;
    }

    method Get24() returns (r: Option<U24>)
      requires Valid()
      modifies this
      ensures Did(Read24(data, old(position)), r)
    {
      if !Need(3) {
        return None;
      }
      r := Some(0x1_0000 * data[position] as int + 0x100 * data[position + 1] as int + data[position + 2] as int);
      position := position + 3;
    }

    method Get32() returns (r: Option<U32>)
      requires Valid()
      modifies this
      ensures Did(Read32(data, old(position)), r)
    {
      if !Need(4) {
        return None;
      }
      r := Some(0x100_0000 * data[position] as int + 0x1_0000 * data[position + 1] as int
                + 0x100 * data[position + 2] as int + data[position + 3] as int);
      position := position + 4;
    }

    method GetVariableLengthInteger(length: Byte) returns (r: Option<U32>)
      requires Valid()
      modifies this
      ensures Did(ReadVariable(data, old(position), length), r)
    {
      if length < 1 || length > 4 {
        return None;
      }
      match length {
        case 1 => {
          var temp8 :- Get8();
          return Some(temp8);
        }
        case 2 => {
          var temp16 :- Get16();
          return Some(temp16);
        }
        case 3 => {
          var temp24 :- Get24();
          return Some(temp24);
        }
        case _ => r := Get32();
      }
    }

    /** How many of the next maximumLength bytes stand before the first NUL. */
    method ScanString(maximumLength: nat) returns (stringLength: nat)
      requires Valid() && position + maximumLength <= |data|
      ensures stringLength <= maximumLength
      ensures forall k | position <= k < position + stringLength :: data[k] != 0
      ensures stringLength < maximumLength ==> data[position + stringLength] == 0
    {
      stringLength := 0;
      while stringLength < maximumLength && data[position + stringLength] != 0
        invariant stringLength <= maximumLength
        invariant forall k | position <= k < position + stringLength :: data[k] != 0
      {
        stringLength := stringLength + 1;
      }
    }

    method GetString(maximumLength: nat) returns (r: Option<CString>)
      requires Valid()
      modifies this
      ensures Did(ReadString(data, old(position), maximumLength), r)
    {
      if !Need(maximumLength) {
        return None;
      }
      var stringLength := ScanString(maximumLength);
      ScanStops(data, position, maximumLength, stringLength);
      r := Some(data[position..position + stringLength]);
      var _ := SetPosition(position + maximumLength);
    }

    method GetBuffer(count: nat) returns (r: Option<seq<Byte>>)
      requires Valid()
      modifies this
      ensures Did(ReadBuffer(data, old(position), count), r)
    {
      if !Need(count) {
        return None;
      }
      r := Some(data[position..position + count]);
      var _ := SetPosition(position + count);
    }

    method GetProtocolFromSnap() returns (r: Option<Family>)
      requires Valid()
      modifies this
      ensures Did(ReadSnap(data, old(position)), r)
    {
      if !Need(5) {
        return None;
      }
      var dsap :- Get8();
      if dsap != 0xAA {
        return None;
      }
      var ssap :- Get8();
      if ssap != 0xAA {
        return None;
      }
      var control :- Get8();
      var oui :- Get24();
      if oui != 0 {
        return None;
      }
      var pid :- Get16();
      match pid {
        case 0x0800 => return Some(FamilyInet);
        case 0x86DD => return Some(FamilyInet6);
        case _ => return None;
      }
    }

    method GetProtocolType() returns (r: Option<Family>)
      requires Valid()
      modifies this
      ensures Did(ReadProtocolType(data, old(position)), r)
    {
      if !Need(2) {
        return None;
      }
      var protocolType :- Get8();
      var protocolLength :- Get8();
      match protocolType {
        case 0x01 => {
          var protocolId :- GetVariableLengthInteger(protocolLength);
          if protocolId == 0xCC {
            return Some(FamilyInet);
          }
          return None;
        }
        case 0x02 => r := GetProtocolFromSnap();
        case _ => return None;
      }
    }

    method GetInetAddress() returns (r: Option<SockAddr>)
      requires Valid()
      modifies this
      ensures Did(ReadInet(data, old(position)), r)
    {
      ghost var b := data[old(position)..];
      var address :- Get32();
      Swap32OfWord32(b[0], b[1], b[2], b[3]);
      return Some(Inet(Swap32(address)));
    }

    method GetInet6Address() returns (r: Option<SockAddr>)
      requires Valid()
      modifies this
      ensures Did(ReadInet6(data, old(position)), r)
    {
      if !Need(16) {
        return None;
      }
      var octets: seq<Byte> := [];
      for i := 0 to 16
        invariant Valid() && position == old(position) + i
        invariant octets == data[old(position)..position]
      {
        var octet :- Get8();
        octets := octets + [octet];
      }
      return Some(Inet6(octets));
    }

    method GetAddress() returns (r: Option<SockAddr>)
      requires Valid()
      modifies this
      ensures Did(ReadAddress(data, old(position)), r)
    {
      var addressFamily :- GetProtocolType();
      var addressLength :- Get16();
      if !Need(addressLength) {
        return None;
      }
      match addressFamily {
        case FamilyInet => r := GetInetAddress();
        case FamilyInet6 => r := GetInet6Address();
      }
    }

    method ValidateChecksum() returns (ok: bool)
      requires Valid()
      ensures ok == Checksum.Validates(data)
    {
      var checksum := Checksum.IpComputeCsum(data);
      return checksum == 0;
    }
  }
}
