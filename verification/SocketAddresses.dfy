/** Socket addresses and the fixed-size container of libcdp/ip_address_array.c. */
module SocketAddresses {
  import opened Bytes
  import opened Wrappers

  type Octets16 = s: seq<Byte> | |s| == 16 witness seq(16, _ => 0)

  /** The part of a struct sockaddr that the library reads: the family and the address.
      sAddr is the 32-bit integer a little-endian host sees in sin_addr.s_addr. */
  datatype SockAddr =
    | Inet(sAddr: U32)
    | Inet6(octets: Octets16)
    | OtherFamily

  class IpAddressArray {
    const slots: array<Option<SockAddr>>

    constructor (count: nat)
      ensures fresh(slots)
      ensures slots[..] == seq(count, _ => None)
    {
      slots := new Option<SockAddr>[count];
      new;
      for i := 0 to count
        invariant forall k | 0 <= k < i :: slots[k] == None
      {
        slots[i] := None;
      }
    }

    /** Takes ownership of the address; an index past the end is an error. */
    method SetInto(index: nat, address: Option<SockAddr>) returns (ok: bool)
      modifies slots
      ensures ok == (index < slots.Length)
      ensures slots[..] == if ok then old(slots[..])[index := address] else old(slots[..])
    {
      if index >= slots.Length {
        return false;
      }
      slots[index] := address;
      return true;
    }

    /** Copies the address; a null address clears the slot, an unknown family is an error. */
    method CopyInto(index: nat, address: Option<SockAddr>) returns (ok: bool)
      modifies slots
      ensures ok == (index < slots.Length && address != Some(OtherFamily))
      ensures slots[..] == if ok then old(slots[..])[index := address] else old(slots[..])
    {
      if index >= slots.Length {
        return false;
      }
      var copy: Option<SockAddr>;
      match address {
        case None => copy := None;
        case Some(Inet(a)) => copy := Some(Inet(a));
        case Some(Inet6(o)) => copy := Some(Inet6(o));
        case Some(OtherFamily) => return false;
      }
      slots[index] := copy;
      return true;
    }

    method Clear()
      modifies slots
      ensures slots[..] == seq(slots.Length, _ => None)
    {
      for index := 0 to slots.Length
        invariant forall k | 0 <= k < index :: slots[k] == None
      {
        if slots[index] != None {
          slots[index] := None;
        }
      }
    }
  }
}
