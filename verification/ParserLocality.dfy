/** Decoding depends on nothing but the bytes decoded: a well-formed TLV means the same
    wherever it stands, and the loop only looks forward. */
module ParserLocality {
  import opened Bytes
  import opened SocketAddresses
  import opened StreamReading
  import opened Packets
  import opened PacketParsing

  /** From j on, d holds at least the bytes that t holds from i on. */
  ghost predicate Sees(t: seq<Byte>, i: nat, d: seq<Byte>, j: nat) {
    && i <= |t| && j + (|t| - i) <= |d|
    && (forall k {:trigger t[k]} :: i <= k < |t| ==> t[k] == d[k + (j - i)])
  }

  /** A successful read at i is repeated at j. */
  ghost predicate Follows<T>(r: ReadResult<T>, i: nat, s: ReadResult<T>, j: nat) {
    r.Got? ==> s.Got? && s.value == r.value && i <= r.next && s.next == j + (r.next - i)
  }

  ghost predicate Local<T>(read: Reader<T>) {
    forall t, i: nat, d, j: nat {:trigger read(t, i), read(d, j)} ::
      Sees(t, i, d, j) ==> Follows(read(t, i), i, read(d, j), j)
  }

  lemma SeesLater(t: seq<Byte>, i: nat, d: seq<Byte>, j: nat, n: nat)
    requires Sees(t, i, d, j) && i + n <= |t|
    ensures Sees(t, i + n, d, j + n)
  {
  }

  lemma NumbersAreLocal(t: seq<Byte>, i: nat, d: seq<Byte>, j: nat)
    requires Sees(t, i, d, j)
    ensures Follows(Read8(t, i), i, Read8(d, j), j)
    ensures Follows(Read16(t, i), i, Read16(d, j), j)
    ensures Follows(Read24(t, i), i, Read24(d, j), j)
    ensures Follows(Read32(t, i), i, Read32(d, j), j)
  {
  }

  lemma BuffersAreLocal(t: seq<Byte>, i: nat, d: seq<Byte>, j: nat, count: nat)
    requires Sees(t, i, d, j)
    ensures Follows(ReadBuffer(t, i, count), i, ReadBuffer(d, j, count), j)
  {
    if i + count <= |t| {
      assert t[i..i + count] == d[j..j + count];
    }
  }

  lemma SnapIsLocal(t: seq<Byte>, i: nat, d: seq<Byte>, j: nat)
    requires Sees(t, i, d, j)
    ensures Follows(ReadSnap(t, i), i, ReadSnap(d, j), j)
  {
  }

  lemma VariableIsLocal(t: seq<Byte>, i: nat, d: seq<Byte>, j: nat, length: Byte)
    requires Sees(t, i, d, j)
    ensures Follows(ReadVariable(t, i, length), i, ReadVariable(d, j, length), j)
  {
    NumbersAreLocal(t, i, d, j);
  }

  lemma ProtocolTypeIsLocal(t: seq<Byte>, i: nat, d: seq<Byte>, j: nat)
    requires Sees(t, i, d, j)
    ensures Follows(ReadProtocolType(t, i), i, ReadProtocolType(d, j), j)
  {
    if i + 2 <= |t| {
      SeesLater(t, i, d, j, 2);
      assert t[i] == d[j] && t[i + 1] == d[j + 1];
      if t[i] == 0x01 {
        VariableIsLocal(t, i + 2, d, j + 2, t[i + 1]);
      } else if t[i] == 0x02 {
        SnapIsLocal(t, i + 2, d, j + 2);
      }
    }
  }

  lemma InetIsLocal(t: seq<Byte>, i: nat, d: seq<Byte>, j: nat)
    requires Sees(t, i, d, j)
    ensures Follows(ReadInet(t, i), i, ReadInet(d, j), j)
    ensures Follows(ReadInet6(t, i), i, ReadInet6(d, j), j)
  {
    BuffersAreLocal(t, i, d, j, 16);
  }

  /** ReadAddress behind the protocol type. */
  function ReadOctets(d: seq<Byte>, pos: nat, family: Family): ReadResult<SockAddr> {
    var (addressLength, q) :- Read16(d, pos);
    if q + addressLength > |d| then Failed
    else if family.FamilyInet? then ReadInet(d, q)
    else ReadInet6(d, q)
  }

  lemma OctetsAreLocal(t: seq<Byte>, i: nat, d: seq<Byte>, j: nat, family: Family)
    requires Sees(t, i, d, j)
    ensures Follows(ReadOctets(t, i, family), i, ReadOctets(d, j, family), j)
  {
    NumbersAreLocal(t, i, d, j);
    if i + 2 <= |t| {
      SeesLater(t, i, d, j, 2);
      InetIsLocal(t, i + 2, d, j + 2);
    }
  }

  lemma AddressAfter(d: seq<Byte>, pos: nat, family: ReadResult<Family>)
    requires family == ReadProtocolType(d, pos)
    ensures ReadAddress(d, pos) == match family
                                   case Failed => Failed
                                   case Got(f, q) => ReadOctets(d, q, f)
  {
  }

  lemma AddressIsLocal(t: seq<Byte>, i: nat, d: seq<Byte>, j: nat)
    requires Sees(t, i, d, j)
    ensures Follows(ReadAddress(t, i), i, ReadAddress(d, j), j)
  {
    ProtocolTypeIsLocal(t, i, d, j);
    var family := ReadProtocolType(t, i);
    AddressAfter(t, i, family);
    if family.Got? {
      var n := family.next - i;
      AddressAfter(d, j, Got(family.value, j + n));
      SeesLater(t, i, d, j, n);
      OctetsAreLocal(t, i + n, d, j + n, family.value);
    }
  }

  lemma SlotsAreLocal()
    ensures Local(ReadSlot)
  {
    forall t, i: nat, d, j: nat | Sees(t, i, d, j)
      ensures Follows(ReadSlot(t, i), i, ReadSlot(d, j), j)
    {
      AddressIsLocal(t, i, d, j);
    }
  }

  lemma PrefixesAreLocal()
    ensures Local(ReadPrefix)
  {
    forall t, i: nat, d, j: nat | Sees(t, i, d, j)
      ensures Follows(ReadPrefix(t, i), i, ReadPrefix(d, j), j)
    {
      InetIsLocal(t, i, d, j);
      if i + 4 <= |t| {
        SeesLater(t, i, d, j, 4);
        NumbersAreLocal(t, i + 4, d, j + 4);
      }
    }
  }

  lemma {:induction false} ReadManyIsLocal<T>(read: Reader<T>, t: seq<Byte>, i: nat, d: seq<Byte>, j: nat, count: nat)
    requires Local(read) && Sees(t, i, d, j) && Consumes(read, (x: T) => 0, t)
    ensures Follows(ReadMany(read, t, i, count), i, ReadMany(read, d, j, count), j)
  {
    if count == 0 {
    } else {
      ReadManyIsLocal(read, t, i, d, j, count - 1);
      var before := ReadMany(read, t, i, count - 1);
      if before.Got? {
        var n := before.next - i;
        if read(t, before.next).Got? {
          SeesLater(t, i, d, j, n);
          assert Follows(read(t, i + n), i + n, read(d, j + n), j + n);
        }
      }
    }
  }

  lemma TextIsLocal(t: seq<Byte>, i: nat, d: seq<Byte>, j: nat, tag: U16, length: U16)
    requires Sees(t, i, d, j) && IsText(tag)
    ensures Follows(ReadTextValue(t, i, tag, length), i, ReadTextValue(d, j, tag, length), j)
  {
    if length >= 4 {
      BuffersAreLocal(t, i, d, j, length - 4);
    }
  }

  lemma AddressListIsLocal(t: seq<Byte>, i: nat, d: seq<Byte>, j: nat, tag: U16)
    requires Sees(t, i, d, j) && IsAddressList(tag)
    ensures Follows(ReadAddressListValue(t, i, tag), i, ReadAddressListValue(d, j, tag), j)
  {
    NumbersAreLocal(t, i, d, j);
    if i + 4 <= |t| {
      SeesLater(t, i, d, j, 4);
      SlotsAreLocal();
      ReadManyIsLocal(ReadSlot, t, i + 4, d, j + 4, Read32(t, i).value);
    }
  }

  lemma NumberIsLocal(t: seq<Byte>, i: nat, d: seq<Byte>, j: nat, tag: U16)
    requires Sees(t, i, d, j) && (tag == CAPABILITIES || tag == NATIVE_VLAN || IsByte(tag))
    ensures Follows(ReadNumberValue(t, i, tag), i, ReadNumberValue(d, j, tag), j)
  {
    NumbersAreLocal(t, i, d, j);
  }

  lemma BlockIsLocal(t: seq<Byte>, i: nat, d: seq<Byte>, j: nat, tag: U16, length: U16)
    requires Sees(t, i, d, j) && tag in {ODR_PREFIXES, CLUSTER_MANAGEMENT, POWER_AVAILABLE}
    ensures Follows(ReadBlockValue(t, i, tag, length), i, ReadBlockValue(d, j, tag, length), j)
  {
    if tag == ODR_PREFIXES {
      PrefixesAreLocal();
      ReadManyIsLocal(ReadPrefix, t, i, d, j, PrefixCount(length));
    } else if tag == CLUSTER_MANAGEMENT {
      NumbersAreLocal(t, i, d, j);
      if i + 3 <= |t| {
        SeesLater(t, i, d, j, 3);
        BuffersAreLocal(t, i + 3, d, j + 3, 30);
      }
    } else {
      BuffersAreLocal(t, i, d, j, 12);
    }
  }

  lemma PayloadIsLocal(t: seq<Byte>, i: nat, d: seq<Byte>, j: nat, tag: U16, length: U16)
    requires Sees(t, i, d, j)
    ensures Follows(ReadPayload(t, i, tag, length), i, ReadPayload(d, j, tag, length), j)
  {
    if IsText(tag) {
      TextIsLocal(t, i, d, j, tag, length);
    } else if IsAddressList(tag) {
      AddressListIsLocal(t, i, d, j, tag);
    } else if tag == CAPABILITIES || tag == NATIVE_VLAN || IsByte(tag) {
      NumberIsLocal(t, i, d, j, tag);
    } else if tag in {ODR_PREFIXES, CLUSTER_MANAGEMENT, POWER_AVAILABLE} {
      BlockIsLocal(t, i, d, j, tag, length);
    }
  }
}
