/** Address lists longer than their 16-bit length field can tell: where the parser goes on, and
    hence exactly which packets make the round trip. */
module LongLists {
  import opened Bytes
  import opened Wrappers
  import opened SocketAddresses
  import opened StreamReading
  import opened Packets
  import opened PacketParsing
  import opened PacketSerializing
  import opened ParserProgress
  import opened TlvOrder
  import opened ParsedFields
  import opened RoundTrip

  /** What the length field of the address TLV says. */
  function ToldLength(slots: Slots): U16
    requires AllKnown(slots)
  {
    AddressTlvSize(slots) % 0x1_0000
  }

  /** What is written behind the address TLV. */
  function Behind(p: Packet): seq<Byte> {
    if p.version == 2 then Uint8Tlv(DUPLEX, p.duplex) else []
  }

  /** The address TLV and what is written behind it. */
  function FromAddresses(p: Packet): seq<Byte>
    requires HasRequiredFields(p)
  {
    AddressesTlv(ADDRESSES, p.addresses.value) + Behind(p)
  }

  lemma FlattenSixTlvs(ts: seq<seq<Byte>>)
    requires |ts| >= 6
    ensures Flatten(ts[..6]) == Flatten(ts[..5]) + ts[5]
  {
    assert ts[..5] + [ts[5]] == ts[..6];
    FlattenAppend(ts[..5], ts[5]);
  }

  lemma FrameFromAddresses(p: Packet)
    requires HasRequiredFields(p)
    ensures Flatten(Tlvs(p)) == Flatten(Tlvs(p)[..5]) + FromAddresses(p)
  {
    FlattenTlvs(p);
    FlattenSixTlvs(Tlvs(p));
    ConcatAssociates(Flatten(Tlvs(p)[..5]), Tlvs(p)[5], Behind(p));
  }

  lemma Truncated(x: nat)
    ensures x % 0x1_0000 <= x
    ensures x == 0x1_0009 ==> x % 0x1_0000 == 9
  {
  }

  lemma ToldLengthFits(p: Packet)
    requires HasRequiredFields(p)
    ensures ToldLength(p.addresses.value) <= |FromAddresses(p)|
  {
    AddressesTlvLength(p.addresses.value);
    Truncated(AddressTlvSize(p.addresses.value));
  }

  /** The bytes at which the parser goes on behind the address TLV. */
  function Rest(p: Packet): seq<Byte>
    requires HasRequiredFields(p)
  {
    ToldLengthFits(p);
    FromAddresses(p)[ToldLength(p.addresses.value)..]
  }

  /** The packet as received so far when the parser goes on. */
  function SoFar(header: Header, p: Packet): Packet
  {
    Received(header, p).(duplex := DUPLEX_UNSET)
  }

  lemma ListTlvLeadsTo(d: seq<Byte>, length: U16, slots: Slots)
    requires Read16(d, 0) == Got(ADDRESSES, 2) && Read16(d, 2) == Got(length, 4)
    requires ReadAddressList(d, 4).Got? && ReadAddressList(d, 4).value == slots && length <= |d|
    ensures ReadTlv(d, 0) == Got(Addresses(slots), length)
  {
    assert ReadAddressListValue(d, 4, ADDRESSES) == Got(Addresses(slots), ReadAddressList(d, 4).next);
  }

  lemma ListGoesOn(slots: Slots, n: U16, behind: seq<Byte>, d: seq<Byte>, q: Packet)
    requires AllKnown(slots) && |slots| < 0x1_0000_0000 && n <= |d|
    requires d == Be16(ADDRESSES) + Be16(n) + Be32(|slots|) + AddressesBytes(slots) + behind
    ensures ParseLoop(d, 0, q) == if n == 0 then Diverges else ParseLoop(d[n..], 0, Apply(q, Addresses(slots)))
  {
    AddressesTlvShape(n, |slots|, AddressesBytes(slots), behind, d);
    AddressListDecodes(slots, d);
    ListTlvLeadsTo(d, n, slots);
    TlvsLookForward();
    LoopGoesOn(ReadTlv, d, Addresses(slots), n, q);
  }

  /** Behind the address TLV, the parser goes on where the length field says. */
  lemma AddressesGoOn(p: Packet, q: Packet)
    requires HasRequiredFields(p) && |p.addresses.value| < 0x1_0000_0000
    ensures ParseLoop(FromAddresses(p), 0, q)
            == if ToldLength(p.addresses.value) == 0 then Diverges
               else ParseLoop(Rest(p), 0, Apply(q, Addresses(p.addresses.value)))
  {
    SmallRemainders(0, |p.addresses.value|);
    ToldLengthFits(p);
    ListGoesOn(p.addresses.value, ToldLength(p.addresses.value),
               Behind(p), FromAddresses(p), q);
  }

  lemma FirstSixValues(p: Packet, q: Packet)
    requires HasRequiredFields(p)
    ensures Apply(ApplyAll(q, RoundTrip.Values(p)[..5]), Addresses(p.addresses.value))
            == q.(deviceId := p.deviceId, softwareVersion := p.softwareVersion, platform := p.platform,
                  portId := p.portId, capabilities := p.capabilities, addresses := p.addresses)
  {
    var vs := RoundTrip.Values(p);
    assert vs[..6][..5] == vs[..5];
    assert ApplyAll(q, vs[..6]) == Apply(ApplyAll(q, vs[..5]), vs[5]);
    ApplyRequiredValues(p, q);
  }

  /** The first five TLVs take effect, and the address TLV is next. */
  lemma FiveTlvsTakeEffect(header: Header, p: Packet)
    requires HasRequiredFields(p) && TextsFit(p)
    ensures Parse(Headed(header, p), 0)
            == ParseLoop(FromAddresses(p), 0, ApplyAll(HeaderPacket(header), RoundTrip.Values(p)[..5]))
  {
    var ts := Tlvs(p);
    FirstTlvs(p, HeaderPacket(header), 5);
    FrameTakesEffect(header, ts[..5], FromAddresses(p));
    FrameFromAddresses(p);
    ConcatAssociates(header, Flatten(ts[..5]), FromAddresses(p));
  }

  /** However long the address list is: it is stored, and the parser goes on behind as many of
      its bytes as the truncated length field tells, for ever if that is 0. */
  lemma ParseGoesOnInList(header: Header, p: Packet)
    requires HasRequiredFields(p) && TextsFit(p) && |p.addresses.value| < 0x1_0000_0000
    ensures Parse(Headed(header, p), 0)
            == if ToldLength(p.addresses.value) == 0 then Diverges else ParseLoop(Rest(p), 0, SoFar(header, p))
  {
    FiveTlvsTakeEffect(header, p);
    AddressesGoOn(p, ApplyAll(HeaderPacket(header), RoundTrip.Values(p)[..5]));
    FirstSixValues(p, HeaderPacket(header));
  }

  /** The rest of a list that fits its length field is the duplex TLV or nothing; the rest of a
      longer one consists of bytes of its own addresses, and must not change the packet. */
  predicate RestIsHarmless(header: Header, p: Packet)
    requires HasRequiredFields(p)
  {
    || AddressTlvSize(p.addresses.value) <= 0xFFFF
    || (ToldLength(p.addresses.value) != 0 && ParseLoop(Rest(p), 0, SoFar(header, p)) == Parsed(Received(header, p)))
  }

  /** Over all packets: the round trip succeeds exactly when every string fits its length field,
      the number of addresses fits its count, and the list fits its length field or its bytes,
      read as TLVs from where the truncated length leads, happen to change nothing. */
  lemma RoundTripIff(header: Header, p: Packet)
    requires HasRequiredFields(p)
    ensures Parse(Headed(header, p), 0) == Parsed(Received(header, p))
            <==> TextsFit(p) && |p.addresses.value| < 0x1_0000_0000 && RestIsHarmless(header, p)
  {
    if Parse(Headed(header, p), 0) == Parsed(Received(header, p)) {
      ParsedPacketFits(Headed(header, p), 0);
    }
    if TextsFit(p) && |p.addresses.value| < 0x1_0000_0000 {
      if AddressTlvSize(p.addresses.value) <= 0xFFFF {
        ParseOfFrame(header, p);
      } else {
        ParseGoesOnInList(header, p);
      }
    }
  }

  /** When the list's extent is a multiple of 65536, its length field reads 0 and the parser
      never gets past it. */
  lemma WrappedLengthHangsParser(header: Header, p: Packet)
    requires HasRequiredFields(p) && TextsFit(p) && |p.addresses.value| < 0x1_0000_0000
    requires AddressTlvSize(p.addresses.value) % 0x1_0000 == 0
    ensures Parse(Headed(header, p), 0) == Diverges
  {
    ParseGoesOnInList(header, p);
  }

  // ---------- Such lists exist ----------

  lemma {:induction false} CountInetOfRepeat(slots: Slots, n: nat, slot: Option<SockAddr>)
    requires slot.Some?
    ensures CountInet(slots + seq(n, _ => slot)) == CountInet(slots) + (if slot.value.Inet? then n else 0)
  {
    var all := slots + seq(n, _ => slot);
    if n == 0 {
      assert all == slots;
    } else {
      assert all[..|all| - 1] == slots + seq(n - 1, _ => slot);
      CountInetOfRepeat(slots, n - 1, slot);
    }
  }

  /** 7256 IPv4 and 8 IPv6 addresses take exactly 65536 bytes. */
  lemma WrappingListExists() returns (slots: Slots)
    ensures |slots| == 7264 && AllKnown(slots) && AddressTlvSize(slots) == 0x1_0000
  {
    var zeros: Octets16 := seq(16, _ => 0);
    var v4 := seq(7256, _ => Some(Inet(0)));
    slots := v4 + seq(8, _ => Some(Inet6(zeros)));
    assert [] + v4 == v4;
    CountInetOfRepeat([], 7256, Some(Inet(0)));
    CountInetOfRepeat(v4, 8, Some(Inet6(zeros)));
    AddressTlvSizeCounts(slots);
  }

  // ---------- The octets decide ----------

  lemma {:induction false} FirstAddressComesFirst(slots: Slots)
    requires AllKnown(slots) && slots != []
    ensures AddressBytes(slots[0].value) <= AddressesBytes(slots)
  {
    if |slots| == 1 {
      assert slots[..0] == [];
    } else {
      FirstAddressComesFirst(slots[..|slots| - 1]);
    }
  }

  lemma SliceInConcat(a: seq<Byte>, b: seq<Byte>, c: seq<Byte>, n: nat)
    requires n <= |b|
    ensures (a + b + c)[|a|..|a| + n] == b[..n]
  {
  }

  lemma RestWithinList(whole: seq<Byte>, head: seq<Byte>, body: seq<Byte>, behind: seq<Byte>, o: seq<Byte>)
    requires |head| == 8 && |body| == 0x1_0001 && |o| == 4 && INET_HEADER + o <= body && whole == head + body + behind
    ensures whole[9..][..4] == [0x01, 0xCC, 0, 4] && whole[9..][4..8] == o && whole[9..][0x1_0000..] == behind
  {
    SliceInConcat(head, body, behind, 9);
    assert whole[8..17] == INET_HEADER + o;
    assert whole[9..][..4] == whole[8..17][1..5] && whole[9..][4..8] == whole[8..17][5..9];
  }

  lemma PartsFromAddresses(p: Packet) returns (head: seq<Byte>, behind: seq<Byte>)
    requires HasRequiredFields(p)
    ensures |head| == 8 && FromAddresses(p) == head + AddressesBytes(p.addresses.value) + behind
    ensures behind == Behind(p)
  {
    var slots := p.addresses.value;
    head := Be16(ADDRESSES) + Be16(ToldLength(slots)) + Be32(|slots| % 0x1_0000_0000);
    behind := Behind(p);
  }

  lemma ListOfThatExtent(slots: Slots, o: seq<Byte>)
    requires AllKnown(slots) && slots != [] && AddressTlvSize(slots) == 0x1_0009
    requires AddressBytes(slots[0].value) == INET_HEADER + o
    ensures |AddressesBytes(slots)| == 0x1_0001 && INET_HEADER + o <= AddressesBytes(slots)
  {
    FirstAddressComesFirst(slots);
    AddressTlvSizeCounts(slots);
  }

  /** With an IPv4 address first and an extent of 65545 bytes, the parser goes on with an unknown
      TLV of four bytes and then takes the octets of that address for a type and a length. */
  lemma RestStarts(p: Packet, o: seq<Byte>)
    requires HasRequiredFields(p) && AddressTlvSize(p.addresses.value) == 0x1_0009
    requires |o| == 4 && AddressBytes(p.addresses.value[0].value) == INET_HEADER + o
    ensures |Rest(p)| >= 0x1_0000 && Rest(p)[..4] == [0x01, 0xCC, 0, 4] && Rest(p)[4..8] == o
    ensures Rest(p)[0x1_0000..] == Behind(p)
  {
    var head, behind := PartsFromAddresses(p);
    ListOfThatExtent(p.addresses.value, o);
    Truncated(AddressTlvSize(p.addresses.value));
    RestWithinList(FromAddresses(p), head, AddressesBytes(p.addresses.value), behind, o);
  }

  lemma SkipUnknown(d: seq<Byte>, n: nat, tag: U16, q: Packet)
    requires 4 <= n <= |d| && !IsKnown(tag) && Word16(d[0], d[1]) == tag && Word16(d[2], d[3]) == n
    ensures ParseLoop(d, 0, q) == ParseLoop(d[n..], 0, q)
  {
    var t := d[..n];
    assert ReadPayload(t, 4, tag, n) == Got(Ignored, 4);
    assert d == t + d[n..];
    UnknownTlvDoesNothing(t, d[n..], q);
  }

  lemma FirstFour(d: seq<Byte>, b: seq<Byte>)
    requires |d| >= 4 && d[..4] == b
    ensures d[0] == b[0] && d[1] == b[1] && d[2] == b[2] && d[3] == b[3]
  {
  }

  lemma SlicesOfRest(r: seq<Byte>)
    requires |r| >= 0x1_0000
    ensures r[4..][..4] == r[4..8] && r[4..][0xFFFC..] == r[0x1_0000..]
  {
  }

  lemma SkipFour(r: seq<Byte>, q: Packet)
    requires |r| >= 4 && r[..4] == [0x01, 0xCC, 0, 4]
    ensures ParseLoop(r, 0, q) == ParseLoop(r[4..], 0, q)
  {
    FirstFour(r, [0x01, 0xCC, 0, 4]);
    SkipUnknown(r, 4, 0x01CC, q);
  }

  lemma SkipList(d: seq<Byte>, q: Packet)
    requires |d| >= 0xFFFC && d[..4] == [0, 99, 0xFF, 0xFC]
    ensures ParseLoop(d, 0, q) == ParseLoop(d[0xFFFC..], 0, q)
  {
    FirstFour(d, [0, 99, 0xFF, 0xFC]);
    SkipUnknown(d, 0xFFFC, 99, q);
  }

  lemma HangOnZeros(d: seq<Byte>, q: Packet)
    requires |d| >= 4 && d[..4] == [0, 0, 0, 0]
    ensures ParseLoop(d, 0, q) == Diverges
  {
    FirstFour(d, [0, 0, 0, 0]);
    assert ReadPayload(d, 4, 0, 0) == Got(Ignored, 4);
    UnknownTlvWithoutLength(d, 0, 0);
    StuckHere(ReadTlv, d, 0, q);
  }

  lemma HangBehindFour(r: seq<Byte>, q: Packet)
    requires |r| >= 0x1_0000 && r[..4] == [0x01, 0xCC, 0, 4] && r[4..8] == [0, 0, 0, 0]
    ensures ParseLoop(r, 0, q) == Diverges
  {
    SlicesOfRest(r);
    SkipFour(r, q);
    HangOnZeros(r[4..], q);
  }

  lemma SkipToEnd(r: seq<Byte>, behind: seq<Byte>, q: Packet)
    requires |r| >= 0x1_0000 && r[..4] == [0x01, 0xCC, 0, 4] && r[4..8] == [0, 99, 0xFF, 0xFC]
    requires r[0x1_0000..] == behind
    ensures ParseLoop(r, 0, q) == ParseLoop(behind, 0, q)
  {
    SlicesOfRest(r);
    SkipFour(r, q);
    SkipList(r[4..], q);
  }

  lemma OneTlvEnds(t: seq<Byte>, q: Packet)
    requires WellFormed(t)
    ensures ParseLoop(t, 0, q) == Parsed(Apply(q, ValueOf(t)))
  {
    assert t + [] == t;
    OneTlv(t, [], q);
  }

  lemma DuplexEnds(header: Header, p: Packet)
    ensures ParseLoop(Behind(p), 0, SoFar(header, p)) == Parsed(Received(header, p))
  {
    if p.version == 2 {
      DuplexTlvDecodes(p.duplex);
      OneTlvEnds(Uint8Tlv(DUPLEX, p.duplex), SoFar(header, p));
    }
  }

  /** The packet's list takes 65545 bytes and starts with an IPv4 address of these octets. */
  predicate LongListFrom(p: Packet, o: seq<Byte>) {
    && HasRequiredFields(p) && TextsFit(p)
    && |p.addresses.value| < 0x1_0000_0000 && AddressTlvSize(p.addresses.value) == 0x1_0009
    && |o| == 4 && AddressBytes(p.addresses.value[0].value) == INET_HEADER + o
  }

  /** First address 0.0.0.0: a TLV of unknown type 0 and length 0. */
  lemma ZeroOctetsHangParser(header: Header, p: Packet)
    requires LongListFrom(p, [0, 0, 0, 0])
    ensures Parse(Headed(header, p), 0) == Diverges
  {
    RestStarts(p, [0, 0, 0, 0]);
    HangBehindFour(Rest(p), SoFar(header, p));
    ParseGoesOnInList(header, p);
  }

  /** First address 0.99.255.252: a TLV of unknown type 99 that ends where the list does, so that
      a packet whose length field is wrong still makes the round trip. */
  lemma OctetsCanHideTheRest(header: Header, p: Packet)
    requires LongListFrom(p, [0, 99, 0xFF, 0xFC])
    ensures Parse(Headed(header, p), 0) == Parsed(Received(header, p))
  {
    RestStarts(p, [0, 99, 0xFF, 0xFC]);
    SkipToEnd(Rest(p), Behind(p), SoFar(header, p));
    DuplexEnds(header, p);
    Truncated(AddressTlvSize(p.addresses.value));
    ParseGoesOnInList(header, p);
  }

  lemma {:induction false} FirstReplaced(slots: Slots, first: U32)
    requires AllKnown(slots) && slots != [] && slots[0].value.Inet?
    ensures var r := slots[0 := Some(Inet(first))]; AllKnown(r) && AddressTlvSize(r) == AddressTlvSize(slots)
  {
    var r := slots[0 := Some(Inet(first))];
    if |slots| == 1 {
      assert r[..0] == slots[..0];
    } else {
      var n := |slots| - 1;
      FirstReplaced(slots[..n], first);
      assert r[..n] == slots[..n][0 := Some(Inet(first))];
    }
  }

  predicate StartsWithInet(p: Packet) {
    HasRequiredFields(p) && p.addresses.value[0].value.Inet?
  }

  /** The packets differ in their first, IPv4, address at most. */
  predicate SameButFirst(p: Packet, q: Packet) {
    && StartsWithInet(p) && StartsWithInet(q)
    && q == p.(addresses := Some(p.addresses.value[0 := q.addresses.value[0]]))
  }

  lemma WithFirst(p: Packet, o: seq<Byte>) returns (q: Packet)
    requires HasRequiredFields(p) && TextsFit(p) && StartsWithInet(p) && |p.addresses.value| < 0x1_0000_0000
    requires AddressTlvSize(p.addresses.value) == 0x1_0009 && |o| == 4
    ensures LongListFrom(q, o) && SameButFirst(p, q)
  {
    var first := Word32(o[3], o[2], o[1], o[0]);
    FirstReplaced(p.addresses.value, first);
    Le32OfWord32(o[3], o[2], o[1], o[0]);
    q := p.(addresses := Some(p.addresses.value[0 := Some(Inet(first))]));
  }

  /** So one address decides between a round trip and a parser that never returns. */
  lemma OneAddressDecides(p: Packet) returns (hidden: Packet, hanging: Packet)
    requires HasRequiredFields(p) && TextsFit(p) && StartsWithInet(p) && |p.addresses.value| < 0x1_0000_0000
    requires AddressTlvSize(p.addresses.value) == 0x1_0009
    ensures SameButFirst(p, hidden)
    ensures forall header: Header :: Parse(Headed(header, hidden), 0) == Parsed(Received(header, hidden))
    ensures SameButFirst(p, hanging)
    ensures Serializable(p) ==> Serializable(hidden) && Serializable(hanging)
    ensures forall header: Header :: Parse(Headed(header, hanging), 0) == Diverges
  {
    hidden := WithFirst(p, [0, 99, 0xFF, 0xFC]);
    forall header: Header ensures Parse(Headed(header, hidden), 0) == Parsed(Received(header, hidden)) {
      OctetsCanHideTheRest(header, hidden);
    }
    hanging := WithFirst(p, [0, 0, 0, 0]);
    forall header: Header ensures Parse(Headed(header, hanging), 0) == Diverges {
      ZeroOctetsHangParser(header, hanging);
    }
  }

  /** Lists of that extent exist for any first address. */
  lemma LongListExists(first: U32) returns (slots: Slots)
    ensures |slots| == 7265 && AllKnown(slots) && slots[0] == Some(Inet(first))
    ensures AddressTlvSize(slots) == 0x1_0009
  {
    var zeros: Octets16 := seq(16, _ => 0);
    var one: Slots := [Some(Inet(first))];
    var v4 := one + seq(7256, _ => Some(Inet(0)));
    slots := v4 + seq(8, _ => Some(Inet6(zeros)));
    assert one[..0] == [] && CountInet(one) == 1;
    CountInetOfRepeat(one, 7256, Some(Inet(0)));
    CountInetOfRepeat(v4, 8, Some(Inet6(zeros)));
    AddressTlvSizeCounts(slots);
  }

  /** And with them packets that the serialiser takes and the parser never gets past, under any
      header. */
  lemma HangingPacketExists() returns (p: Packet)
    ensures Serializable(p) && forall header: Header :: Parse(Headed(header, p), 0) == Diverges
  {
    var slots := WrappingListExists();
    p := NewPacket(1, 180, 0).(deviceId := Some([]), softwareVersion := Some([]), platform := Some([]),
                               portId := Some([]), capabilities := Some(0), addresses := Some(slots));
    forall header: Header ensures Parse(Headed(header, p), 0) == Diverges {
      WrappedLengthHangsParser(header, p);
    }
  }
}
