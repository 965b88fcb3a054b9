/** The bytes on the wire, with their numbers written out: what the parser makes of each type of
    TLV, and where the serialiser puts each field. */
module WireFormat {
  import opened Bytes
  import opened Wrappers
  import opened SocketAddresses
  import opened StreamReading
  import opened Packets
  import opened PacketParsing
  import opened PacketSerializing
  import opened TlvOrder
  import ParserLocality

  // ---------- Integers ----------

  function Int16At(d: seq<Byte>, i: nat): nat
    requires i + 2 <= |d|
  {
    0x100 * d[i] as int + d[i + 1] as int
  }

  function Int24At(d: seq<Byte>, i: nat): nat
    requires i + 3 <= |d|
  {
    0x1_0000 * d[i] as int + 0x100 * d[i + 1] as int + d[i + 2] as int
  }

  function Int32At(d: seq<Byte>, i: nat): nat
    requires i + 4 <= |d|
  {
    0x100_0000 * d[i] as int + 0x1_0000 * d[i + 1] as int + 0x100 * d[i + 2] as int + d[i + 3] as int
  }

  /** An IPv4 address on a little-endian host: the first octet is the lowest byte. */
  function InetAt(d: seq<Byte>, i: nat): SockAddr
    requires i + 4 <= |d|
  {
    Inet(d[i] as int + 0x100 * d[i + 1] as int + 0x1_0000 * d[i + 2] as int + 0x100_0000 * d[i + 3] as int)
  }

  /** The writer's integers are big-endian too. */
  lemma Written16(v: U16)
    ensures |Be16(v)| == 2 && Int16At(Be16(v), 0) == v
  {
  }

  lemma Written24(v: U24)
    ensures |Be24(v)| == 3 && Int24At(Be24(v), 0) == v
  {
    Divided24(v);
  }

  lemma Divided24(v: U24)
    ensures 0x1_0000 * (v / 0x1_0000) + 0x100 * (v / 0x100 % 0x100) + v % 0x100 == v
  {
    NestedDivision(v);
  }

  lemma Written32(v: U32)
    ensures |Be32(v)| == 4 && Int32At(Be32(v), 0) == v
  {
    Word32OfBe32(v);
  }

  // ---------- One TLV at the front ----------

  /** Behind a TLV, the parser goes on as many bytes further as its length field says; behind what
      it read if the buffer ends sooner, and never if the length is 0. */
  function GoOn(d: seq<Byte>, length: nat, behind: nat, q: Packet): Outcome
    requires behind <= |d|
  {
    if length == 0 then Diverges
    else if length <= |d| then ParseLoop(d[length..], 0, q)
    else ParseLoop(d[behind..], 0, q)
  }

  lemma Stores(d: seq<Byte>, tag: U16, length: U16, v: TlvValue, behind: nat, q: Packet)
    requires 4 <= behind <= |d| && Word16(d[0], d[1]) == tag && Word16(d[2], d[3]) == length
    requires ReadPayload(d, 4, tag, length) == Got(v, behind)
    ensures ParseLoop(d, 0, q) == GoOn(d, length, behind, Apply(q, v))
  {
    assert ReadTlv(d, 0) == Got(v, if length <= |d| then length else behind);
    TlvsLookForward();
    LoopGoesOn(ReadTlv, d, v, if length <= |d| then length else behind, q);
  }

  lemma Refuses(d: seq<Byte>, tag: U16, length: U16, q: Packet)
    requires |d| >= 4 && Word16(d[0], d[1]) == tag && Word16(d[2], d[3]) == length
    requires ReadPayload(d, 4, tag, length).Failed?
    ensures ParseLoop(d, 0, q) == Rejected
  {
    assert ReadTlv(d, 0).Failed?;
    LoopRefuses(ReadTlv, d, q);
  }

  lemma LoopRefuses(read: Reader<TlvValue>, d: seq<Byte>, q: Packet)
    requires d != [] && read(d, 0).Failed?
    ensures Loop(read, d, 0, q) == Rejected
  {
  }

  predicate TypeIs(d: seq<Byte>, hi: Byte, lo: Byte) {
    |d| >= 4 && d[0] == hi && d[1] == lo
  }

  /** Nothing left ends the parse; fewer than four bytes are an error. */
  lemma EndOfTlvs(d: seq<Byte>, q: Packet)
    requires |d| < 4
    ensures ParseLoop(d, 0, q) == if d == [] then Parsed(q) else Rejected
  {
    if d != [] {
      assert ReadTlv(d, 0).Failed?;
      LoopRefuses(ReadTlv, d, q);
    }
  }

  lemma ParseDropsHeader(d: seq<Byte>)
    requires |d| >= 4
    ensures Parse(d, 0) == ParseLoop(d[4..], 0, NewPacket(d[0], d[1], Word16(d[2], d[3])))
  {
    assert d == d[..4] + d[4..];
    DropPrefix(d[..4], d[4..], NewPacket(d[0], d[1], Word16(d[2], d[3])));
  }

  /** The header: version, hold time and checksum of a packet without any field. */
  lemma HeaderOfFrame(d: seq<Byte>)
    ensures Parse(d, 0)
            == if |d| < 4 then Rejected
               else ParseLoop(d[4..], 0, Packet(d[0], d[1], Int16At(d, 2), None, None, None, None, None, None, None,
                                                None, None, None, 0, None, None, None, None, None))
  {
    if |d| >= 4 {
      ParseDropsHeader(d);
    }
  }

  // ---------- Numbers ----------

  /** Type 4: a 32-bit integer. */
  lemma CapabilitiesTlv(d: seq<Byte>, q: Packet)
    requires TypeIs(d, 0, 4)
    ensures ParseLoop(d, 0, q) == if |d| < 8 then Rejected
                                  else GoOn(d, Int16At(d, 2), 8, q.(capabilities := Some(Int32At(d, 4))))
  {
    if |d| < 8 {
      assert ReadNumberValue(d, 4, 4).Failed?;
      Refuses(d, 4, Int16At(d, 2), q);
    } else {
      assert ReadNumberValue(d, 4, 4) == Got(Capabilities(Int32At(d, 4)), 8);
      Stores(d, 4, Int16At(d, 2), Capabilities(Int32At(d, 4)), 8, q);
    }
  }

  /** Type 10: a 16-bit integer of at most 4095. */
  lemma NativeVlanTlv(d: seq<Byte>, q: Packet)
    requires TypeIs(d, 0, 10)
    ensures ParseLoop(d, 0, q) == if |d| < 6 || Int16At(d, 4) > 4095 then Rejected
                                  else GoOn(d, Int16At(d, 2), 6, q.(nativeVlan := Some(Int16At(d, 4))))
  {
    if |d| < 6 || Int16At(d, 4) > 4095 {
      assert ReadNumberValue(d, 4, 10).Failed?;
      Refuses(d, 10, Int16At(d, 2), q);
    } else {
      assert ReadNumberValue(d, 4, 10) == Got(NativeVlan(Int16At(d, 4)), 6);
      Stores(d, 10, Int16At(d, 2), NativeVlan(Int16At(d, 4)), 6, q);
    }
  }

  lemma ByteTlv(d: seq<Byte>, tag: U16, q: Packet)
    requires IsByte(tag) && |d| >= 4 && Word16(d[0], d[1]) == tag
    ensures ParseLoop(d, 0, q) == if |d| < 5 then Rejected
                                  else GoOn(d, Int16At(d, 2), 5, Apply(q, ByteValue(tag, d[4])))
  {
    if |d| < 5 {
      assert ReadNumberValue(d, 4, tag).Failed?;
      Refuses(d, tag, Int16At(d, 2), q);
    } else {
      assert ReadNumberValue(d, 4, tag) == Got(ByteValue(tag, d[4]), 5);
      Stores(d, tag, Int16At(d, 2), ByteValue(tag, d[4]), 5, q);
    }
  }

  /** Type 11: one byte. */
  lemma DuplexTlv(d: seq<Byte>, q: Packet)
    requires TypeIs(d, 0, 11)
    ensures ParseLoop(d, 0, q) == if |d| < 5 then Rejected else GoOn(d, Int16At(d, 2), 5, q.(duplex := d[4]))
  {
    ByteTlv(d, 11, q);
  }

  /** Type 18: one byte. */
  lemma TrustBitmapTlv(d: seq<Byte>, q: Packet)
    requires TypeIs(d, 0, 18)
    ensures ParseLoop(d, 0, q) == if |d| < 5 then Rejected else GoOn(d, Int16At(d, 2), 5, q.(trustBitmap := Some(d[4])))
  {
    ByteTlv(d, 18, q);
  }

  /** Type 19: one byte. */
  lemma UntrustedPortCosTlv(d: seq<Byte>, q: Packet)
    requires TypeIs(d, 0, 19)
    ensures ParseLoop(d, 0, q) == if |d| < 5 then Rejected
                                  else GoOn(d, Int16At(d, 2), 5, q.(untrustedPortCos := Some(d[4])))
  {
    ByteTlv(d, 19, q);
  }

  // ---------- Blocks ----------

  /** Type 8: the OUI 00 00 0C and 30 bytes. */
  lemma ClusterTlv(d: seq<Byte>, q: Packet)
    requires TypeIs(d, 0, 8)
    ensures ParseLoop(d, 0, q) == if |d| < 37 || d[4] != 0 || d[5] != 0 || d[6] != 0x0C then Rejected
                                  else GoOn(d, Int16At(d, 2), 37, q.(cluster := Some(d[7..37])))
  {
    if |d| < 37 || d[4] != 0 || d[5] != 0 || d[6] != 0x0C {
      assert ReadBlockValue(d, 4, 8, Int16At(d, 2)).Failed?;
      Refuses(d, 8, Int16At(d, 2), q);
    } else {
      assert ReadBlockValue(d, 4, 8, Int16At(d, 2)) == Got(ClusterManagement(d[7..37]), 37);
      Stores(d, 8, Int16At(d, 2), ClusterManagement(d[7..37]), 37, q);
    }
  }

  /** Type 26: 12 bytes. */
  lemma PowerTlv(d: seq<Byte>, q: Packet)
    requires TypeIs(d, 0, 26)
    ensures ParseLoop(d, 0, q) == if |d| < 16 then Rejected
                                  else GoOn(d, Int16At(d, 2), 16, q.(power := Some(d[4..16])))
  {
    if |d| < 16 {
      assert ReadBlockValue(d, 4, 26, Int16At(d, 2)).Failed?;
      Refuses(d, 26, Int16At(d, 2), q);
    } else {
      assert ReadBlockValue(d, 4, 26, Int16At(d, 2)) == Got(PowerAvailable(d[4..16]), 16);
      Stores(d, 26, Int16At(d, 2), PowerAvailable(d[4..16]), 16, q);
    }
  }

  /** Prefix i of type 7: four octets and a length byte. */
  function PrefixAt(d: seq<Byte>, i: nat): Prefix
    requires 4 + 5 * i + 5 <= |d|
  {
    Prefix(InetAt(d, 4 + 5 * i), d[4 + 5 * i + 4])
  }

  function PrefixesAt(d: seq<Byte>, n: nat): seq<Prefix>
    requires 4 + 5 * n <= |d|
  {
    seq(n, i requires 0 <= i < n => PrefixAt(d, i))
  }

  lemma OnePrefix(d: seq<Byte>, i: nat)
    ensures ReadPrefix(d, 4 + 5 * i) == if 4 + 5 * i + 5 <= |d| then Got(PrefixAt(d, i), 4 + 5 * i + 5) else Failed
  {
  }

  lemma OnePrefixMore(d: seq<Byte>, n: nat)
    requires 4 + 5 * n + 5 <= |d|
    ensures PrefixesAt(d, n + 1) == PrefixesAt(d, n) + [PrefixAt(d, n)]
  {
  }

  lemma {:induction false} ManyPrefixes(d: seq<Byte>, n: nat)
    requires |d| >= 4
    ensures ReadMany(ReadPrefix, d, 4, n)
            == if 4 + 5 * n <= |d| then Got(PrefixesAt(d, n), 4 + 5 * n) else Failed
  {
    if n == 0 {
      assert PrefixesAt(d, 0) == [];
    } else {
      var m := n - 1;
      ManyPrefixes(d, m);
      OnePrefix(d, m);
      if 4 + 5 * m <= |d| {
        PrefixesLength(d, m);
        ReadManyStep(ReadPrefix, d, 4, PrefixesAt(d, m), 4 + 5 * m);
        if 4 + 5 * n <= |d| {
          OnePrefixMore(d, m);
        }
      }
    }
  }

  lemma PrefixesLength(d: seq<Byte>, n: nat)
    requires 4 + 5 * n <= |d|
    ensures |PrefixesAt(d, n)| == n
  {
  }

  /** Type 7: as many prefixes as five bytes each fit the length behind the TLV's header. */
  lemma PrefixesTlv(d: seq<Byte>, n: nat, q: Packet)
    requires TypeIs(d, 0, 7)
    requires if Int16At(d, 2) < 4 then n == 0 else 4 + 5 * n <= Int16At(d, 2) < 4 + 5 * (n + 1)
    ensures ParseLoop(d, 0, q) == if |d| < 4 + 5 * n then Rejected
                                  else GoOn(d, Int16At(d, 2), 4 + 5 * n, q.(odrPrefixes := Some(PrefixesAt(d, n))))
  {
    var length: U16 := Int16At(d, 2);
    assert PrefixCount(length) == n;
    ManyPrefixes(d, n);
    if |d| < 4 + 5 * n {
      assert ReadPrefixes(d, 4, n).Failed?;
      assert ReadBlockValue(d, 4, 7, length).Failed?;
      Refuses(d, 7, length, q);
    } else {
      assert ReadPrefixes(d, 4, n) == Got(PrefixesAt(d, n), 4 + 5 * n);
      assert ReadBlockValue(d, 4, 7, length) == Got(OdrPrefixes(PrefixesAt(d, n)), 4 + 5 * n);
      Stores(d, 7, length, OdrPrefixes(PrefixesAt(d, n)), 4 + 5 * n, q);
    }
  }

  // ---------- Texts ----------

  /** The text of a TLV of that length: its bytes up to the first NUL, or all of them. */
  predicate TextIs(d: seq<Byte>, length: nat, s: CString) {
    && 4 + |s| <= length <= |d| && d[4..4 + |s|] == s
    && (4 + |s| < length ==> d[4 + |s|] == 0)
  }

  lemma TextTlv(d: seq<Byte>, tag: U16, s: CString, q: Packet)
    requires IsText(tag) && |d| >= 4 && Word16(d[0], d[1]) == tag && TextIs(d, Int16At(d, 2), s)
    ensures ParseLoop(d, 0, q) == ParseLoop(d[Int16At(d, 2)..], 0, Apply(q, TextValue(tag, s)))
  {
    var length := Int16At(d, 2);
    ScanStops(d, 4, length - 4, |s|);
    assert ReadTextValue(d, 4, tag, length) == Got(TextValue(tag, s), length);
    Stores(d, tag, length, TextValue(tag, s), length, q);
  }

  /** Types 1, 3, 5, 6, 9 and 0x1007. */
  lemma TextTlvs(d: seq<Byte>, s: CString, q: Packet)
    requires |d| >= 4 && TextIs(d, Int16At(d, 2), s)
    ensures var rest := d[Int16At(d, 2)..];
            && (TypeIs(d, 0, 1) ==> ParseLoop(d, 0, q) == ParseLoop(rest, 0, q.(deviceId := Some(s))))
            && (TypeIs(d, 0, 3) ==> ParseLoop(d, 0, q) == ParseLoop(rest, 0, q.(portId := Some(s))))
            && (TypeIs(d, 0, 5) ==> ParseLoop(d, 0, q) == ParseLoop(rest, 0, q.(softwareVersion := Some(s))))
            && (TypeIs(d, 0, 6) ==> ParseLoop(d, 0, q) == ParseLoop(rest, 0, q.(platform := Some(s))))
            && (TypeIs(d, 0, 9) ==> ParseLoop(d, 0, q) == ParseLoop(rest, 0, q.(vtpManagementDomain := Some(s))))
            && (TypeIs(d, 0x10, 7) ==> ParseLoop(d, 0, q) == ParseLoop(rest, 0, q.(startupNativeVlan := Some(s))))
  {
    var tag: U16 := Int16At(d, 0);
    if IsText(tag) {
      TextTlv(d, tag, s, q);
    }
  }

  /** A length below 4, or beyond the buffer, is an error for these types. */
  lemma TextTlvRefused(d: seq<Byte>, q: Packet)
    requires |d| >= 4 && (Int16At(d, 2) < 4 || Int16At(d, 2) > |d|)
    requires (d[0] == 0 && d[1] in {1, 3, 5, 6, 9}) || (d[0] == 0x10 && d[1] == 7)
    ensures ParseLoop(d, 0, q) == Rejected
  {
    assert ReadTextValue(d, 4, Int16At(d, 0), Int16At(d, 2)).Failed?;
    Refuses(d, Int16At(d, 0), Int16At(d, 2), q);
  }

  // ---------- Addresses ----------

  /** The octets behind the address length at o; that many bytes must be there, but their number
      does not matter. */
  predicate OctetsAre(d: seq<Byte>, o: nat, a: SockAddr, next: nat) {
    && o + 2 <= |d| && o + 2 + Int16At(d, o) <= |d|
    && (match a
        case Inet(_) => next == o + 6 <= |d| && a == InetAt(d, o + 2)
        case Inet6(octets) => next == o + 18 <= |d| && octets == d[o + 2..o + 18]
        case OtherFamily => false)
  }

  /** An NLPID: 1, a length of 1 to 4, and the value 0xCC in that many bytes, most significant
      first. */
  predicate NlpidAt(d: seq<Byte>, i: nat) {
    && i + 2 <= |d| && d[i] == 1 && 1 <= d[i + 1] <= 4
    && var last := i + 1 + d[i + 1];
       last < |d| && d[last] == 0xCC && forall j | i + 2 <= j < last :: d[j] == 0
  }

  /** An 802.2 SNAP header with a zero OUI, behind a 2 and any length: AA AA, any control byte,
      and the protocol. */
  predicate SnapAt(d: seq<Byte>, i: nat, protocol: U16) {
    && i + 2 <= |d| && d[i] == 2 && i + 10 <= |d|
    && var s := i + 2;
       && d[s] == 0xAA && d[s + 1] == 0xAA
       && Int24At(d, s + 3) == 0 && Int16At(d, s + 6) == protocol
  }

  /** One entry of an address list: an NLPID of value 0xCC or a SNAP header with protocol 0x0800
      before an IPv4 address, or a SNAP header with protocol 0x86DD before an IPv6 address. */
  predicate EntryIs(d: seq<Byte>, i: nat, a: SockAddr, next: nat) {
    || (a.Inet? && NlpidAt(d, i) && OctetsAre(d, i + 2 + d[i + 1], a, next))
    || (a.Inet? && SnapAt(d, i, 0x0800) && OctetsAre(d, i + 10, a, next))
    || (a.Inet6? && SnapAt(d, i, 0x86DD) && OctetsAre(d, i + 10, a, next))
  }

  lemma NlpidIff(d: seq<Byte>, i: nat)
    requires i + 2 <= |d| && d[i] == 1
    ensures NlpidAt(d, i) <==> ReadVariable(d, i + 2, d[i + 1]) == Got(0xCC, i + 2 + d[i + 1])
    ensures ReadVariable(d, i + 2, d[i + 1]).Got? ==> ReadVariable(d, i + 2, d[i + 1]).next == i + 2 + d[i + 1]
  {
    var k, p := d[i + 1], i + 2;
    if 1 <= k <= 4 && p + k <= |d| {
      match k {
        case 1 =>
        case 2 => assert NlpidAt(d, i) <==> d[p + 1] == 0xCC && d[p] == 0;
        case 3 => assert NlpidAt(d, i) <==> d[p + 2] == 0xCC && d[p] == 0 && d[p + 1] == 0;
        case _ => assert NlpidAt(d, i) <==> d[p + 3] == 0xCC && d[p] == 0 && d[p + 1] == 0 && d[p + 2] == 0;
      }
    }
  }

  lemma SnapReads(d: seq<Byte>, s: nat, oui: nat, pid: nat)
    requires s + 8 <= |d| && oui == Int24At(d, s + 3) && pid == Int16At(d, s + 6)
    ensures ReadSnap(d, s)
            == if d[s] != 0xAA || d[s + 1] != 0xAA || oui != 0 then Failed
               else if pid == 0x0800 then Got(FamilyInet, s + 8)
               else if pid == 0x86DD then Got(FamilyInet6, s + 8)
               else Failed
  {
  }

  lemma NlpidRead(d: seq<Byte>, i: nat)
    requires i + 2 <= |d| && d[i] == 1
    ensures ReadProtocolType(d, i) == if NlpidAt(d, i) then Got(FamilyInet, i + 2 + d[i + 1]) else Failed
  {
    NlpidIff(d, i);
  }

  lemma SnapRead(d: seq<Byte>, i: nat)
    requires i + 2 <= |d| && d[i] == 2
    ensures ReadProtocolType(d, i) == if SnapAt(d, i, 0x0800) then Got(FamilyInet, i + 10)
                                      else if SnapAt(d, i, 0x86DD) then Got(FamilyInet6, i + 10)
                                      else Failed
  {
    var s := i + 2;
    if s + 8 <= |d| {
      SnapReads(d, s, Int24At(d, s + 3), Int16At(d, s + 6));
    }
  }

  lemma OctetsIff(d: seq<Byte>, o: nat, f: Family, a: SockAddr, next: nat)
    ensures ParserLocality.ReadOctets(d, o, f) == Got(a, next)
            <==> a.Inet? == f.FamilyInet? && OctetsAre(d, o, a, next)
  {
  }

  lemma AddressAt(d: seq<Byte>, i: nat, f: Family, o: nat, a: SockAddr, next: nat)
    requires ReadProtocolType(d, i) == Got(f, o)
    ensures ReadAddress(d, i) == Got(a, next) <==> a.Inet? == f.FamilyInet? && OctetsAre(d, o, a, next)
  {
    ParserLocality.AddressAfter(d, i, Got(f, o));
    OctetsIff(d, o, f, a, next);
  }

  lemma NoFamilyNoAddress(d: seq<Byte>, i: nat)
    requires ReadProtocolType(d, i).Failed?
    ensures ReadAddress(d, i).Failed?
  {
  }

  /** The entries that decode, and to what, are exactly the ones described. */
  lemma EntryIff(d: seq<Byte>, i: nat, a: SockAddr, next: nat)
    ensures ReadAddress(d, i) == Got(a, next) <==> EntryIs(d, i, a, next)
  {
    if i + 2 <= |d| && d[i] == 1 {
      NlpidRead(d, i);
      if NlpidAt(d, i) {
        AddressAt(d, i, FamilyInet, i + 2 + d[i + 1], a, next);
      } else {
        NoFamilyNoAddress(d, i);
      }
    } else if i + 2 <= |d| && d[i] == 2 {
      SnapRead(d, i);
      if SnapAt(d, i, 0x0800) {
        AddressAt(d, i, FamilyInet, i + 10, a, next);
      } else if SnapAt(d, i, 0x86DD) {
        AddressAt(d, i, FamilyInet6, i + 10, a, next);
      } else {
        NoFamilyNoAddress(d, i);
      }
    }
  }

  /** The list's entries stand one behind the other, the first at byte 8; at says where. */
  predicate EntriesAt(d: seq<Byte>, at: seq<nat>, slots: Slots) {
    && |at| == |slots| + 1 && at[0] == 8
    && (forall i | 0 <= i < |slots| :: slots[i].Some? && EntryIs(d, at[i], slots[i].value, at[i + 1]))
  }

  lemma EntryReads(d: seq<Byte>, i: nat, a: SockAddr, next: nat)
    requires EntryIs(d, i, a, next)
    ensures ReadSlot(d, i) == Got(Some(a), next) && i <= next <= |d|
  {
    EntryIff(d, i, a, next);
  }

  predicate SlotReads(read: Reader<Option<SockAddr>>, d: seq<Byte>, i: nat, slot: Option<SockAddr>, next: nat) {
    read(d, i) == Got(slot, next) && i <= next <= |d|
  }

  predicate AllRead(read: Reader<Option<SockAddr>>, d: seq<Byte>, at: seq<nat>, slots: Slots) {
    && |at| == |slots| + 1 && at[0] == 8
    && (forall i | 0 <= i < |slots| :: SlotReads(read, d, at[i], slots[i], at[i + 1]))
  }

  lemma EntriesRead(d: seq<Byte>, at: seq<nat>, slots: Slots)
    requires EntriesAt(d, at, slots)
    ensures AllRead(ReadSlot, d, at, slots)
  {
    forall i | 0 <= i < |slots| ensures SlotReads(ReadSlot, d, at[i], slots[i], at[i + 1]) {
      EntryReads(d, at[i], slots[i].value, at[i + 1]);
    }
  }

  lemma {:induction false} ManyRead(read: Reader<Option<SockAddr>>, d: seq<Byte>, at: seq<nat>, slots: Slots, n: nat)
    requires AllRead(read, d, at, slots) && n <= |slots| && |d| >= 8
    ensures ReadMany(read, d, 8, n) == Got(slots[..n], at[n]) && 8 <= at[n] <= |d|
  {
    if n == 0 {
    } else {
      var m := n - 1;
      ManyRead(read, d, at, slots, m);
      assert SlotReads(read, d, at[m], slots[m], at[m + 1]);
      ReadManyStep(read, d, 8, slots[..m], at[m]);
      assert slots[..m] + [slots[m]] == slots[..n];
    }
  }

  lemma ManyEntries(d: seq<Byte>, at: seq<nat>, slots: Slots)
    requires EntriesAt(d, at, slots) && |d| >= 8
    ensures ReadMany(ReadSlot, d, 8, |slots|) == Got(slots, at[|slots|]) && 8 <= at[|slots|] <= |d|
  {
    EntriesRead(d, at, slots);
    ManyRead(ReadSlot, d, at, slots, |slots|);
    assert slots[..|slots|] == slots;
  }

  lemma AddressListTlv(d: seq<Byte>, tag: U16, next: nat, slots: Slots, q: Packet)
    requires IsAddressList(tag) && |d| >= 8 && Word16(d[0], d[1]) == tag && 4 <= next <= |d|
    requires ReadAddressList(d, 4) == Got(slots, next)
    ensures ParseLoop(d, 0, q) == GoOn(d, Int16At(d, 2), next, Apply(q, AddressListValue(tag, slots)))
  {
    assert ReadAddressListValue(d, 4, tag) == Got(AddressListValue(tag, slots), next);
    Stores(d, tag, Int16At(d, 2), AddressListValue(tag, slots), next, q);
  }

  lemma ListReads(d: seq<Byte>, slots: Slots, next: nat)
    requires |d| >= 8 && Int32At(d, 4) == |slots| && ReadMany(ReadSlot, d, 8, |slots|) == Got(slots, next)
    ensures ReadAddressList(d, 4) == Got(slots, next)
  {
    assert Read32(d, 4) == Got(|slots|, 8);
  }

  lemma EntriesAreList(d: seq<Byte>, at: seq<nat>, slots: Slots)
    requires |d| >= 8 && EntriesAt(d, at, slots) && Int32At(d, 4) == |slots|
    ensures ReadAddressList(d, 4) == Got(slots, at[|slots|]) && 8 <= at[|slots|] <= |d|
  {
    ManyEntries(d, at, slots);
    ListReads(d, slots, at[|slots|]);
  }

  /** Types 2 and 22: a 32-bit count and that many entries. */
  lemma AddressTlvs(d: seq<Byte>, at: seq<nat>, slots: Slots, behind: nat, q: Packet)
    requires |d| >= 8 && EntriesAt(d, at, slots) && Int32At(d, 4) == |slots| && behind == at[|slots|]
    ensures behind <= |d|
    ensures TypeIs(d, 0, 2) ==> ParseLoop(d, 0, q) == GoOn(d, Int16At(d, 2), behind, q.(addresses := Some(slots)))
    ensures TypeIs(d, 0, 22) ==>
              ParseLoop(d, 0, q) == GoOn(d, Int16At(d, 2), behind, q.(managementAddresses := Some(slots)))
  {
    EntriesAreList(d, at, slots);
    ListTlvs(d, behind, slots, q);
  }

  lemma ListTlvs(d: seq<Byte>, next: nat, slots: Slots, q: Packet)
    requires |d| >= 8 && ReadAddressList(d, 4) == Got(slots, next) && 8 <= next <= |d|
    ensures TypeIs(d, 0, 2) ==> ParseLoop(d, 0, q) == GoOn(d, Int16At(d, 2), next, q.(addresses := Some(slots)))
    ensures TypeIs(d, 0, 22) ==>
              ParseLoop(d, 0, q) == GoOn(d, Int16At(d, 2), next, q.(managementAddresses := Some(slots)))
  {
    if TypeIs(d, 0, 2) {
      AddressListTlv(d, 2, next, slots, q);
    } else if TypeIs(d, 0, 22) {
      AddressListTlv(d, 22, next, slots, q);
    }
  }

  lemma ListFails(d: seq<Byte>, count: U32)
    requires |d| < 8 || (Read32(d, 4) == Got(count, 8) && ReadMany(ReadSlot, d, 8, count).Failed?)
    ensures ReadAddressList(d, 4).Failed?
  {
  }

  lemma NoEntryNoSlot(d: seq<Byte>, i: nat)
    requires forall a, next: nat :: !EntryIs(d, i, a, next)
    ensures ReadSlot(d, i).Failed?
  {
    var r := ReadAddress(d, i);
    if r.Got? {
      EntryIff(d, i, r.value, r.next);
    }
  }

  lemma ManyRefused(d: seq<Byte>, at: seq<nat>, slots: Slots, count: U32)
    requires |d| >= 8 && EntriesAt(d, at, slots) && |slots| < count
    requires forall a, next: nat :: !EntryIs(d, at[|slots|], a, next)
    ensures ReadMany(ReadSlot, d, 8, count).Failed?
  {
    ManyEntries(d, at, slots);
    NoEntryNoSlot(d, at[|slots|]);
    ReadManyStep(ReadSlot, d, 8, slots, at[|slots|]);
    ReadManyFails(ReadSlot, d, 8, |slots| + 1, count);
  }

  lemma ListRefused(d: seq<Byte>, tag: U16, q: Packet)
    requires IsAddressList(tag) && |d| >= 4 && Word16(d[0], d[1]) == tag && ReadAddressList(d, 4).Failed?
    ensures ParseLoop(d, 0, q) == Rejected
  {
    assert ReadAddressListValue(d, 4, tag).Failed?;
    Refuses(d, tag, Int16At(d, 2), q);
  }

  /** They are an error if the count is cut off, or if behind fewer entries than it announces
      there is something else. */
  lemma AddressTlvsRefused(d: seq<Byte>, at: seq<nat>, slots: Slots, q: Packet)
    requires TypeIs(d, 0, 2) || TypeIs(d, 0, 22)
    requires |d| < 8 || (EntriesAt(d, at, slots) && |slots| < Int32At(d, 4)
                         && forall a, next: nat :: !EntryIs(d, at[|slots|], a, next))
    ensures ParseLoop(d, 0, q) == Rejected
  {
    if |d| >= 8 {
      ManyRefused(d, at, slots, Int32At(d, 4));
    }
    ListFails(d, if |d| < 8 then 0 else Int32At(d, 4));
    ListRefused(d, d[1], q);
  }

  // ---------- Unknown types ----------

  predicate KnownType(hi: Byte, lo: Byte) {
    (hi == 0 && (1 <= lo <= 11 || lo in {18, 19, 22, 26})) || (hi == 0x10 && lo == 7)
  }

  lemma UnknownTlv(d: seq<Byte>, q: Packet)
    requires |d| >= 4 && !KnownType(d[0], d[1])
    ensures ParseLoop(d, 0, q) == GoOn(d, Int16At(d, 2), 4, q)
  {
    assert ReadPayload(d, 4, Int16At(d, 0), Int16At(d, 2)) == Got(Ignored, 4);
    Stores(d, Int16At(d, 0), Int16At(d, 2), Ignored, 4, q);
  }

  // ---------- Where the serialiser puts each field ----------

  /** What can be serialised: the four texts, the capabilities, at least one address and no empty
      or unknown one, and for version 2 a duplex other than 0. */
  lemma SerializableIff(p: Packet)
    ensures Serializable(p)
            <==> && p.deviceId.Some? && p.softwareVersion.Some? && p.platform.Some? && p.portId.Some?
                 && p.capabilities.Some? && p.addresses.Some? && |p.addresses.value| > 0
                 && (forall i | 0 <= i < |p.addresses.value| ::
                       p.addresses.value[i].Some?
                       && (p.addresses.value[i].value.Inet? || p.addresses.value[i].value.Inet6?))
                 && (p.version == 2 ==> p.duplex != 0)
  {
    if p.addresses.Some? {
      KnownIff(p.addresses.value);
    }
  }

  lemma KnownIff(slots: Slots)
    ensures AllKnown(slots)
            <==> forall i | 0 <= i < |slots| :: slots[i].Some? && (slots[i].value.Inet? || slots[i].value.Inet6?)
  {
    forall i | 0 <= i < |slots|
      ensures Known(slots[i]) <==> slots[i].Some? && (slots[i].value.Inet? || slots[i].value.Inet6?)
    {
    }
  }

  lemma TypeBytes()
    ensures Be16(DEVICE_ID) == [0, 1] && Be16(ADDRESSES) == [0, 2] && Be16(PORT_ID) == [0, 3]
    ensures Be16(SOFTWARE_VERSION) == [0, 5] && Be16(PLATFORM) == [0, 6]
    ensures Be16(CAPABILITIES) + Be16(8) == [0, 4, 0, 8] && Be16(DUPLEX) + Be16(5) == [0, 11, 0, 5]
  {
  }

  /** The bytes of one address list entry: protocol type and length, protocol, address length, and
      the octets in order. */
  lemma EntryLayout(a: SockAddr)
    ensures a.Inet? ==> AddressBytes(a)[..5] == [0x01, 0x01, 0xCC, 0x00, 0x04]
                        && |AddressBytes(a)| == 9 && InetAt(AddressBytes(a), 5) == a
    ensures a.Inet6? ==> AddressBytes(a) == [0x02, 0x08, 0xAA, 0xAA, 0x03, 0, 0, 0, 0x86, 0xDD, 0x00, 0x10] + a.octets
  {
    if a.Inet? {
      assert AddressBytes(a)[5..] == Le32(a.sAddr);
      Word32OfLe32(a.sAddr);
    }
  }

  /** The entries of a list, one behind the other in slot order. */
  lemma ListLayout(slots: Slots, more: Option<SockAddr>)
    requires AllKnown(slots) && Known(more)
    ensures AddressesBytes([]) == [] && AddressesBytes(slots + [more]) == AddressesBytes(slots) + AddressBytes(more.value)
  {
    assert (slots + [more])[..|slots|] == slots;
  }

  lemma SevenConcats(h: seq<Byte>, a: seq<Byte>, b: seq<Byte>, c: seq<Byte>, d: seq<Byte>, e: seq<Byte>,
                     f: seq<Byte>, g: seq<Byte>)
    ensures h + (a + b + c + d + e + f + g) == h + a + b + c + d + e + f + g
  {
    ConcatAssociates(h, a + b + c + d + e + f, g);
    ConcatAssociates(h, a + b + c + d + e, f);
    ConcatAssociates(h, a + b + c + d, e);
    ConcatAssociates(h, a + b + c, d);
    ConcatAssociates(h, a + b, c);
    ConcatAssociates(h, a, b);
  }

  /** A text TLV with its type's two bytes. */
  function TextBytes(lo: Byte, s: CString): seq<Byte> {
    [0, lo] + Be16((|s| + 4) % 0x1_0000) + s
  }

  /** Type 2: the list's extent, its count and its entries. */
  function ListBytes(slots: Slots): seq<Byte>
    requires AllKnown(slots)
  {
    [0, 2] + Be16((8 + |AddressesBytes(slots)|) % 0x1_0000) + Be32(|slots| % 0x1_0000_0000) + AddressesBytes(slots)
  }

  lemma TlvBytes(p: Packet)
    requires HasRequiredFields(p)
    ensures Tlvs(p)[0] == TextBytes(1, p.deviceId.value) && Tlvs(p)[1] == TextBytes(5, p.softwareVersion.value)
    ensures Tlvs(p)[2] == TextBytes(6, p.platform.value) && Tlvs(p)[3] == TextBytes(3, p.portId.value)
    ensures Tlvs(p)[4] == [0, 4, 0, 8] + Be32(p.capabilities.value)
    ensures Tlvs(p)[5] == ListBytes(p.addresses.value)
    ensures if p.version == 2 then |Tlvs(p)| == 7 && Tlvs(p)[6] == [0, 11, 0, 5, p.duplex] else |Tlvs(p)| == 6
  {
    TypeBytes();
    AddressTlvSizeCounts(p.addresses.value);
    assert [0, 11, 0, 5] + [p.duplex] == [0, 11, 0, 5, p.duplex];
  }

  /** The whole frame behind its header, byte by byte: device ID, software version, platform, port
      ID, capabilities, addresses and, for version 2, the duplex. */
  lemma FrameLayout(header: Header, p: Packet)
    requires HasRequiredFields(p)
    ensures Headed(header, p)
            == header + TextBytes(1, p.deviceId.value) + TextBytes(5, p.softwareVersion.value)
               + TextBytes(6, p.platform.value) + TextBytes(3, p.portId.value)
               + ([0, 4, 0, 8] + Be32(p.capabilities.value)) + ListBytes(p.addresses.value)
               + (if p.version == 2 then [0, 11, 0, 5, p.duplex] else [])
  {
    var ts := Tlvs(p);
    var g := if p.version == 2 then [0, 11, 0, 5, p.duplex] else [];
    TlvBytes(p);
    FlattenTlvs(p);
    FlattenSix(ts[..6]);
    SevenConcats(header, ts[0], ts[1], ts[2], ts[3], ts[4], ts[5], g);
    assert [] + ts[0] == ts[0];
  }
}
