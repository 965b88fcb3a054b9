# A verified model of the Linux CDP client

The repository implements the Cisco Discovery Protocol for Linux: `libcdp` encodes, checksums
and decodes CDP frames and keeps the table of neighbours; the kernel module receives frames,
purges the table from a timer and shows it under `/proc`. This project models the parts with
the most state, branching and arithmetic, in Dafny, and proves what they guarantee.

- **Frame codec.** `StreamReader`, `StreamWriter`, `CdpPacket` and `IpAddressArray` are classes
  as in the source. Every read is specified by a function on (buffer, position), every write by
  the bytes it appends; the frame of a packet is `PacketSerializing.Frame`, the meaning of a
  buffer is `PacketParsing.Parse`. What the parser makes of a packet's TLVs is proved for any
  four-byte header in front of them, `PacketSerializing.Headed(header, p)`; the serialiser's own
  frame is the one with the header `HeaderOf(p)`. The serialiser and the parser are loops proved to compute
  those two, and the theorems about the format (round trip, order of TLVs, locality,
  termination, exact sizes) are lemmas about them.
  `WireFormat` says in numbers what is on the wire: what the parser makes of each type of TLV and
  of each kind of address entry, and where the serialiser puts each field.
- **Internet checksum.** `Checksum.Csum` is the value that the loop over a 32-bit accumulator
  returns, wrap-around included. It is proved against the one's complement sum of RFC 1071,
  section 1, against the little-endian sum of section 2 (B), and against its use at both ends of
  a frame.
- **Neighbour table.** `NeighborList` is the intrusive doubly linked list with its pointers
  updated in place; a ghost sequence of nodes ties it to `NeighborTable`, where receiving and
  purging are functions on a list of entries. Every sequence of receive and timer steps is a
  run of `NeighborTable.Run`; refinement, safety and bounded liveness hold for all of them.
- **Both ends together.** `NeighborLifetime` follows a packet from its sender's serialiser into
  a receiver's table: for how long it is known there, and what the table then says about it.
- **Transmit timer.** `TransmitTimer` follows the ticks that decide when the module transmits.
- **Address printer.** The search for the longest run of zeros and the printed text of an
  address, against a definition of the text forms of RFC 4291, section 2.2.

`dafny verify dfyconfig.toml` checks everything.

## Where the code does less than it seems to

The model follows the code; each of these is an exact condition or a theorem.

- A TLV that decodes although its length field is 0 is read again for ever
  (`ParserProgress.ParserTerminatesIff`); eight bytes suffice (`ParserProgress.ShortestHang`).
- The serialiser truncates its length fields to 16 bits. Behind an address list of more than
  65535 bytes the parser goes on inside the list (`LongLists.ParseGoesOnInList`), for ever when
  the list's extent is a multiple of 65536, as with 7256 IPv4 and 8 IPv6 addresses
  (`LongLists.WrappedLengthHangsParser`, `LongLists.HangingPacketExists`). Otherwise the octets of the addresses decide: of two
  packets that differ in one address, one can make the round trip and the other hang the parser
  (`LongLists.OneAddressDecides`).
- The header of `cdp_neighbor_list_purge_expired_neighbors` (libcdp/cdp_neighbor.h:223-228)
  promises to purge every neighbour whose hold timer has expired. One call does so exactly when
  the head of the list is not expired or nothing else is (`NeighborTable.PurgeIsCompleteIff`);
  of two expired neighbours the second stays (`NeighborTable.SecondExpiredNeighborStays`).
- `cdp_neighbor_list_get_by_index` should return NULL only past the end
  (libcdp/cdp_neighbor.h:159-164). Its counter counts how often the list was filled from empty,
  so a second neighbour is not found by index (`NeighborTable.SecondNeighborIsHidden`).
- A neighbour counts as expired one second before its hold time is over
  (`NeighborLifetime.ExpiredFrom`), and as fresh again when 2^31 - 1 seconds have passed, where
  the addition to the 32-bit age wraps around (`NeighborLifetime.FreshAgainWhenWrapped`).
- `cdp_neighbor_list_append` tells a linked node by its links. The sole node of a list has none,
  and appending it again makes it its own successor (`Neighbors.NeighborList.Append`).
- The hold time of a frame of two or three bytes is 0 or the frame's byte 1, depending on
  whether a longer frame came before (`NeighborTable.HoldTimeDependsOnHistory`).
- A run of zeros at either end of an IPv6 address is printed with one colon instead of two
  (`AddressReading.StandardReadsBackIff`, `AddressReading.LoopbackText`).
- A validating buffer still validates when an aligned word changes between 0x0000 and 0xFFFF,
  unless that wraps the accumulator around or empties it (`Checksum.WordErrorDetection`,
  `Checksum.ExchangedZerosValidate`).
- Injecting over a placeholder that is not zero gives a buffer that validates only in one case
  (`Checksum.InjectOverPlaceholder`). The serialiser always writes a zero placeholder.

## Model

| member | source | states |
|---|---|---|
| Checksum.IpComputeCsum | libcdp/platform/checksum.h:17-34 | the loop with its wrapping 32-bit accumulator, two folds and the flip returns Csum, which the rows below relate to the standard's sum |
| Checksum.TwoFoldsReachRep | libcdp/platform/checksum.h:30-31 | two folds of any 32-bit accumulator give the representative in 1..65535 of its residue modulo 65535, and 0 only for 0 |
| Checksum.AccumulatorNeverWraps | libcdp/platform/checksum.h:19-28 | for at most 131074 bytes the sum of words, in either byte order, stays below 2^32 |
| Checksum.AccumulatorBoundIsTight | libcdp/platform/checksum.h:19-28 | 131074 bytes of 0xFF sum to exactly 2^32 - 1, and one more byte goes beyond |
| Checksum.DeferredCarriesAreExact | libcdp/platform/checksum.h:17-34 | up to 131074 bytes the result is the flipped complement of RFC 1071's one's complement sum with carries added back at once, and a buffer validates exactly when that sum is 0xFFFF |
| Checksum.ByteOrderIndependence | libcdp/platform/checksum.h:7-34 | section 2 (B) of RFC 1071: the flipped big-endian result is the complement of the folded little-endian sum, for either parity of the length |
| Checksum.ComplementNeverWraps | libcdp/platform/checksum.h:28-33 | completing any 32-bit accumulator by its own complement reaches a positive multiple of 65535 without a carry out of 32 bits |
| Checksum.InjectedChecksumValidates | libcdp/stream_writer.c:238-268 | injection at an even position whose two bytes are zero makes the buffer validate, for every length, even beyond the accumulator's range |
| Checksum.InjectOverPlaceholder | libcdp/stream_writer.c:238-268 | over any placeholder and for every length, injection makes the buffer validate if and only if the placeholder was 0, or was 0xFFFF with the accumulator above 0xFFFF |
| Checksum.WordErrorDetection | libcdp/stream_reader.c:754-767 | a change within one aligned word of a valid buffer of any length is missed if and only if it exchanges 0x0000 and 0xFFFF and neither wraps the accumulator around nor empties it |
| Checksum.ExchangedZerosValidate | libcdp/stream_reader.c:754-767 | a concrete missed change: FF FF 00 00 and FF FF FF FF both validate |
| Checksum.ByteErrorDetected | libcdp/stream_reader.c:754-767 | every change of a single byte of a valid buffer, of any length, is detected |
| SocketAddresses.IpAddressArray.constructor | libcdp/ip_address_array.c:4-33 | all slots start empty |
| SocketAddresses.IpAddressArray.SetInto | libcdp/ip_address_array.c:101-121 | fails exactly for an index past the end; otherwise that slot and no other changes |
| SocketAddresses.IpAddressArray.CopyInto | libcdp/ip_address_array.c:123-179 | fails exactly for an index past the end or an unknown family, leaving all slots alone; otherwise that slot holds an equal address |
| SocketAddresses.IpAddressArray.Clear | libcdp/ip_address_array.c:54-80 | all slots are empty and their number is unchanged |
| StreamReading.StreamReader.SetPosition | libcdp/stream_reader.c:103-126 | succeeds exactly within the buffer; a failed seek leaves the position alone |
| StreamReading.StreamReader.GetVariableLengthInteger | libcdp/stream_reader.c:239-287 | a big-endian integer of 1 to 4 bytes, consumed only with all its bytes present; any other length is an error |
| StreamReading.StreamReader.GetString | libcdp/stream_reader.c:289-329 | the longest NUL-free prefix of the field, while the whole field is consumed; fails exactly when the field does not fit |
| StreamReading.UntilNulStops | libcdp/stream_reader.c:305-317 | the string is the prefix before the first NUL, or the whole field if it has none |
| StreamReading.StreamReader.GetBuffer | libcdp/stream_reader.c:331-354 | the next count bytes, or failure if fewer remain |
| StreamReading.StreamReader.GetProtocolFromSnap | libcdp/stream_reader.c:356-439 | accepts exactly a SNAP header with zero OUI and the IPv4 or IPv6 protocol number, whatever its control byte |
| StreamReading.StreamReader.GetProtocolType | libcdp/stream_reader.c:441-497 | an NLPID of value 0xCC in 1 to 4 bytes means IPv4, a SNAP header its own family, all else fails |
| StreamReading.StreamReader.GetInetAddress | libcdp/stream_reader.c:499-532 | four bytes, kept so that the first one is the low byte of s_addr |
| StreamReading.StreamReader.GetInet6Address | libcdp/stream_reader.c:534-577 | sixteen bytes in order |
| StreamReading.StreamReader.GetAddress | libcdp/stream_reader.c:579-629 | family, declared length and octets; the declared length must be present but does not steer the read |
| StreamReading.ReadAddress | libcdp/stream_reader.c:579-629 | an address is never of an unknown family and never read from fewer bytes than the serialiser would use for it |
| StreamReading.StreamReader.ValidateChecksum | libcdp/stream_reader.c:754-767 | true exactly when the whole buffer validates |
| StreamWriting.StreamWriter.New | libcdp/stream_writer.c:6-34 | no writer exactly for an empty buffer |
| StreamWriting.StreamWriter.Put32 | libcdp/stream_writer.c:152-172 | succeeds exactly when four bytes are left, appends them in network order and changes nothing else |
| StreamWriting.StreamWriter.PutBuffer | libcdp/stream_writer.c:174-205 | succeeds exactly when the bytes fit (no bytes always do), appends them and changes nothing else |
| StreamWriting.StreamWriter.PutString | libcdp/stream_writer.c:207-236 | succeeds exactly when the string fits, appends it without a terminator and changes nothing else |
| StreamWriting.StreamWriter.InjectChecksum | libcdp/stream_writer.c:238-268 | fails exactly when the position is not within what was written; otherwise only the two bytes there change, to the checksum of all that was written |
| StreamWriting.AppendsTwice | libcdp/stream_writer.c:71-236 | two bounded writes in a row succeed exactly when their concatenation fits, and amount to writing it |
| Packets.CdpPacket.SetText | libcdp/cdp_packet.c:94-686 | each of the six string setters changes its own field only; a null string clears it |
| Packets.CdpPacket.SetNativeVlan | libcdp/cdp_packet.c:479-507 | refuses VLAN numbers above 4095 and then changes nothing |
| PacketSerializing.WriteStringTlv | libcdp/cdp_packet.c:722-761 | appends type, truncated length and the string, exactly when they fit; an absent value writes nothing and is an error only if required |
| PacketSerializing.WriteAddressesTlv | libcdp/cdp_packet.c:844-1040 | rejects empty slots and unknown families before writing anything; otherwise appends header, count and entries exactly when they fit |
| PacketSerializing.WriteAddresses | libcdp/cdp_packet.c:944-1037 | the entries of all slots in slot order, succeeding exactly when all fit |
| PacketSerializing.WriteInetAddress | libcdp/cdp_packet.c:948-978 | the nine bytes of an IPv4 entry |
| PacketSerializing.WriteInet6Address | libcdp/cdp_packet.c:980-1035 | the twenty-eight bytes of an IPv6 entry |
| PacketSerializing.AddressTlvSizeCounts | libcdp/cdp_packet.c:885-924 | the extent added up before writing is 8 + 9 per IPv4 + 28 per IPv6 address, and is what the entries then take |
| PacketSerializing.WriteTlvs | libcdp/cdp_packet.c:1042-1102 | with all required fields, appends the TLVs in order exactly when they fit; without them it fails |
| PacketSerializing.Serialize | libcdp/cdp_packet.c:1104-1172 | succeeds if and only if the packet is serialisable and its frame fits; returns the frame's exact size, writes the frame, which is the packet's TLVs behind its header and validates, and touches nothing behind it or beyond the buffer |
| PacketSerializing.FrameHasFrameSize | libcdp/cdp_packet.c:722-1172 | the closed form of the size behind any header: 4 + the four strings with their headers + 8 + the address TLV + 5 for version 2 |
| PacketSerializing.FrameIsHeaded | libcdp/cdp_packet.c:1128-1158 | sealing changes nothing but the checksum: the serialiser's frame is the packet's TLVs behind a header with its version and hold time |
| PacketSerializing.FrameValidates | libcdp/cdp_packet.c:1142-1158 | every frame the serialiser can produce passes the receiver's checksum validation, however long it is |
| WireFormat.FrameLayout | libcdp/cdp_packet.c:1042-1102 | the frame behind its header byte by byte: types 1, 5, 6 and 3 with device ID, software version, platform and port ID, type 4 with the capabilities, type 2 with the addresses and, for version 2, type 11 with the duplex |
| WireFormat.EntryLayout | libcdp/cdp_packet.c:946-1036 | an IPv4 entry is 01 01 CC 00 04 and its octets in order, an IPv6 entry 02 08 AA AA 03 00 00 00 86 DD 00 10 and its sixteen octets |
| WireFormat.ListLayout | libcdp/cdp_packet.c:944-1037 | the entries stand one behind the other in slot order |
| WireFormat.Written32 | libcdp/stream_writer.c:152-172 | 32-bit integers are written most significant byte first |
| WireFormat.SerializableIff | libcdp/cdp_packet.c:1042-1119 | a packet can be serialised exactly with all four texts, capabilities, at least one address, none empty or of an unknown family, and for version 2 a duplex other than 0 |
| PacketParsing.ParsePacket | libcdp/cdp_packet_parser.c:9-525 | parses exactly what Parse says: the packet, a rejection, or no return |
| PacketParsing.ParseTlvs | libcdp/cdp_packet_parser.c:45-520 | the dispatch loop computes the outcome of the loop as a transition system and fills the packet object accordingly |
| PacketParsing.ParseTlv | libcdp/cdp_packet_parser.c:47-519 | one iteration: type, length, payload, re-seek relative to the TLV's start; it leads back to its start exactly for length 0 |
| PacketParsing.ReadTlv | libcdp/cdp_packet_parser.c:47-519 | a decoded TLV leads to a position between its own and the buffer's end, and to its own exactly if its length field is 0 |
| PacketParsing.StoreTlv | libcdp/cdp_packet_parser.c:69-517 | the sixteen-way dispatch stores the decoded value in the field of its type, cluster and power contents as raw bytes; an unknown type stores and reads nothing |
| PacketParsing.FillAddresses | libcdp/cdp_packet_parser.c:115-133 | the address loop fills the provisioned array with the announced number of addresses in order, or fails with the first that does not decode |
| PacketParsing.GetPrefixes | libcdp/cdp_packet_parser.c:234-294 | as many prefixes as the truncated division of the length by five says, in order |
| PacketParsing.GetText | libcdp/cdp_packet_parser.c:75-75 | a length below 4 wraps to a huge size and is refused |
| PacketParsing.ReadManyConsumes | libcdp/cdp_packet_parser.c:115-133 | a nested loop yields exactly count items and consumes at least their total size, within the buffer |
| WireFormat.HeaderOfFrame | libcdp/cdp_packet_parser.c:17-38 | fewer than four bytes are refused; otherwise they are version, hold time and big-endian checksum of a packet without any field and with duplex 0 |
| WireFormat.EndOfTlvs | libcdp/cdp_packet_parser.c:45-67 | nothing left ends the parse; one to three bytes left are an error |
| WireFormat.NativeVlanTlv | libcdp/cdp_packet_parser.c:341-359 | type 10 stores its 16-bit number, is refused above 4095 or when cut off, and the parser goes on where the length field says, behind the number if that is past the end, or never if it is 0 |
| WireFormat.CapabilitiesTlv | libcdp/cdp_packet_parser.c:162-180 | type 4 stores its 32-bit number, and the parser goes on likewise |
| WireFormat.DuplexTlv | libcdp/cdp_packet_parser.c:361-379 | type 11 stores its one byte as the duplex |
| WireFormat.TrustBitmapTlv | libcdp/cdp_packet_parser.c:381-399 | type 18 stores its one byte as the trust bitmap |
| WireFormat.UntrustedPortCosTlv | libcdp/cdp_packet_parser.c:401-419 | type 19 stores its one byte as the CoS of untrusted ports |
| WireFormat.ClusterTlv | libcdp/cdp_packet_parser.c:297-314 | type 8 is refused unless its OUI is 00 00 0C, and keeps the 30 bytes behind it |
| WireFormat.PowerTlv | libcdp/cdp_packet_parser.c:462-480 | type 26 keeps its 12 bytes |
| WireFormat.PrefixesTlv | libcdp/cdp_packet_parser.c:232-295 | type 7 stores as many prefixes as its length has room for five bytes each, each from four octets and a length byte |
| WireFormat.TextTlvs | libcdp/cdp_packet_parser.c:71-94 | types 1, 3, 5, 6, 9 and 0x1007 set device ID, port ID, software version, platform, VTP domain and startup VLAN, each to its bytes up to the first NUL |
| WireFormat.TextTlvRefused | libcdp/cdp_packet_parser.c:71-94 | these types are refused when their length is below 4 or beyond the buffer |
| WireFormat.AddressTlvs | libcdp/cdp_packet_parser.c:96-135 | types 2 and 22 set addresses and management addresses to the announced number of entries, in order |
| WireFormat.AddressTlvsRefused | libcdp/cdp_packet_parser.c:96-135 | they are refused when the count is cut off or fewer entries than announced are followed by something that is none |
| WireFormat.EntryIff | libcdp/stream_reader.c:356-629 | the entries that decode, and to which address, are exactly: an NLPID of value 0xCC in 1 to 4 bytes or a SNAP header with protocol 0x0800 before four octets, or a SNAP header with 0x86DD before sixteen, whatever address length they declare as long as that many bytes are there |
| WireFormat.UnknownTlv | libcdp/cdp_packet_parser.c:507-519 | every other type stores nothing, even if its length leads past the end |
| ParserProgress.LoopComputesOutcome | libcdp/cdp_packet_parser.c:45-520 | after more iterations than bytes are left the loop has halted with the computed packet or rejection, or it never does |
| ParserProgress.DivergesIffRunsForEver | libcdp/cdp_packet_parser.c:45-520 | the outcome Diverges means that the loop is still running after every number of iterations |
| ParserProgress.TerminatesIff | libcdp/cdp_packet_parser.c:45-520 | however one TLV is read, the loop runs for ever if and only if it reaches a TLV leading back to its own start; otherwise it halts within one iteration a byte |
| ParserProgress.ParserTerminatesIff | libcdp/cdp_packet_parser.c:45-520 | the parser runs for ever if and only if it reaches a decodable TLV of length 0; on all other byte strings it halts within one iteration a byte |
| ParserProgress.ShortestHang | libcdp/cdp_packet_parser.c:507-519 | a concrete frame that is never parsed to its end: a header and a TLV of unknown type with length 0, eight bytes in all |
| ParserLocality.PayloadIsLocal | libcdp/cdp_packet_parser.c:69-517 | a payload that decodes decodes to the same value, over the same number of bytes, wherever those bytes stand and whatever follows them |
| ParserLocality.AddressIsLocal | libcdp/stream_reader.c:579-629 | the same for one address |
| ParserLocality.ReadManyIsLocal | libcdp/cdp_packet_parser.c:115-133 | the same for a nested loop over items that are read locally |
| TlvOrder.LoopLooksForward | libcdp/cdp_packet_parser.c:45-520 | equal remaining bytes give equal outcomes, whatever was parsed before |
| TlvOrder.TlvsTakeEffect | libcdp/cdp_packet_parser.c:45-520 | well-formed TLVs take effect one by one, whatever bytes follow them, including bytes that do not parse |
| TlvOrder.FieldOfEffect | libcdp/cdp_packet_parser.c:69-517 | a field ends up with the value of the last TLV of its type, or stays as it was |
| TlvOrder.OnlyLastOfEachTypeMatters | libcdp/cdp_packet_parser.c:45-520 | two TLV sequences with the same last TLV of every known type parse alike |
| TlvOrder.ReorderingIsInvisible | libcdp/cdp_packet_parser.c:45-520 | any permutation of well-formed TLVs of pairwise distinct types gives the same outcome |
| TlvOrder.UnknownTlvIsTransparent | libcdp/cdp_packet_parser.c:507-519 | a well-formed TLV of unknown type inserted at any TLV boundary changes nothing |
| TlvOrder.LastTlvWins | libcdp/cdp_packet_parser.c:45-520 | a TLV followed by another of its type might as well be absent |
| ParsedFields.ParsedPacketFits | libcdp/cdp_packet_parser.c:45-520 | every parsed string is NUL-free and at most 65531 bytes long, address lists have no empty slot and known families only, at most 2^32 - 1 addresses, their serialised size is at most the frame's, and the header is the frame's own |
| ParsedFields.AddressCountBound | libcdp/cdp_packet_parser.c:96-135 | 9 times the number of addresses is below the frame's length |
| ParsedFields.LoopKeepsFits | libcdp/cdp_packet_parser.c:45-520 | these bounds are kept by every iteration, and the header fields never change |
| RoundTrip.AddressesDecode | libcdp/cdp_packet.c:944-1037 | the entries the serialiser writes for any list decode to that list, in order, wherever they stand |
| RoundTrip.ParseOfFrame | libcdp/cdp_packet.c:1042-1172 | parsing a packet's TLVs behind any header gives back that header, the strings, capabilities, addresses in order and, for version 2, the duplex, with every other field absent |
| RoundTrip.ShortListRoundTripIff | libcdp/cdp_packet.c:722-1172 | while the address list fits its length field, the round trip holds if and only if every string has at most 65531 bytes |
| LongLists.RoundTripIff | libcdp/cdp_packet.c:722-1172 | over all packets with the required fields and all headers, the round trip holds if and only if every string has at most 65531 bytes, the addresses fit their 32-bit count, and the list fits its length field or, read as TLVs from where the truncated length leads, changes nothing |
| LongLists.ParseGoesOnInList | libcdp/cdp_packet_parser.c:96-519 | however long the address list is, it is stored and the parser goes on behind as many bytes of its TLV as the truncated length tells, or never returns if that is 0 |
| RoundTrip.ShortFramesRoundTrip | libcdp/cdp_packet.c:1104-1172 | every packet whose frame has at most 65535 bytes makes the round trip, under any header and with no further condition |
| RoundTrip.LengthFields | libcdp/cdp_packet.c:722-942 | a TLV's length field on the wire is its extent modulo 65536, hence exact if and only if that is at most 65535 |
| RoundTrip.ReserialisedFrameIsStable | libcdp/cdp_packet_parser.c:45-520 | for any frame of at most 65535 bytes whose parse can be serialised, parsing that again gives the same fields and serialising again the same bytes |
| LongLists.WrappedLengthHangsParser | libcdp/cdp_packet.c:932-932 | when the address list's extent is a multiple of 65536, the parser never returns from the packet's TLVs, under any header |
| LongLists.WrappingListExists | libcdp/cdp_packet.c:885-932 | such a list: 7256 IPv4 and 8 IPv6 addresses |
| LongLists.HangingPacketExists | libcdp/cdp_packet.c:1104-1172 | a whole packet that the serialiser takes and the parser never gets past, under any header |
| LongLists.ZeroOctetsHangParser | libcdp/cdp_packet.c:932-932 | a list of 65545 bytes that starts with the address 0.0.0.0 hangs the parser |
| LongLists.OctetsCanHideTheRest | libcdp/cdp_packet.c:932-932 | a list of the same extent that starts with 0.99.255.252 makes the round trip although its length field is wrong |
| LongLists.OneAddressDecides | libcdp/cdp_packet.c:932-932 | of two packets that differ in the first address of such a list only, one makes the round trip and the other hangs the parser |
| LongLists.LongListExists | libcdp/cdp_packet.c:885-932 | lists of that extent exist for any first IPv4 address |
| PacketCreation.CopyAddresses | libcdp/cdp_packet.c:1253-1261 | a fresh array with the same addresses, failing exactly for an unknown family |
| PacketCreation.CreatePacket | libcdp/cdp_packet.c:1174-1275 | writes the frame of a version 2 announcement with 180 seconds, host and IGMP capabilities and full duplex, if and only if the parts allow it and it fits; what it wrote validates |
| PacketCreation.AnnouncementArrives | libcdp/cdp_packet.c:1174-1275 | an announcement of at most 65535 bytes parses to version 2, hold time 180, the given device ID, interface name, platform, software version and addresses, capabilities 0x30, duplex 1 and no other field |
| NeighborTable.ReceiveTouchesOne | libcdp/cdp_neighbor.c:444-548 | receiving keeps identities distinct and the order, changes or appends exactly one entry and stamps it |
| NeighborTable.EthernetFramesAreStored | module/cdp_receive.c:8-46 | a frame from a device of type 1 leaves its sender with an entry stamped with that time and holding the frame; one from any other device changes nothing |
| NeighborTable.ReceiveKeepsType | libcdp/cdp_neighbor.c:508-526 | a new entry gets the device type received, and a found entry keeps its own |
| NeighborTable.ReceiveIsPut | module/cdp_receive.c:27-48 | receiving is the update of an insertion-ordered map from identity to last time, longest length so far and last frame that was not empty |
| NeighborTable.PurgeIsDrop | libcdp/cdp_neighbor.c:688-721 | a purge is the ordered map's own removal step, which sees only its keys and records: an expired first key alone, or else all expired keys |
| NeighborTable.RunRefinesOrderedMap | module/cdp_receive.c:27-48 | in every run from the empty table identities are pairwise distinct and the list is what the ordered map, run on the events alone, holds, in the same order |
| NeighborTable.StepRefines | module/cdp_module.c:43-57 | every receive and tick step commutes with the abstraction to the ordered map |
| NeighborTable.PurgeSparesUnexpired | libcdp/cdp_neighbor.c:688-721 | a purge never removes an unexpired neighbour |
| NeighborTable.PurgeConverges | libcdp/cdp_neighbor.c:688-721 | n purges at one time remove the first n of the expired prefix; one more than its length leaves exactly the unexpired neighbours, for good |
| NeighborTable.PurgeIsCompleteIff | libcdp/cdp_neighbor.c:688-721 | one purge leaves exactly the unexpired neighbours if and only if the head is not expired or no other neighbour is |
| NeighborTable.SecondExpiredNeighborStays | libcdp/cdp_neighbor.c:700-717 | a concrete table where it does not: frames with hold time 0 from two senders, of which one tick removes only the first |
| NeighborTable.QuietRun | module/cdp_module.c:43-57 | while nothing is heard of it, an expired neighbour is gone or has moved forward by one place a tick, unchanged |
| NeighborTable.ExpiredNeighborLeaves | module/cdp_module.c:43-57 | bounded liveness: it is out of the table after p + 1 ticks from position p, however receive and tick steps interleave |
| NeighborTable.LivenessBoundIsTight | libcdp/cdp_neighbor.c:700-717 | behind p expired neighbours p ticks are not enough |
| NeighborTable.FreshNeighborStays | module/cdp_module.c:43-57 | safety over runs: as long as no tick finds it expired, a neighbour stays in the table exactly as it was, whatever is received from others and purged around it, and never moves back |
| NeighborTable.RefreshedNeighborStays | module/cdp_receive.c:27-48 | a neighbour that is heard again before any tick finds it expired is never lost, over every interleaving; its entry is what its own frames make of it |
| NeighborTable.SilentRun | module/cdp_module.c:43-57 | under any clock, while nothing is heard of it, every tick that finds a neighbour expired removes it or brings it at least one place forward, and nothing moves it back or changes it |
| NeighborTable.ExpiredTicksRemove | module/cdp_module.c:43-57 | p + 1 such ticks, among whatever other events, remove it from position p |
| NeighborLifetime.ExpiredFrom | libcdp/cdp_neighbor.c:292-313 | wherever the 32-bit additions do not wrap around, a neighbour counts as expired if and only if the last second of its hold time has begun |
| NeighborLifetime.KnownUntilHoldTime | module/cdp_receive.c:27-48 | after any frame of at least a header, its sender is in the table with that frame until the last second of the hold time in it, however steps interleave and even if the clock is set back |
| NeighborLifetime.AnnouncementIsKnown | module/cdp_receive.c:27-48 | hence, for the hold time that a packet announces, the table has a frame that still parses to what was announced, up to 65535 bytes |
| NeighborLifetime.KnownWhileAnnounced | module/cdp_receive.c:27-48 | a neighbour that announces itself again before the last second of each hold time is never lost, however ticks and other senders interleave and even if the clock is set back, and the table holds its latest frame, time and hold time |
| NeighborLifetime.ForgottenAfterHoldTime | module/cdp_module.c:43-57 | in every run of ticks, under any clock, and of frames from others, the sender of a frame is gone once the ticks from the last second of its hold time on outnumber the neighbours that were before it |
| NeighborLifetime.KnownThenForgotten | module/cdp_module.c:43-57 | through the ticks before that second it is in the table, and p + 1 ticks later, p being its position on arrival, it is gone |
| NeighborLifetime.ForgottenWithinSeconds | module/cdp_module.c:43-66 | if ticks are at most g seconds apart, a neighbour that arrived at position p is gone by the first tick more than p * g seconds after its expiry, hence within (p + 1) * g seconds |
| NeighborTable.CountIsFillings | libcdp/cdp_neighbor.c:606-623 | in every run the counter is the number of changes from empty to not empty, so at least 1 while the list is not empty |
| NeighborTable.ReachableByIndex | libcdp/cdp_neighbor.c:414-442 | index 0 always shows the head of a list that is not empty, and every index its node if and only if the counter is at least the length |
| NeighborTable.SecondNeighborIsHidden | libcdp/cdp_neighbor.c:606-623 | frames from any two different senders give two neighbours of which the second has no index |
| NeighborTable.FrameBufferHistory | libcdp/cdp_neighbor.c:156-221 | over any sequence of frames the buffer holds the last one that was not empty, its capacity is the longest length so far, and the hold time is byte 1 of that frame exactly if it has two bytes and some frame had four |
| NeighborTable.HoldTimeDependsOnHistory | libcdp/cdp_neighbor.c:272-290 | the same short frame has hold time 0 alone and its byte 1 after a longer frame |
| Neighbors.Neighbor.constructor | libcdp/cdp_neighbor.c:5-28 | a detached node without a buffer |
| Neighbors.Neighbor.SetFrameBuffer | libcdp/cdp_neighbor.c:156-221 | in place, exactly the entry's update; it fails only for an empty frame, never with a corrupt buffer |
| Neighbors.Neighbor.GetHoldTime | libcdp/cdp_neighbor.c:272-290 | the hold time of the entry, of which FrameBufferHistory says what it is |
| Neighbors.NeighborList.Append | libcdp/cdp_neighbor.c:578-624 | accepts exactly the nodes whose links are both null; links such a node at the end, no corruption check fires, and the list stays well formed if and only if the node was not its sole member, which becomes a loop of its own |
| Neighbors.NeighborList.RemoveItem | libcdp/cdp_neighbor.c:626-686 | unlinks exactly the given member from both directions and detaches it; a detached stranger is refused; no corruption check fires on a member |
| Neighbors.NeighborList.TakeFirst | libcdp/cdp_neighbor.c:377-412 | returns the head detached and leaves the rest, well formed; the head never has a previous node |
| Neighbors.NeighborList.Clean | libcdp/cdp_neighbor.c:345-362 | empties the list, lowering the counter by its length |
| Neighbors.NeighborList.GetByIndex | libcdp/cdp_neighbor.c:414-442 | the node at the index exactly when that is below both the counter and the length |
| Neighbors.NeighborList.GetByIdentity | libcdp/cdp_neighbor.c:444-471 | the first node of the identity, or null if there is none |
| Neighbors.NeighborList.GetOrCreateByIdentity | libcdp/cdp_neighbor.c:473-548 | that node, or a new one appended; an empty MAC address is refused and changes nothing |
| Neighbors.NeighborList.PurgeStep | libcdp/cdp_neighbor.c:700-717 | removes the node if expired and steps to the node that followed it, or to nothing when it was the head |
| Neighbors.NeighborList.PurgeExpiredNeighbors | libcdp/cdp_neighbor.c:688-721 | the walk that deletes while iterating leaves the list without its head if that was expired, else the order-preserving filter; it never fails |
| Neighbors.WalkIsPurge | libcdp/cdp_neighbor.c:700-717 | node-by-node removal amounts to that filter |
| CdpModule.CdpModule.constructor | libcdp/cdp_neighbor.c:316-332 | an empty, well-formed table |
| CdpModule.CdpModule.Store | module/cdp_receive.c:44-45 | stamps one node and stores the frame in its buffer, all other entries as they were |
| CdpModule.CdpModule.ReceiveFrame | module/cdp_receive.c:4-64 | on the linked list, the receive step of the table; frames from other devices than Ethernet are ignored |
| CdpModule.CdpModule.TimerEvent | module/cdp_module.c:43-72 | on the linked list, the tick step of the table; the tick transmits exactly when five seconds have passed or the clock was set back, and then the last transmission is less than five seconds ago |
| TransmitTimer.UnsignedComparison | module/cdp_module.c:59-59 | the comparison of signed milliseconds with an unsigned interval holds exactly when five seconds have passed or the clock was set back behind the last transmission |
| TransmitTimer.TransmissionsAreSpaced | module/cdp_module.c:59-64 | while the clock does not go back, any two transmissions are at least five seconds apart |
| TransmitTimer.TransmissionsAreRegular | module/cdp_module.c:59-66 | if ticks are at most g seconds apart, transmissions are at most 4 + g seconds apart, over every run |
| ZeroRuns.LongestIsLeftmostLongest | module/cdp_proc_print_sockaddr.c:32-45 | for lists of any length the result is a run of zeros at least as long as every other, and the leftmost of that length |
| ZeroRuns.NothingFoundIffNoZero | module/cdp_proc_print_sockaddr.c:21-45 | the search keeps its initial values exactly when there is no zero |
| ZeroRuns.FindLongest | module/cdp_proc_print_sockaddr.c:32-45 | the loop that stops early, as soon as no longer run can start, finds that run |
| AddressText.PrintInet6 | module/cdp_proc_print_sockaddr.c:47-80 | the three output branches print the tokens of the address between colons |
| AddressText.PrintSockaddr | module/cdp_proc_print_sockaddr.c:6-88 | the text of an address of either family, or that its format is unknown |
| AddressReading.TextIsInjective | module/cdp_proc_print_sockaddr.c:6-88 | different addresses are shown differently, over both families |
| AddressReading.TextOfOctets | module/cdp_proc_print_sockaddr.c:24-30 | the groups of an IPv6 address are its pairs of octets, the first one more significant; other families are shown as "<unknown format>" |
| AddressReading.PrintedForms | module/cdp_proc_print_sockaddr.c:47-80 | the texts: "::" for all zeros, eight groups without a zero, else the groups before and behind the longest run of zeros, each with its own colon |
| AddressReading.ShownInWireOrder | module/cdp_proc_print_sockaddr.c:8-15 | an IPv4 address read off the wire is shown as its four octets in wire order, in decimal, with dots between |
| AddressReading.StandardReadsBackIff | module/cdp_proc_print_sockaddr.c:47-80 | under section 2.2 of RFC 4291 the printed text means the printed address and no other, if and only if the compressed run is absent, the whole address, or has a group on either side; else it means nothing |
| AddressReading.OneColonAtTheEnds | module/cdp_proc_print_sockaddr.c:65-80 | otherwise the text has a single colon before or behind the remaining groups |
| AddressReading.LoopbackText | module/cdp_proc_print_sockaddr.c:65-80 | the loopback address is printed as ":1" |
| Digits.PrintReadsBack | module/cdp_proc_print_sockaddr.c:14-14 | the decimal and hexadecimal numbers read back |
| Digits.PrintIsCanonical | module/cdp_proc_print_sockaddr.c:52-78 | numbers are printed with digits and upper-case letters only and without leading zeros |
| Digits.PrintIsUnique | module/cdp_proc_print_sockaddr.c:52-78 | the printed text is the only one of that form that reads back to the number |
| Digits.PrintIsPositional | module/cdp_proc_print_sockaddr.c:52-78 | one digit is 0 to 9 or A to F; more are the digits of the quotient and then that of the remainder |

## Left out

- Kernel plumbing: socket buffers, SNAP and multicast registration, timer re-arming, lock flags and procfs entries. A receive and a tick are atomic because the write lock surrounds the table updates.
- module/cdp_transmit.c: it depends on kernel lists of interfaces. A tick only tells whether it transmits.
- The procfs summary, detail and JSON output, `cdp_packet_dump` and `printAddress`: formatted printing.
- Software version and device ID strings: operating system calls and concatenation.
- Allocation failure, freeing, leaks and NULL arguments: allocation succeeds and arguments are not null, except where null is a value the code handles (absent fields, absent address arrays, empty slots).
- Ports, scopes and padding of socket addresses; 64-bit `size_t` and `off_t` and a little-endian host are assumed.
- Cluster management and power TLVs: the fixed number of bytes each consumes is kept raw in its own field (30 bytes behind the checked OUI, and 12), not split further.
- `ip_prefix_array`: prefixes are collected in a sequence, so its slots' update in place is not modelled.
- `cdp_neighbor_list_take_by_identity`: a lookup followed by a removal, both modelled.
- PacketParsing.ParsePacket: a call that would never return is modelled as one that returns NeverReturns when an iteration leads back to its own start, because a method must terminate here; ParserProgress proves that this stands for the infinite loop.
- PacketParsing.ParseTlvs: the same; its NeverReturns stands for the loop that LoopComputesOutcome shows to be still running after any number of iterations.
- PacketParsing.StoreTlv: the fields inside the cluster management and power TLVs are not told apart, as said above.
- NeighborTable.ExpiredNeighborLeaves: requires the seconds since the last frame, plus one, to stay within a 32-bit int; ExpiredTicksRemove needs no such bound. The C additions overflow beyond it, which is modelled as wrapping around.
- CdpModule.CdpModule.TransmitIfDue: says nothing of when it transmits if the milliseconds overflow a signed 64-bit long.
- NeighborTable.CountIsFillings: the counter is unbounded, so its own overflow after 2^31 fillings is not modelled.
- Neighbors.Neighbor.constructor: takes device type, name and MAC address together, so the half-initialised nodes between the setters are not modelled.
- Neighbors.NeighborList.RemoveItem: a node that is linked into another list is excluded, since the checks then look at that list's nodes.
- AddressReading.StandardReadsBackIff: the form of section 2.2 of RFC 4291 with an embedded IPv4 address is not part of the definition; its dots never appear in the printed text.
- Project files, build scripts and Windows-specific code.
