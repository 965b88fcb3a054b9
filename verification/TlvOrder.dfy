/** What the order, repetition and unknown types of TLVs mean for the parse: only the last
    TLV of each known type matters. */
module TlvOrder {
  import opened Bytes
  import opened Wrappers
  import opened StreamReading
  import opened Packets
  import opened PacketParsing
  import opened PacketSerializing
  import opened ParserLocality

  // ---------- Well-formed TLVs ----------

  function TagOf(t: seq<Byte>): U16
    requires |t| >= 4
  {
    Word16(t[0], t[1])
  }

  function LengthOf(t: seq<Byte>): U16
    requires |t| >= 4
  {
    Word16(t[2], t[3])
  }

  /** The TLV's length field is its extent, and its payload decodes within it. */
  predicate WellFormed(t: seq<Byte>) {
    |t| >= 4 && LengthOf(t) == |t| && ReadPayload(t, 4, TagOf(t), LengthOf(t)).Got?
  }

  function ValueOf(t: seq<Byte>): TlvValue {
    if WellFormed(t) then ReadPayload(t, 4, TagOf(t), LengthOf(t)).value else Ignored
  }

  predicate AllWellFormed(ts: seq<seq<Byte>>) {
    forall i | 0 <= i < |ts| :: WellFormed(ts[i])
  }

  type Decoder = seq<Byte> -> TlvValue

  /** The packet after the TLVs' values are stored in turn. */
  function Effect(value: Decoder, p: Packet, ts: seq<seq<Byte>>): Packet {
    if ts == [] then p else Apply(Effect(value, p, ts[..|ts| - 1]), value(ts[|ts| - 1]))
  }

  // ---------- The loop only looks forward ----------

  lemma TlvsAgree(d: seq<Byte>, i: nat, e: seq<Byte>, j: nat)
    requires Sees(d, i, e, j) && |d| - i == |e| - j
    ensures Follows(ReadTlv(d, i), i, ReadTlv(e, j), j)
  {
    NumbersAreLocal(d, i, e, j);
    if i + 4 <= |d| {
      SeesLater(d, i, e, j, 2);
      NumbersAreLocal(d, i + 2, e, j + 2);
      SeesLater(d, i, e, j, 4);
      PayloadIsLocal(d, i + 4, e, j + 4, Read16(d, i).value, Read16(d, i + 2).value);
    }
  }

  lemma SeesBack(d: seq<Byte>, i: nat, e: seq<Byte>, j: nat)
    requires Sees(d, i, e, j) && |d| - i == |e| - j
    ensures Sees(e, j, d, i)
  {
    forall k | j <= k < |e| ensures e[k] == d[k + (i - j)] {
      assert d[k + (i - j)] == e[k + (i - j) + (j - i)];
    }
  }

  predicate Agrees(read: Reader<TlvValue>, d: seq<Byte>, i: nat, e: seq<Byte>, j: nat) {
    match read(d, i)
    case Failed => read(e, j).Failed?
    case Got(v, n) => i <= n && read(e, j) == Got(v, j + (n - i))
  }

  /** A read that finds the same in front of equal remaining bytes. */
  ghost predicate LooksForward(read: Reader<TlvValue>) {
    forall d, i: nat, e, j: nat {:trigger Agrees(read, d, i, e, j)} ::
      Sees(d, i, e, j) && |d| - i == |e| - j ==> Agrees(read, d, i, e, j)
  }

  /** Equal remaining bytes, equal outcome. */
  lemma {:induction false} LoopLooksForward(read: Reader<TlvValue>, d: seq<Byte>, i: nat, e: seq<Byte>, j: nat, p: Packet)
    requires LooksForward(read) && Sees(d, i, e, j) && |d| - i == |e| - j
    ensures Loop(read, d, i, p) == Loop(read, e, j, p)
    decreases |d| - i
  {
    assert Agrees(read, d, i, e, j);
    var r := read(d, i);
    if r.Got? && i < r.next <= |d| {
      SeesLater(d, i, e, j, r.next - i);
      LoopLooksForward(read, d, r.next, e, j + (r.next - i), Apply(p, r.value));
    }
  }

  lemma LoopGoesOn(read: Reader<TlvValue>, d: seq<Byte>, v: TlvValue, next: nat, q: Packet)
    requires LooksForward(read) && d != [] && next <= |d| && read(d, 0) == Got(v, next)
    ensures Loop(read, d, 0, q) == if next == 0 then Diverges else Loop(read, d[next..], 0, Apply(q, v))
  {
    if next > 0 {
      LoopLooksForward(read, d, next, d[next..], 0, Apply(q, v));
    }
  }

  lemma TlvsLookForward()
    ensures LooksForward(ReadTlv)
  {
    forall d, i: nat, e, j: nat | Sees(d, i, e, j) && |d| - i == |e| - j
      ensures Agrees(ReadTlv, d, i, e, j)
    {
      TlvsAgree(d, i, e, j);
      SeesBack(d, i, e, j);
      TlvsAgree(e, j, d, i);
    }
  }

  lemma DropPrefix(a: seq<Byte>, rest: seq<Byte>, p: Packet)
    ensures ParseLoop(a + rest, |a|, p) == ParseLoop(rest, 0, p)
  {
    TlvsLookForward();
    LoopLooksForward(ReadTlv, a + rest, |a|, rest, 0, p);
  }

  lemma OneTlv(t: seq<Byte>, rest: seq<Byte>, p: Packet)
    requires WellFormed(t)
    ensures ParseLoop(t + rest, 0, p) == ParseLoop(rest, 0, Apply(p, ValueOf(t)))
  {
    var d := t + rest;
    SeesLater(t, 0, d, 0, 4);
    PayloadIsLocal(t, 4, d, 4, TagOf(t), LengthOf(t));
    assert ReadTlv(d, 0) == Got(ValueOf(t), |t|);
    DropPrefix(t, rest, Apply(p, ValueOf(t)));
  }

  /** Well-formed TLVs take effect one by one, whatever bytes follow them. */
  lemma {:induction false} TlvsTakeEffect(ts: seq<seq<Byte>>, rest: seq<Byte>, p: Packet)
    requires AllWellFormed(ts)
    ensures ParseLoop(Flatten(ts) + rest, 0, p) == ParseLoop(rest, 0, Effect(ValueOf, p, ts))
  {
    if ts == [] {
      assert Flatten(ts) + rest == rest;
    } else {
      var t := ts[|ts| - 1];
      assert Flatten(ts) + rest == Flatten(ts[..|ts| - 1]) + (t + rest);
      TlvsTakeEffect(ts[..|ts| - 1], t + rest, p);
      OneTlv(t, rest, Effect(ValueOf, p, ts[..|ts| - 1]));
    }
  }

  /** The packet that a frame header starts. */
  function HeaderPacket(header: seq<Byte>): Packet
    requires |header| == 4
  {
    NewPacket(header[0], header[1], Word16(header[2], header[3]))
  }

  lemma ParseBehindHeader(header: seq<Byte>, body: seq<Byte>)
    requires |header| == 4
    ensures Parse(header + body, 0) == ParseLoop(body, 0, HeaderPacket(header))
  {
    DropPrefix(header, body, HeaderPacket(header));
  }

  lemma ConcatAssociates(a: seq<Byte>, b: seq<Byte>, c: seq<Byte>)
    ensures a + b + c == a + (b + c)
  {
  }

  lemma BodyTakesEffect(header: seq<Byte>, ts: seq<seq<Byte>>, rest: seq<Byte>, body: seq<Byte>)
    requires |header| == 4 && AllWellFormed(ts) && body == Flatten(ts) + rest
    ensures Parse(header + body, 0) == ParseLoop(rest, 0, Effect(ValueOf, HeaderPacket(header), ts))
  {
    ParseBehindHeader(header, body);
    TlvsTakeEffect(ts, rest, HeaderPacket(header));
  }

  lemma FrameTakesEffect(header: seq<Byte>, ts: seq<seq<Byte>>, rest: seq<Byte>)
    requires |header| == 4 && AllWellFormed(ts)
    ensures Parse(header + Flatten(ts) + rest, 0) == ParseLoop(rest, 0, Effect(ValueOf, HeaderPacket(header), ts))
  {
    BodyTakesEffect(header, ts, rest, Flatten(ts) + rest);
    ConcatAssociates(header, Flatten(ts), rest);
  }

  // ---------- Only the last TLV of each type counts ----------

  predicate IsKnown(tag: U16) {
    || IsText(tag) || IsAddressList(tag) || IsByte(tag) || tag == CAPABILITIES || tag == NATIVE_VLAN
    || tag in {ODR_PREFIXES, CLUSTER_MANAGEMENT, POWER_AVAILABLE}
  }

  /** The type whose TLVs carry such a value; Ignored belongs to none. */
  function Kind(v: TlvValue): int {
    match v
    case DeviceId(_) => DEVICE_ID
    case Addresses(_) => ADDRESSES
    case PortId(_) => PORT_ID
    case Capabilities(_) => CAPABILITIES
    case SoftwareVersion(_) => SOFTWARE_VERSION
    case Platform(_) => PLATFORM
    case OdrPrefixes(_) => ODR_PREFIXES
    case ClusterManagement(_) => CLUSTER_MANAGEMENT
    case VtpManagementDomain(_) => VTP_MANAGEMENT_DOMAIN
    case NativeVlan(_) => NATIVE_VLAN
    case Duplex(_) => DUPLEX
    case TrustBitmap(_) => TRUST_BITMAP
    case UntrustedPortCos(_) => UNTRUSTED_PORT_COS
    case ManagementAddresses(_) => MANAGEMENT_ADDRESSES
    case PowerAvailable(_) => POWER_AVAILABLE
    case StartupNativeVlan(_) => STARTUP_NATIVE_VLAN
    case Ignored => -1
  }

  lemma KindOfPayload(d: seq<Byte>, pos: nat, tag: U16, length: U16)
    ensures var r := ReadPayload(d, pos, tag, length);
            r.Got? ==> Kind(r.value) == if IsKnown(tag) then tag else -1
  {
  }

  /** What the packet holds of one type; None where the field is absent. */
  function Field(p: Packet, tag: U16): Option<TlvValue> {
    if tag == DUPLEX then Some(Duplex(p.duplex))
    else if tag == DEVICE_ID then (var v :- p.deviceId; Some(DeviceId(v)))
    else if tag == ADDRESSES then (var v :- p.addresses; Some(Addresses(v)))
    else if tag == PORT_ID then (var v :- p.portId; Some(PortId(v)))
    else if tag == CAPABILITIES then (var v :- p.capabilities; Some(Capabilities(v)))
    else if tag == SOFTWARE_VERSION then (var v :- p.softwareVersion; Some(SoftwareVersion(v)))
    else if tag == PLATFORM then (var v :- p.platform; Some(Platform(v)))
    else if tag == ODR_PREFIXES then (var v :- p.odrPrefixes; Some(OdrPrefixes(v)))
    else if tag == CLUSTER_MANAGEMENT then (var v :- p.cluster; Some(ClusterManagement(v)))
    else if tag == VTP_MANAGEMENT_DOMAIN then (var v :- p.vtpManagementDomain; Some(VtpManagementDomain(v)))
    else if tag == NATIVE_VLAN then (var v :- p.nativeVlan; Some(NativeVlan(v)))
    else if tag == TRUST_BITMAP then (var v :- p.trustBitmap; Some(TrustBitmap(v)))
    else if tag == UNTRUSTED_PORT_COS then (var v :- p.untrustedPortCos; Some(UntrustedPortCos(v)))
    else if tag == MANAGEMENT_ADDRESSES then (var v :- p.managementAddresses; Some(ManagementAddresses(v)))
    else if tag == POWER_AVAILABLE then (var v :- p.power; Some(PowerAvailable(v)))
    else if tag == STARTUP_NATIVE_VLAN then (var v :- p.startupNativeVlan; Some(StartupNativeVlan(v)))
    else None
  }

  lemma ApplyChangesOneField(p: Packet, v: TlvValue, tag: U16)
    requires IsKnown(tag)
    ensures Field(Apply(p, v), tag) == if Kind(v) == tag then Some(v) else Field(p, tag)
  {
  }

  predicate SameHeader(p: Packet, q: Packet) {
    p.version == q.version && p.ttl == q.ttl && p.checksum == q.checksum
  }

  predicate SameField(p: Packet, q: Packet, tag: U16) {
    Field(p, tag) == Field(q, tag)
  }

  lemma TextFieldsEqual(p: Packet, q: Packet)
    requires SameField(p, q, DEVICE_ID) && SameField(p, q, PORT_ID) && SameField(p, q, SOFTWARE_VERSION)
    requires SameField(p, q, PLATFORM) && SameField(p, q, VTP_MANAGEMENT_DOMAIN) && SameField(p, q, STARTUP_NATIVE_VLAN)
    ensures p.deviceId == q.deviceId && p.portId == q.portId && p.softwareVersion == q.softwareVersion
    ensures p.platform == q.platform && p.vtpManagementDomain == q.vtpManagementDomain
    ensures p.startupNativeVlan == q.startupNativeVlan
  {
  }

  lemma NumberFieldsEqual(p: Packet, q: Packet)
    requires SameField(p, q, CAPABILITIES) && SameField(p, q, NATIVE_VLAN) && SameField(p, q, DUPLEX)
    requires SameField(p, q, TRUST_BITMAP) && SameField(p, q, UNTRUSTED_PORT_COS)
    ensures p.capabilities == q.capabilities && p.nativeVlan == q.nativeVlan && p.duplex == q.duplex
    ensures p.trustBitmap == q.trustBitmap && p.untrustedPortCos == q.untrustedPortCos
  {
  }

  lemma ListFieldsEqual(p: Packet, q: Packet)
    requires SameField(p, q, ADDRESSES) && SameField(p, q, MANAGEMENT_ADDRESSES) && SameField(p, q, ODR_PREFIXES)
    requires SameField(p, q, CLUSTER_MANAGEMENT) && SameField(p, q, POWER_AVAILABLE)
    ensures p.addresses == q.addresses && p.managementAddresses == q.managementAddresses
    ensures p.odrPrefixes == q.odrPrefixes && p.cluster == q.cluster && p.power == q.power
  {
  }

  lemma FieldsDeterminePacket(p: Packet, q: Packet)
    requires SameHeader(p, q) && forall tag: U16 | IsKnown(tag) :: SameField(p, q, tag)
    ensures p == q
  {
    TextFieldsEqual(p, q);
    NumberFieldsEqual(p, q);
    ListFieldsEqual(p, q);
  }

  predicate AllTagged(ts: seq<seq<Byte>>) {
    forall i | 0 <= i < |ts| :: |ts[i]| >= 4
  }

  /** The last TLV of a type, if there is one. */
  function LastOf(ts: seq<seq<Byte>>, tag: U16): (r: Option<seq<Byte>>)
    requires AllTagged(ts)
    ensures r.Some? ==> r.value in ts && TagOf(r.value) == tag
  {
    if ts == [] then None
    else if TagOf(ts[|ts| - 1]) == tag then Some(ts[|ts| - 1])
    else LastOf(ts[..|ts| - 1], tag)
  }

  /** Each TLV decodes to a value of its own known type, or to nothing. */
  predicate KindsMatch(value: Decoder, ts: seq<seq<Byte>>) {
    && AllTagged(ts)
    && forall i | 0 <= i < |ts| :: Kind(value(ts[i])) == if IsKnown(TagOf(ts[i])) then TagOf(ts[i]) else -1
  }

  lemma WellFormedKindsMatch(ts: seq<seq<Byte>>)
    requires AllWellFormed(ts)
    ensures KindsMatch(ValueOf, ts)
  {
    forall i | 0 <= i < |ts|
      ensures |ts[i]| >= 4 && Kind(ValueOf(ts[i])) == if IsKnown(TagOf(ts[i])) then TagOf(ts[i]) else -1
    {
      KindOfPayload(ts[i], 4, TagOf(ts[i]), LengthOf(ts[i]));
    }
  }

  /** A field ends up with the value of the last TLV of its type, or stays as it was. */
  lemma {:induction false} FieldOfEffect(value: Decoder, p: Packet, ts: seq<seq<Byte>>, tag: U16)
    requires KindsMatch(value, ts) && IsKnown(tag)
    ensures SameHeader(Effect(value, p, ts), p)
    ensures Field(Effect(value, p, ts), tag)
            == if LastOf(ts, tag).Some? then Some(value(LastOf(ts, tag).value)) else Field(p, tag)
  {
    if ts == [] {
    } else {
      FieldOfEffect(value, p, ts[..|ts| - 1], tag);
      ApplyChangesOneField(Effect(value, p, ts[..|ts| - 1]), value(ts[|ts| - 1]), tag);
    }
  }

  lemma SameLastsSameEffect(value: Decoder, p: Packet, ts: seq<seq<Byte>>, us: seq<seq<Byte>>)
    requires KindsMatch(value, ts) && KindsMatch(value, us)
    requires forall tag: U16 | IsKnown(tag) :: LastOf(ts, tag) == LastOf(us, tag)
    ensures Effect(value, p, ts) == Effect(value, p, us)
  {
    forall tag: U16 | IsKnown(tag) ensures SameField(Effect(value, p, ts), Effect(value, p, us), tag) {
      FieldOfEffect(value, p, ts, tag);
      FieldOfEffect(value, p, us, tag);
    }
    FieldOfEffect(value, p, ts, DUPLEX);
    FieldOfEffect(value, p, us, DUPLEX);
    FieldsDeterminePacket(Effect(value, p, ts), Effect(value, p, us));
  }

  /** Two TLV sequences with the same last TLV of every known type parse alike, under any
      header and before any further bytes. */
  lemma OnlyLastOfEachTypeMatters(header: seq<Byte>, ts: seq<seq<Byte>>, us: seq<seq<Byte>>, rest: seq<Byte>)
    requires |header| == 4 && AllWellFormed(ts) && AllWellFormed(us)
    requires forall tag: U16 | IsKnown(tag) :: LastOf(ts, tag) == LastOf(us, tag)
    ensures Parse(header + Flatten(ts) + rest, 0) == Parse(header + Flatten(us) + rest, 0)
  {
    FrameTakesEffect(header, ts, rest);
    FrameTakesEffect(header, us, rest);
    WellFormedKindsMatch(ts);
    WellFormedKindsMatch(us);
    SameLastsSameEffect(ValueOf, HeaderPacket(header), ts, us);
  }

  // ---------- Three consequences ----------

  /** No two TLVs share a known type. */
  predicate DistinctTypes(ts: seq<seq<Byte>>)
    requires AllTagged(ts)
  {
    forall i, j | 0 <= i < j < |ts| :: IsKnown(TagOf(ts[i])) ==> TagOf(ts[i]) != TagOf(ts[j])
  }

  lemma {:induction false} LastOfDistinct(ts: seq<seq<Byte>>, tag: U16, i: nat)
    requires AllTagged(ts) && DistinctTypes(ts) && IsKnown(tag) && i < |ts| && TagOf(ts[i]) == tag
    ensures LastOf(ts, tag) == Some(ts[i])
  {
    if i < |ts| - 1 {
      LastOfDistinct(ts[..|ts| - 1], tag, i);
    }
  }

  lemma CountTwice(ts: seq<seq<Byte>>, i: nat, j: nat)
    requires i < j < |ts| && ts[i] == ts[j]
    ensures multiset(ts)[ts[i]] >= 2
  {
    assert ts == ts[..j] + [ts[j]] + ts[j + 1..];
    assert ts[..j][i] == ts[i];
    assert ts[i] in multiset(ts[..j]);
  }

  lemma {:induction false} CountAtMostOnce(ts: seq<seq<Byte>>, t: seq<Byte>)
    requires AllTagged(ts) && DistinctTypes(ts) && |t| >= 4 && IsKnown(TagOf(t))
    ensures multiset(ts)[t] <= 1
  {
    if ts == [] {
    } else {
      var n := |ts| - 1;
      CountAtMostOnce(ts[..n], t);
      assert ts == ts[..n] + [ts[n]];
      if ts[n] == t {
        assert t !in ts[..n];
      }
    }
  }

  lemma PermutationKeepsTagged(ts: seq<seq<Byte>>, us: seq<seq<Byte>>)
    requires AllTagged(ts) && multiset(ts) == multiset(us)
    ensures AllTagged(us)
    ensures forall t :: t in ts <==> t in us
  {
    forall t ensures t in ts <==> t in us {
      assert t in multiset(ts) <==> t in multiset(us);
    }
    forall i | 0 <= i < |us| ensures |us[i]| >= 4 {
      assert us[i] in ts;
    }
  }

  lemma PermutationKeepsDistinct(ts: seq<seq<Byte>>, us: seq<seq<Byte>>)
    requires AllTagged(ts) && DistinctTypes(ts) && multiset(ts) == multiset(us)
    ensures AllTagged(us) && DistinctTypes(us)
  {
    PermutationKeepsTagged(ts, us);
    forall i, j | 0 <= i < j < |us| && IsKnown(TagOf(us[i])) ensures TagOf(us[i]) != TagOf(us[j]) {
      if TagOf(us[i]) == TagOf(us[j]) {
        assert us[i] in ts && us[j] in ts;
        var m :| 0 <= m < |ts| && ts[m] == us[i];
        var n :| 0 <= n < |ts| && ts[n] == us[j];
        assert m == n;
        CountTwice(us, i, j);
        CountAtMostOnce(ts, us[i]);
      }
    }
  }

  lemma LastsOfPermutation(ts: seq<seq<Byte>>, us: seq<seq<Byte>>, tag: U16)
    requires AllTagged(ts) && DistinctTypes(ts) && AllTagged(us) && DistinctTypes(us)
    requires (forall t :: t in ts <==> t in us) && IsKnown(tag)
    ensures LastOf(ts, tag) == LastOf(us, tag)
  {
    if LastOf(ts, tag).Some? {
      assert LastOf(ts, tag).value in us;
      var i :| 0 <= i < |us| && us[i] == LastOf(ts, tag).value;
      LastOfDistinct(us, tag, i);
    } else if LastOf(us, tag).Some? {
      assert LastOf(us, tag).value in ts;
      var i :| 0 <= i < |ts| && ts[i] == LastOf(us, tag).value;
      LastOfDistinct(ts, tag, i);
    }
  }

  lemma PermutationKeepsWellFormed(ts: seq<seq<Byte>>, us: seq<seq<Byte>>)
    requires AllWellFormed(ts) && multiset(ts) == multiset(us)
    ensures AllTagged(ts) && AllWellFormed(us)
  {
    forall i | 0 <= i < |us| ensures WellFormed(us[i]) {
      assert us[i] in multiset(us);
      assert us[i] in ts;
    }
  }

  /** Reordering TLVs of pairwise distinct types changes nothing. */
  lemma ReorderingIsInvisible(header: seq<Byte>, ts: seq<seq<Byte>>, us: seq<seq<Byte>>, rest: seq<Byte>)
    requires |header| == 4 && AllWellFormed(ts) && DistinctTypes(ts) && multiset(ts) == multiset(us)
    ensures Parse(header + Flatten(ts) + rest, 0) == Parse(header + Flatten(us) + rest, 0)
  {
    PermutationKeepsWellFormed(ts, us);
    PermutationKeepsTagged(ts, us);
    PermutationKeepsDistinct(ts, us);
    forall tag: U16 | IsKnown(tag) ensures LastOf(ts, tag) == LastOf(us, tag) {
      LastsOfPermutation(ts, us, tag);
    }
    OnlyLastOfEachTypeMatters(header, ts, us, rest);
  }

  /** A well-formed TLV of unknown type can stand at any TLV boundary, even in front of
      bytes that do not parse. */
  lemma UnknownTlvIsTransparent(header: seq<Byte>, ts: seq<seq<Byte>>, u: seq<Byte>, rest: seq<Byte>)
    requires |header| == 4 && AllWellFormed(ts) && WellFormed(u) && !IsKnown(TagOf(u))
    ensures Parse(header + Flatten(ts) + (u + rest), 0) == Parse(header + Flatten(ts) + rest, 0)
  {
    FrameTakesEffect(header, ts, u + rest);
    FrameTakesEffect(header, ts, rest);
    UnknownTlvDoesNothing(u, rest, Effect(ValueOf, HeaderPacket(header), ts));
  }

  lemma UnknownTlvDoesNothing(u: seq<Byte>, rest: seq<Byte>, p: Packet)
    requires WellFormed(u) && !IsKnown(TagOf(u))
    ensures ParseLoop(u + rest, 0, p) == ParseLoop(rest, 0, p)
  {
    OneTlv(u, rest, p);
    KindOfPayload(u, 4, TagOf(u), LengthOf(u));
  }

  lemma {:induction false} LastOfAppend(ts: seq<seq<Byte>>, us: seq<seq<Byte>>, tag: U16)
    requires AllTagged(ts) && AllTagged(us) && AllTagged(ts + us)
    ensures LastOf(ts + us, tag) == if LastOf(us, tag).Some? then LastOf(us, tag) else LastOf(ts, tag)
  {
    if us == [] {
      assert ts + us == ts;
    } else {
      assert (ts + us)[..|ts + us| - 1] == ts + us[..|us| - 1];
      LastOfAppend(ts, us[..|us| - 1], tag);
    }
  }

  lemma {:induction false} LastOfPresent(us: seq<seq<Byte>>, i: nat)
    requires AllTagged(us) && i < |us|
    ensures LastOf(us, TagOf(us[i])).Some?
  {
    if i < |us| - 1 {
      LastOfPresent(us[..|us| - 1], i);
    }
  }

  lemma LastsWithoutEarlier(ts: seq<seq<Byte>>, t: seq<Byte>, us: seq<seq<Byte>>, i: nat, tag: U16)
    requires AllTagged(ts) && |t| >= 4 && AllTagged(us) && i < |us| && TagOf(us[i]) == TagOf(t)
    ensures LastOf(ts + [t] + us, tag) == LastOf(ts + us, tag)
  {
    LastOfAppend(ts, us, tag);
    LastOfAppend(ts + [t], us, tag);
    if LastOf(us, tag).None? {
      LastOfPresent(us, i);
      assert (ts + [t])[..|ts|] == ts;
    }
  }

  lemma WellFormedAppend(ts: seq<seq<Byte>>, us: seq<seq<Byte>>)
    requires AllWellFormed(ts) && AllWellFormed(us)
    ensures AllWellFormed(ts + us)
  {
  }

  /** For a repeated type the last TLV wins: the earlier one might as well be absent. */
  lemma LastTlvWins(header: seq<Byte>, ts: seq<seq<Byte>>, t: seq<Byte>, us: seq<seq<Byte>>, i: nat, rest: seq<Byte>)
    requires |header| == 4 && AllWellFormed(ts) && WellFormed(t) && AllWellFormed(us)
    requires i < |us| && TagOf(us[i]) == TagOf(t)
    ensures Parse(header + Flatten(ts + [t] + us) + rest, 0) == Parse(header + Flatten(ts + us) + rest, 0)
  {
    WellFormedAppend(ts, us);
    WellFormedAppend(ts, [t]);
    WellFormedAppend(ts + [t], us);
    forall tag: U16 | IsKnown(tag) ensures LastOf(ts + [t] + us, tag) == LastOf(ts + us, tag) {
      LastsWithoutEarlier(ts, t, us, i, tag);
    }
    OnlyLastOfEachTypeMatters(header, ts + [t] + us, ts + us, rest);
  }
}
