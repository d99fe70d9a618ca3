/** The rule of `openflow_translate.rs`, no flow looser than was requested, on packets: what
    a packet is, when a match accepts it, what each text of an entry asks of it, and exactly
    when every packet accepted is one that was asked for. */
module PacketRule {
  import opened Text
  import opened Ordering
  import opened Numerals
  import opened OpenFlow
  import opened FlowMatch
  import opened FieldTexts

  // ---------------------------------------------------------------- packets

  datatype Transport =
    | Tcp(src: nat, dst: nat, flags: bv16)
    | Udp(src: nat, dst: nat)
    | OtherProto(number: nat)

  datatype Network =
    | Ipv4(src: seq<nat>, dst: seq<nat>, payload: Transport)
    | Ipv6(payload: Transport)
    | OtherType(number: nat)

  /** A packet as the switch sees it, with the port it came in by, the id of its VLAN tag if
      it has one, and what connection tracking says of it. */
  datatype Packet = Packet(inPort: nat, ethSrc: seq<nat>, vlan: Option<nat>, network: Network, ctState: bv32)

  predicate IsTransport(t: Transport) { t.OtherProto? ==> t.number != 6 && t.number != 17 }

  predicate IsPacket(p: Packet) {
    (p.vlan.Some? ==> p.vlan.value < 0x1000) &&
    match p.network
    case Ipv4(src, dst, payload) => AreOctets(src, 4) && AreOctets(dst, 4) && IsTransport(payload)
    case Ipv6(payload) => IsTransport(payload)
    case OtherType(number) => number != 0x0800 && number != 0x86dd
  }

  function EthTypeOf(p: Packet): nat {
    match p.network case Ipv4(_, _, _) => 0x0800 case Ipv6(_) => 0x86dd case OtherType(number) => number
  }

  function ProtoNumber(t: Transport): nat {
    match t case Tcp(_, _, _) => 6 case Udp(_, _) => 17 case OtherProto(number) => number
  }

  function IpProtoOf(p: Packet): Option<nat> {
    match p.network
    case Ipv4(_, _, payload) => Some(ProtoNumber(payload))
    case Ipv6(payload) => Some(ProtoNumber(payload))
    case OtherType(_) => None
  }

  predicate IsTcp(p: Packet) { !p.network.OtherType? && p.network.payload.Tcp? }

  predicate IsUdp(p: Packet) { !p.network.OtherType? && p.network.payload.Udp? }

  // ---------------------------------------------------------------- accepting

  /** The bit worth two to the `k`. */
  function BitOf(a: nat, k: nat): nat { if k == 0 then a % 2 else BitOf(a / 2, k - 1) }

  /** The bits of an address, the first one of the first octet in front. */
  function AddressBit(octets: seq<nat>, j: nat): nat
    requires |octets| == 4 && j < 32
  {
    BitOf(octets[j / 8], 7 - j % 8)
  }

  predicate SameLeading(a: seq<nat>, b: seq<nat>, bits: nat) {
    |a| == 4 && |b| == 4 && forall j | 0 <= j < bits && j < 32 :: AddressBit(a, j) == AddressBit(b, j)
  }

  /** Equal where the mask has a one. */
  predicate SameBits(a: bv32, b: bv32, mask: bv32) { a & mask == b & mask }

  /** A field of a packet has the value of the match, by section 7.2.3 of the OpenFlow Switch
      Specification 1.3.0: a VLAN id is compared with a bit that says a tag is present, and
      fields the packet does not have do not match. */
  predicate FieldAgrees(f: MatchField, v: MatchValue, p: Packet) {
    match f
    case InPortField => v == Number(p.inPort)
    case EthType => v == Number(EthTypeOf(p))
    case VlanVid => v == Number(if p.vlan.Some? then p.vlan.value + 0x1000 else 0)
    case EthSrc => v == Mac(p.ethSrc)
    case IpProto => IpProtoOf(p).Some? && v == Number(IpProtoOf(p).value)
    case TcpFlags => IsTcp(p) && v == Flags(p.network.payload.flags)
    case TcpSrcField => IsTcp(p) && v == Number(p.network.payload.src)
    case TcpDstField => IsTcp(p) && v == Number(p.network.payload.dst)
    case UdpSrcField => IsUdp(p) && v == Number(p.network.payload.src)
    case UdpDstField => IsUdp(p) && v == Number(p.network.payload.dst)
    case Ipv4Src => p.network.Ipv4? && v.Prefix? && SameLeading(v.address, p.network.src, v.length)
    case Ipv4Dst => p.network.Ipv4? && v.Prefix? && SameLeading(v.address, p.network.dst, v.length)
    case CtState => v.Masked? && SameBits(p.ctState, v.value, v.mask)
  }

  /** Every field of a match as sent agrees. */
  predicate Accepts(sent: Match, p: Packet) {
    forall f | f in sent :: FieldAgrees(f, sent[f], p)
  }

  // ---------------------------------------------------------------- asking

  /** What a key with this text asks of a packet; `tcp` and `udp` say which of these markers
      stand beside a transport port. */
  ghost predicate Wants(k: string, v: string, tcp: bool, udp: bool, ports: PortMap, p: Packet) {
    match k
    case "arp" => EthTypeOf(p) == 0x0806
    case "ip" => p.network.Ipv4?
    case "tcp" => p.network.Ipv4? && IsTcp(p)
    case "udp" => p.network.Ipv4? && IsUdp(p)
    case "icmp" => p.network.Ipv4? && IpProtoOf(p) == Some(1)
    case "icmp6" => p.network.Ipv6? && IpProtoOf(p) == Some(58)
    case "in_port" => NamesPort(v, ports, p.inPort)
    case "dl_type" => NamesType(v, EthTypeOf(p))
    case "dl_vlan" => p.vlan.Some? && WritesNumber(v, 10, p.vlan.value)
    case "dl_src" => NamesMac(v, p.ethSrc)
    case "tcp_flags" => NoFlags(v) || (IsTcp(p) && HasTcpFlags(p.network.payload.flags, v))
    case "tp_src" =>
      (tcp ==> IsTcp(p) && WritesNumber(v, 10, p.network.payload.src)) &&
      (udp ==> IsUdp(p) && WritesNumber(v, 10, p.network.payload.src))
    case "tp_dst" =>
      (tcp ==> IsTcp(p) && WritesNumber(v, 10, p.network.payload.dst)) &&
      (udp ==> IsUdp(p) && WritesNumber(v, 10, p.network.payload.dst))
    case "nw_src" => p.network.Ipv4? && InNetwork(v, p.network.src)
    case "nw_dst" => p.network.Ipv4? && InNetwork(v, p.network.dst)
    case "ct_state" => HasState(p.ctState, v)
    case _ => false
  }

  /** An address that begins as the network does. */
  ghost predicate InNetwork(v: string, address: seq<nat>) {
    exists octets, bits :: NamesNetwork(v, octets, bits) && SameLeading(octets, address, bits)
  }

  ghost predicate Meets(k: string, fields: map<string, string>, ports: PortMap, p: Packet)
    requires k in fields
  {
    Wants(k, fields[k], "tcp" in fields, "udp" in fields, ports, p)
  }

  /** A packet is what every key asks for. */
  ghost predicate MeetsAll(fields: map<string, string>, ports: PortMap, p: Packet) {
    forall k | k in fields :: Meets(k, fields, ports, p)
  }

  // ---------------------------------------------------------------- one key

  /** What a key other than a marker sends, if anything. */
  function SentFor(f: FieldKey, v: string, proto: Option<nat>, ports: PortMap): Option<MatchValue>
    requires SlotOf(f, proto).Some? && ValueOf(f, v, ports).Some?
  {
    SentValue(SlotOf(f, proto).value, ValueOf(f, v, ports).value)
  }

  /** The field agrees, or is not sent. */
  predicate AgreesIfSent(f: FieldKey, v: string, proto: Option<nat>, ports: PortMap, p: Packet)
    requires SlotOf(f, proto).Some? && ValueOf(f, v, ports).Some?
  {
    var sent := SentFor(f, v, proto, ports);
    sent.Some? ==> FieldAgrees(SlotOf(f, proto).value, sent.value, p)
  }

  lemma PortKey(v: string, tcp: bool, udp: bool, proto: Option<nat>, ports: PortMap, p: Packet)
    requires ValueOf(KInPort, v, ports).Some?
    ensures Wants("in_port", v, tcp, udp, ports, p) <==> AgreesIfSent(KInPort, v, proto, ports, p)
  {
    hide ResolvePort, NamesPort;
    PortIff(v, ports, p.inPort);
  }

  lemma TypeKey(v: string, tcp: bool, udp: bool, proto: Option<nat>, ports: PortMap, p: Packet)
    requires ValueOf(KDlType, v, ports).Some?
    ensures Wants("dl_type", v, tcp, udp, ports, p) <==> AgreesIfSent(KDlType, v, proto, ports, p)
  {
    hide ParseEthType, NamesType;
    TypeIff(v, EthTypeOf(p));
  }

  /** The id a text asks for, if it asks for one at all. */
  function VlanAsked(fields: map<string, string>): Option<nat> {
    if "dl_vlan" in fields then ParseUnsigned(fields["dl_vlan"], 10, U16) else None
  }

  lemma VlanKey(v: string, tcp: bool, udp: bool, proto: Option<nat>, ports: PortMap, p: Packet)
    requires ValueOf(KDlVlan, v, ports).Some? && IsPacket(p)
    ensures
      var id := ParseUnsigned(v, 10, U16);
      id.Some? &&
      (Wants("dl_vlan", v, tcp, udp, ports, p) <==> p.vlan == id) &&
      (AgreesIfSent(KDlVlan, v, proto, ports, p) <==> p.vlan.Some? && p.vlan.value + 0x1000 == Tagged(id.value)) &&
      (id.value < 0x1000 ==> Tagged(id.value) == id.value + 0x1000)
  {
    hide ParseUnsigned, WritesNumber;
    if p.vlan.Some? { NumberIff(v, 10, U16, p.vlan.value); }
  }

  lemma MacKey(v: string, tcp: bool, udp: bool, proto: Option<nat>, ports: PortMap, p: Packet)
    requires ValueOf(KDlSrc, v, ports).Some?
    ensures Wants("dl_src", v, tcp, udp, ports, p) <==> AgreesIfSent(KDlSrc, v, proto, ports, p)
  {
    hide ParseMac, NamesMac;
    MacIff(v, p.ethSrc);
  }

  lemma StateKey(v: string, tcp: bool, udp: bool, proto: Option<nat>, ports: PortMap, p: Packet)
    requires ValueOf(KCtState, v, ports).Some?
    ensures Wants("ct_state", v, tcp, udp, ports, p) <==> AgreesIfSent(KCtState, v, proto, ports, p)
  {
    hide OrCtFlags, HasState, SameBits, Covers;
    StateIff(v, p.ctState);
    var x := OrCtFlags(Split(v, '+')).value;
    MaskOfItself(p.ctState, x);
    NothingCovers(p.ctState, x);
  }

  lemma MaskOfItself(state: bv32, x: bv32)
    ensures SameBits(state, x, x) <==> Covers(state, x)
  {
  }

  lemma NothingCovers(state: bv32, x: bv32)
    ensures x == 0 ==> Covers(state, x)
  {
  }

  lemma TransportKey(f: FieldKey, v: string, tcp: bool, udp: bool, proto: Option<nat>, ports: PortMap, p: Packet)
    requires f == KTpSrc || f == KTpDst
    requires SlotOf(f, proto).Some? && ValueOf(f, v, ports).Some?
    requires (proto == Some(6) ==> tcp) && (proto == Some(17) ==> udp)
    ensures
      var k := if f == KTpSrc then "tp_src" else "tp_dst";
      (Wants(k, v, tcp, udp, ports, p) ==> AgreesIfSent(f, v, proto, ports, p)) &&
      (!(tcp && udp) ==> (Wants(k, v, tcp, udp, ports, p) <==> AgreesIfSent(f, v, proto, ports, p)))
  {
    hide ParseUnsigned, WritesNumber;
    var port := ParseUnsigned(v, 10, U16).value;
    forall n: nat ensures WritesNumber(v, 10, n) <==> n == port { OnlyNumber(v, n); }
  }

  lemma OnlyNumber(v: string, n: nat)
    requires ParseUnsigned(v, 10, U16).Some?
    ensures WritesNumber(v, 10, n) <==> ParseUnsigned(v, 10, U16) == Some(n)
  {
    hide ParseUnsigned, WritesNumber;
    var m := ParseUnsigned(v, 10, U16).value;
    NumberIff(v, 10, U16, m);
    NumberIff(v, 10, U16, n);
    if WritesNumber(v, 10, n) { UniqueNumber(v, 10, m, n); }
  }

  lemma InNetworkIff(v: string, octets: seq<nat>, bits: nat, address: seq<nat>)
    requires ParseCidr(v) == Some((octets, bits))
    ensures InNetwork(v, address) <==> SameLeading(octets, address, bits)
  {
    hide ParseCidr, NamesNetwork, SameLeading;
    NetworkIff(v, octets, bits);
    forall o: seq<nat>, n: nat | NamesNetwork(v, o, n) ensures o == octets && n == bits { NetworkIff(v, o, n); }
  }

  /** A prefix as sent, no field or the whole address at most, says the same. */
  lemma ClampedPrefix(octets: seq<nat>, address: seq<nat>, bits: nat)
    requires |octets| == 4 && |address| == 4
    ensures bits == 0 ==> SameLeading(octets, address, bits)
    ensures bits > 32 ==> (SameLeading(octets, address, bits) <==> SameLeading(octets, address, 32))
  {
    hide AddressBit;
  }

  lemma NetworkKey(f: FieldKey, v: string, tcp: bool, udp: bool, proto: Option<nat>, ports: PortMap, p: Packet)
    requires (f == KNwSrc || f == KNwDst) && ValueOf(f, v, ports).Some? && IsPacket(p)
    ensures
      var k := if f == KNwSrc then "nw_src" else "nw_dst";
      Wants(k, v, tcp, udp, ports, p) <==> p.network.Ipv4? && AgreesIfSent(f, v, proto, ports, p)
  {
    hide ParseCidr, InNetwork, SameLeading;
    if p.network.Ipv4? {
      var (octets, bits) := ParseCidr(v).value;
      var address := if f == KNwSrc then p.network.src else p.network.dst;
      InNetworkIff(v, octets, bits, address);
      NetworkHasFour(v, octets, bits);
      ClampedPrefix(octets, address, bits);
    }
  }

  lemma NetworkHasFour(v: string, octets: seq<nat>, bits: nat)
    requires ParseCidr(v) == Some((octets, bits))
    ensures AreOctets(octets, 4)
  {
    hide ParseCidr, WritesNumber;
    NetworkIff(v, octets, bits);
  }

  lemma MarkedBySome(fields: map<string, string>)
    ensures MarkedProto(fields) == Some(6) ==> "tcp" in fields
    ensures MarkedProto(fields) == Some(17) ==> "udp" in fields
  {
  }

  /** What one key asks is what it sends, leaving aside what the match cannot say: the TCP
      flags, ids of more than twelve bits, and two transport markers at once. */
  lemma KeyIff(fields: map<string, string>, f: FieldKey, ports: PortMap, p: Packet)
    requires KeyName(f) in fields && IsPacket(p) && f != KTcpFlags
    requires SlotOf(f, MarkedProto(fields)).Some? && ValueOf(f, fields[KeyName(f)], ports).Some?
    ensures
      var v, proto := fields[KeyName(f)], MarkedProto(fields);
      (Meets(KeyName(f), fields, ports, p) ==> AgreesIfSent(f, v, proto, ports, p)) &&
      (AgreesIfSent(f, v, proto, ports, p) && (f == KNwSrc || f == KNwDst ==> p.network.Ipv4?) &&
       (f == KDlVlan ==> !TagOverflows(fields)) && !("tcp" in fields && "udp" in fields) ==>
         Meets(KeyName(f), fields, ports, p))
  {
    hide Wants, AgreesIfSent, SlotOf, ValueOf, MarkedProto, TagOverflows;
    var v, tcp, udp, proto := fields[KeyName(f)], "tcp" in fields, "udp" in fields, MarkedProto(fields);
    MarkedBySome(fields);
    match f
    case KInPort => PortKey(v, tcp, udp, proto, ports, p);
    case KDlType => TypeKey(v, tcp, udp, proto, ports, p);
    case KDlVlan => VlanMeans(fields, ports, p);
    case KDlSrc => MacKey(v, tcp, udp, proto, ports, p);
    case KTpSrc => TransportKey(f, v, tcp, udp, proto, ports, p);
    case KTpDst => TransportKey(f, v, tcp, udp, proto, ports, p);
    case KNwSrc => NetworkKey(f, v, tcp, udp, proto, ports, p);
    case KNwDst => NetworkKey(f, v, tcp, udp, proto, ports, p);
    case KCtState => StateKey(v, tcp, udp, proto, ports, p);
  }

  /** An id of thirteen bits: its upper bit is taken for the one that says a tag is there. */
  predicate TagOverflows(fields: map<string, string>) {
    VlanAsked(fields).Some? && 0x1000 <= VlanAsked(fields).value < 0x2000
  }

  lemma VlanMeans(fields: map<string, string>, ports: PortMap, p: Packet)
    requires "dl_vlan" in fields && IsPacket(p) && ValueOf(KDlVlan, fields["dl_vlan"], ports).Some?
    ensures
      var v, proto := fields["dl_vlan"], MarkedProto(fields);
      VlanAsked(fields).Some? &&
      (Meets("dl_vlan", fields, ports, p) ==> AgreesIfSent(KDlVlan, v, proto, ports, p)) &&
      (AgreesIfSent(KDlVlan, v, proto, ports, p) && !TagOverflows(fields) ==> Meets("dl_vlan", fields, ports, p)) &&
      (Meets("dl_vlan", fields, ports, p) ==> VlanAsked(fields).value < 0x1000) &&
      (AgreesIfSent(KDlVlan, v, proto, ports, p) ==> VlanAsked(fields).value < 0x2000)
  {
    hide Wants, AgreesIfSent, MarkedProto, ParseUnsigned;
    VlanKey(fields["dl_vlan"], "tcp" in fields, "udp" in fields, MarkedProto(fields), ports, p);
  }

  // ---------------------------------------------------------------- types and protocols

  /** The Ethernet type a key asks for, if it asks for one. */
  function AskedType(k: string, v: string): Option<nat> {
    match k
    case "arp" => Some(0x0806)
    case "icmp6" => Some(0x86dd)
    case "ip" | "tcp" | "udp" | "icmp" | "nw_src" | "nw_dst" => Some(0x0800)
    case "dl_type" => ParseEthType(v)
    case _ => None
  }

  /** And the IP protocol. */
  function AskedProto(k: string): Option<nat> {
    match k
    case "tcp" => Some(6) case "udp" => Some(17) case "icmp" => Some(1) case "icmp6" => Some(58) case _ => None
  }

  predicate Compatible(k: string, v: string, l: string, w: string) {
    (AskedType(k, v).Some? && AskedType(l, w).Some? ==> AskedType(k, v) == AskedType(l, w)) &&
    (AskedProto(k).Some? && AskedProto(l).Some? ==> AskedProto(k) == AskedProto(l))
  }

  /** No two keys ask for different types or protocols. */
  predicate KeysAgree(fields: map<string, string>) {
    forall k, l | k in fields && l in fields :: Compatible(k, fields[k], l, fields[l])
  }

  /** A packet a key asks for has the type and the protocol the key asks for. */
  lemma MetType(k: string, fields: map<string, string>, ports: PortMap, p: Packet)
    requires k in fields && Meets(k, fields, ports, p)
    ensures AskedType(k, fields[k]).Some? ==> AskedType(k, fields[k]) == Some(EthTypeOf(p))
    ensures AskedProto(k).Some? ==> AskedProto(k) == IpProtoOf(p)
  {
    hide NamesType, ParseEthType, InNetwork, WritesNumber, HasTcpFlags, HasState;
    if k == "dl_type" { TypeIff(fields[k], EthTypeOf(p)); }
  }

  /** And conversely, for the markers. */
  lemma MarkerMet(k: string, fields: map<string, string>, ports: PortMap, p: Packet)
    requires k in fields && IsMarker(k) && IsPacket(p)
    requires AskedType(k, fields[k]).Some? ==> AskedType(k, fields[k]) == Some(EthTypeOf(p))
    requires AskedProto(k).Some? ==> AskedProto(k) == IpProtoOf(p)
    ensures Meets(k, fields, ports, p)
  {
    hide ParseEthType;
  }

  lemma MarkedTypeIsAsked(fields: map<string, string>) returns (k: string)
    requires MarkedEthType(fields).Some?
    ensures k in fields && IsMarker(k) && AskedType(k, fields[k]) == MarkedEthType(fields)
  {
    k := if "icmp6" in fields then "icmp6" else if "arp" in fields then "arp" else if "ip" in fields then "ip"
         else if "tcp" in fields then "tcp" else if "udp" in fields then "udp" else "icmp";
    hide ParseEthType;
  }

  lemma MarkedProtoIsAsked(fields: map<string, string>) returns (k: string)
    requires MarkedProto(fields).Some?
    ensures k in fields && IsMarker(k) && AskedProto(k) == MarkedProto(fields)
  {
    k := if "icmp6" in fields then "icmp6" else if "tcp" in fields then "tcp" else if "udp" in fields then "udp"
         else "icmp";
  }

  lemma AskedIsMarked(fields: map<string, string>, k: string)
    requires k in fields
    ensures AskedProto(k).Some? ==> MarkedProto(fields).Some?
    ensures IsMarker(k) ==> MarkedEthType(fields).Some?
    ensures AskedType(k, fields[k]).Some? ==> IsMarker(k) || k == "dl_type" || k == "nw_src" || k == "nw_dst"
  {
    hide ParseEthType;
  }

  lemma AddressesAskIp(fields: map<string, string>)
    ensures forall v :: AskedType("nw_src", v) == AskedType("nw_dst", v) == Some(IP_TYPE)
    ensures forall v :: AskedType("dl_type", v) == ParseEthType(v)
    ensures KeyName(KNwSrc) == "nw_src" && KeyName(KNwDst) == "nw_dst" && KeyName(KDlType) == "dl_type"
  {
    hide ParseEthType;
  }

  lemma AgreedIsFinal(fields: map<string, string>, k: string, ports: PortMap)
    requires KeysAgree(fields) && AllTranslate(fields, ports) && k in fields
    ensures !TypeClash(fields)
    ensures AskedType(k, fields[k]).Some? ==> FinalType(fields) == AskedType(k, fields[k])
    ensures AskedProto(k).Some? ==> MarkedProto(fields) == AskedProto(k)
  {
    AddressesAskIp(fields);
    AskedIsMarked(fields, k);
    if MarkedEthType(fields).Some? {
      var l := MarkedTypeIsAsked(fields);
      assert Compatible(k, fields[k], l, fields[l]);
    }
    if MarkedProto(fields).Some? {
      var l := MarkedProtoIsAsked(fields);
      assert Compatible(k, fields[k], l, fields[l]);
    }
    if KeyName(KDlType) in fields { DlTypeTranslates(fields, ports); }
    hide AskedType, AskedProto, ParseEthType, MarkedEthType, MarkedProto, KeyName, IsMarker, AllTranslate;
    forall l | l in fields ensures Compatible(k, fields[k], l, fields[l]) { }
    if "dl_type" in fields {
      forall l | l in fields ensures Compatible("dl_type", fields["dl_type"], l, fields[l]) { }
    }
  }

  lemma SentSlot(m: Match, f: MatchField)
    ensures f in Sent(m) <==> f in m && SentValue(f, m[f]).Some?
    ensures f in Sent(m) ==> Sent(m)[f] == SentValue(f, m[f]).value
  {
    hide SentValue;
  }

  lemma NumbersAreSent(n: nat)
    ensures SentValue(EthType, Number(n)) == SentValue(IpProto, Number(n)) == Some(Number(n))
    ensures forall v :: SentValue(TcpFlags, v) == None
  {
  }

  lemma TcpFlagsSlot(f: FieldKey, proto: Option<nat>)
    ensures f == KTcpFlags <==> SlotOf(f, proto) == Some(TcpFlags)
  {
  }

  // ---------------------------------------------------------------- never narrower

  /** A packet that every key asks for is accepted, whatever the order and the entry. */
  lemma AskedIsAccepted(fields: map<string, string>, order: seq<string>, ports: PortMap, p: Packet)
    requires MatchOf(fields, order, ports).Some? && IsOrder(order, fields.Keys) && IsPacket(p)
    requires MeetsAll(fields, ports, p)
    ensures Accepts(Sent(MatchOf(fields, order, ports).value), p)
  {
    hide MatchOf, Sent, Meets, FieldAgrees, IsOrder;
    var m := MatchOf(fields, order, ports).value;
    forall f | f in Sent(m) ensures FieldAgrees(f, Sent(m)[f], p) {
      SentSlot(m, f);
      AskedFieldAgrees(fields, order, ports, p, f);
    }
  }

  lemma AskedFieldAgrees(fields: map<string, string>, order: seq<string>, ports: PortMap, p: Packet, f: MatchField)
    requires MatchOf(fields, order, ports).Some? && IsOrder(order, fields.Keys) && IsPacket(p)
    requires MeetsAll(fields, ports, p)
    requires f in MatchOf(fields, order, ports).value
    ensures
      var sent := SentValue(f, MatchOf(fields, order, ports).value[f]);
      sent.Some? ==> FieldAgrees(f, sent.value, p)
  {
    hide MatchOf, IsOrder, Meets, SlotOf, ValueOf, KeyName, MarkedProto, MarkedEthType, SentValue;
    var m, proto := MatchOf(fields, order, ports).value, MarkedProto(fields);
    NoFieldIsInvented(fields, order, ports, f);
    if g: FieldKey :| KeyName(g) in fields && SlotOf(g, proto) == Some(f) &&
                      Some(m[f]) == ValueOf(g, fields[KeyName(g)], ports) {
      TcpFlagsSlot(g, proto);
      NumbersAreSent(0);
      if g != KTcpFlags { KeyIff(fields, g, ports, p); }
    } else {
      MetTypes(fields, ports, p);
      if m[f].Number? { NumbersAreSent(m[f].n); }
      AddressesAskIp(fields);
    }
  }

  lemma MetTypes(fields: map<string, string>, ports: PortMap, p: Packet)
    requires MeetsAll(fields, ports, p)
    ensures MarkedEthType(fields).Some? ==> MarkedEthType(fields) == Some(EthTypeOf(p))
    ensures MarkedProto(fields).Some? ==> MarkedProto(fields) == IpProtoOf(p)
    ensures KeyName(KNwSrc) in fields || KeyName(KNwDst) in fields ==> EthTypeOf(p) == IP_TYPE
  {
    AddressesAskIp(fields);
    hide Meets, MarkedEthType, MarkedProto, AskedType, AskedProto, KeyName, IsMarker;
    if MarkedEthType(fields).Some? { var k := MarkedTypeIsAsked(fields); MetType(k, fields, ports, p); }
    if MarkedProto(fields).Some? { var k := MarkedProtoIsAsked(fields); MetType(k, fields, ports, p); }
    if "nw_src" in fields { MetType("nw_src", fields, ports, p); }
    if "nw_dst" in fields { MetType("nw_dst", fields, ports, p); }
  }

  // ---------------------------------------------------------------- no looser

  predicate AsksTcpFlags(fields: map<string, string>) {
    "tcp_flags" in fields && !NoFlags(fields["tcp_flags"])
  }

  lemma AcceptedTypes(fields: map<string, string>, order: seq<string>, ports: PortMap, p: Packet, k: string)
    requires MatchOf(fields, order, ports).Some? && IsOrder(order, fields.Keys)
    requires Accepts(Sent(MatchOf(fields, order, ports).value), p)
    requires KeysAgree(fields) && k in fields
    ensures AskedType(k, fields[k]).Some? ==> AskedType(k, fields[k]) == Some(EthTypeOf(p))
    ensures AskedProto(k).Some? ==> AskedProto(k) == IpProtoOf(p)
  {
    AgreedIsFinal(fields, k, ports);
    hide AskedType, AskedProto, FinalType, TypeClash, AllTranslate, IsOrder, MarkedProto, KeysAgree, TypeAfter;
    hide LastSetter;
    var m := MatchOf(fields, order, ports).value;
    TypeInOrder(fields, order, ports);
    TypeSlot(fields, order, ports);
    ProtoSlot(fields, order, ports);
    SentSlot(m, EthType);
    SentSlot(m, IpProto);
    hide Assemble, Sent;
  }

  lemma ProtoSlot(fields: map<string, string>, order: seq<string>, ports: PortMap)
    ensures
      var m := Assemble(fields, order, ports);
      (IpProto in m <==> MarkedProto(fields).Some?) &&
      (IpProto in m ==> m[IpProto] == Number(MarkedProto(fields).value))
  {
    hide MarkedProto, TypeAfter;
    assert Slot(IpProto, fields, order, ports) == AsNumber(MarkedProto(fields));
  }

  lemma AgreeOnTransport(fields: map<string, string>)
    requires KeysAgree(fields)
    ensures !("tcp" in fields && "udp" in fields)
  {
    hide AskedType;
  }

  /** Every key other than a marker agrees, unless its type was overwritten. */
  lemma AcceptedAgrees(fields: map<string, string>, order: seq<string>, ports: PortMap, p: Packet, k: string)
    requires MatchOf(fields, order, ports).Some? && IsOrder(order, fields.Keys)
    requires Accepts(Sent(MatchOf(fields, order, ports).value), p)
    requires k in fields && !IsMarker(k) && (k == "dl_type" ==> !TypeClash(fields))
    ensures KeyOf(k).Some? && KeyName(KeyOf(k).value) == k
    ensures
      var f := KeyOf(k).value;
      SlotOf(f, MarkedProto(fields)).Some? && ValueOf(f, fields[k], ports).Some? &&
      AgreesIfSent(f, fields[k], MarkedProto(fields), ports, p)
  {
    NoFieldIsDropped(fields, order, ports, k);
    AddressesAskIp(fields);
    KeyOfTcpFlags(k);
    hide AskedType, IsMarker, Assemble, IsOrder, KeyName, KeyOf, SlotOf, ValueOf, MarkedProto, TypeClash, AllTranslate;
    hide FieldAgrees, LastSetter;
    var m, f := MatchOf(fields, order, ports).value, KeyOf(k).value;
    SentSlot(m, SlotOf(f, MarkedProto(fields)).value);
  }

  lemma FieldIsAsked(fields: map<string, string>, order: seq<string>, ports: PortMap, p: Packet, k: string)
    requires MatchOf(fields, order, ports).Some? && IsOrder(order, fields.Keys) && IsPacket(p)
    requires Accepts(Sent(MatchOf(fields, order, ports).value), p)
    requires KeysAgree(fields) && !TagOverflows(fields)
    requires k in fields && !IsMarker(k) && k != "tcp_flags"
    ensures Meets(k, fields, ports, p)
  {
    AcceptedTypes(fields, order, ports, p, k);
    AgreedIsFinal(fields, k, ports);
    AgreeOnTransport(fields);
    AcceptedAgrees(fields, order, ports, p, k);
    AddressesAskIp(fields);
    KeyOfTcpFlags(k);
    hide AskedType, AskedProto, IsMarker, KeysAgree, Assemble, IsOrder, TagOverflows, KeyName, KeyOf, SlotOf, ValueOf;
    hide MarkedProto, TypeClash, FinalType, Meets, AllTranslate, FieldAgrees, LastSetter, AgreesIfSent, Accepts;
    KeyIff(fields, KeyOf(k).value, ports, p);
  }

  lemma KeyOfTcpFlags(k: string)
    ensures KeyOf(k).Some? ==> KeyName(KeyOf(k).value) == k && (KeyOf(k) == Some(KTcpFlags) <==> k == "tcp_flags")
  {
  }

  /** What the match accepts is what each key asks for, where the keys agree on the type and
      the protocol and ask for no TCP flags and no id of thirteen bits. */
  lemma AcceptedIsAsked(fields: map<string, string>, order: seq<string>, ports: PortMap, p: Packet, k: string)
    requires MatchOf(fields, order, ports).Some? && IsOrder(order, fields.Keys) && IsPacket(p)
    requires Accepts(Sent(MatchOf(fields, order, ports).value), p)
    requires KeysAgree(fields) && !AsksTcpFlags(fields) && !TagOverflows(fields) && k in fields
    ensures Meets(k, fields, ports, p)
  {
    AcceptedTypes(fields, order, ports, p, k);
    hide AskedType, AskedProto, IsMarker, KeysAgree, Sent, Assemble, IsOrder, AllTranslate, Accepts, TagOverflows;
    if IsMarker(k) {
      MarkerMet(k, fields, ports, p);
    } else if k == "tcp_flags" {
      FlaglessIsMet(fields, ports, p);
    } else {
      FieldIsAsked(fields, order, ports, p, k);
    }
  }

  lemma FlaglessIsMet(fields: map<string, string>, ports: PortMap, p: Packet)
    requires "tcp_flags" in fields && NoFlags(fields["tcp_flags"])
    ensures Meets("tcp_flags", fields, ports, p)
  {
    hide HasTcpFlags;
  }

  // ---------------------------------------------------------------- a packet that is accepted

  /** A marker of a transport or ICMP protocol, but a type that carries no IP. */
  predicate ProtocolWithoutIp(fields: map<string, string>) {
    ("tcp" in fields || "udp" in fields || "icmp" in fields || "icmp6" in fields) &&
    "nw_src" !in fields && "nw_dst" !in fields &&
    if "dl_type" in fields then
      ParseEthType(fields["dl_type"]) != Some(0x0800) && ParseEthType(fields["dl_type"]) != Some(0x86dd)
    else "arp" in fields && "icmp6" !in fields
  }

  /** No packet can be accepted: an id of more than thirteen bits, or a protocol without IP. */
  predicate MatchesNothing(fields: map<string, string>) {
    (VlanAsked(fields).Some? && VlanAsked(fields).value >= 0x2000) || ProtocolWithoutIp(fields)
  }

  function NumberIn(m: Match, f: MatchField): nat { if f in m && m[f].Number? then m[f].n else 0 }

  function AddressIn(m: Match, f: MatchField): (r: seq<nat>)
    ensures AreOctets(r, 4)
  {
    if f in m && m[f].Prefix? && AreOctets(m[f].address, 4) then m[f].address else [0, 0, 0, 0]
  }

  function PayloadFor(m: Match, flags: bv16): (r: Transport)
    ensures IsTransport(r)
  {
    if NumberIn(m, IpProto) == 6 then Tcp(NumberIn(m, TcpSrcField), NumberIn(m, TcpDstField), flags)
    else if NumberIn(m, IpProto) == 17 then Udp(NumberIn(m, UdpSrcField), NumberIn(m, UdpDstField))
    else OtherProto(NumberIn(m, IpProto))
  }

  function NetworkFor(m: Match, flags: bv16): Network {
    if NumberIn(m, EthType) == 0x0800 then Ipv4(AddressIn(m, Ipv4Src), AddressIn(m, Ipv4Dst), PayloadFor(m, flags))
    else if NumberIn(m, EthType) == 0x86dd then Ipv6(PayloadFor(m, flags))
    else OtherType(NumberIn(m, EthType))
  }

  /** A packet made for a match. */
  function PacketFor(m: Match, flags: bv16): Packet {
    Packet(
      NumberIn(m, InPortField),
      if EthSrc in m && m[EthSrc].Mac? then m[EthSrc].octets else [],
      if VlanVid in m && 0x1000 <= Tagged(NumberIn(m, VlanVid)) then Some(Tagged(NumberIn(m, VlanVid)) - 0x1000)
      else None,
      NetworkFor(m, flags),
      if CtState in m && m[CtState].Masked? then m[CtState].value else 0)
  }

  predicate IsShaped(f: MatchField, v: MatchValue) {
    match f
    case EthSrc => v.Mac?
    case Ipv4Src | Ipv4Dst => v.Prefix? && AreOctets(v.address, 4)
    case CtState => v.Masked?
    case TcpFlags => true
    case InPortField | EthType | VlanVid | IpProto | TcpSrcField | TcpDstField | UdpSrcField | UdpDstField => v.Number?
  }

  /** Values of their fields' kinds, and fields together that a packet can have together. */
  predicate CanMatch(m: Match) {
    (forall f | f in m :: IsShaped(f, m[f])) &&
    (VlanVid in m ==> NumberIn(m, VlanVid) < 0x2000) &&
    (IpProto in m ==> NumberIn(m, EthType) == 0x0800 || NumberIn(m, EthType) == 0x86dd) &&
    (Ipv4Src in m || Ipv4Dst in m ==> NumberIn(m, EthType) == 0x0800) &&
    (TcpSrcField in m || TcpDstField in m ==> IpProto in m && NumberIn(m, IpProto) == 6) &&
    (UdpSrcField in m || UdpDstField in m ==> IpProto in m && NumberIn(m, IpProto) == 17)
  }

  lemma SameIsSame(a: bv32, mask: bv32)
    ensures SameBits(a, a, mask)
  {
  }

  lemma PacketForAgrees(m: Match, flags: bv16, f: MatchField)
    requires CanMatch(m) && f in m && SentValue(f, m[f]).Some?
    ensures FieldAgrees(f, SentValue(f, m[f]).value, PacketFor(m, flags))
  {
    hide SameBits, AddressBit;
    assert IsShaped(f, m[f]);
    if f == CtState { SameIsSame(m[f].value, m[f].mask); }
  }

  lemma PacketForIsAccepted(m: Match, flags: bv16)
    requires CanMatch(m)
    ensures IsPacket(PacketFor(m, flags)) && Accepts(Sent(m), PacketFor(m, flags))
  {
    hide CanMatch, FieldAgrees, PacketFor, Sent;
    forall f | f in Sent(m) ensures FieldAgrees(f, Sent(m)[f], PacketFor(m, flags)) {
      SentSlot(m, f);
      PacketForAgrees(m, flags, f);
    }
    PacketForIsPacket(m, flags);
  }

  lemma PacketForIsPacket(m: Match, flags: bv16)
    requires CanMatch(m)
    ensures IsPacket(PacketFor(m, flags))
  {
  }

  // ---------------------------------------------------------------- when nothing is accepted

  lemma ValueIsShaped(f: FieldKey, v: string, proto: Option<nat>, ports: PortMap)
    requires SlotOf(f, proto).Some? && ValueOf(f, v, ports).Some?
    ensures IsShaped(SlotOf(f, proto).value, ValueOf(f, v, ports).value)
    ensures f == KDlVlan ==> ValueOf(f, v, ports) == AsNumber(ParseUnsigned(v, 10, U16))
  {
    hide ResolvePort, ParseEthType, ParseUnsigned, ParseMac, ParseTcpFlags, ParseCidr, OrCtFlags, Split;
    if f == KNwSrc || f == KNwDst {
      var (octets, bits) := ParseCidr(v).value;
      NetworkHasFour(v, octets, bits);
    }
  }

  lemma SlotIsShaped(fields: map<string, string>, order: seq<string>, ports: PortMap, f: MatchField)
    requires MatchOf(fields, order, ports).Some? && IsOrder(order, fields.Keys)
    requires f in MatchOf(fields, order, ports).value
    ensures IsShaped(f, MatchOf(fields, order, ports).value[f])
  {
    hide MatchOf, IsOrder, SlotOf, ValueOf, KeyName, MarkedProto, MarkedEthType;
    var m, proto := MatchOf(fields, order, ports).value, MarkedProto(fields);
    NoFieldIsInvented(fields, order, ports, f);
    if g: FieldKey :| KeyName(g) in fields && SlotOf(g, proto) == Some(f) &&
                      Some(m[f]) == ValueOf(g, fields[KeyName(g)], ports) {
      ValueIsShaped(g, fields[KeyName(g)], proto, ports);
    }
  }

  /** Where each field of a match comes from. */
  lemma SlotHasSource(fields: map<string, string>, order: seq<string>, ports: PortMap, f: MatchField)
    requires MatchOf(fields, order, ports).Some? && IsOrder(order, fields.Keys)
    requires f in MatchOf(fields, order, ports).value && f != EthType && f != IpProto
    ensures
      var source := SourceOf(f, MarkedProto(fields));
      source.Some? && KeyName(source.value) in fields &&
      ValueOf(source.value, fields[KeyName(source.value)], ports) == Some(MatchOf(fields, order, ports).value[f])
  {
    hide MarkedProto, ValueOf, KeyName, AllTranslate, IsOrder;
  }

  lemma SourcesOfTransport(proto: Option<nat>)
    ensures SourceOf(TcpSrcField, proto).Some? || SourceOf(TcpDstField, proto).Some? ==> proto == Some(6)
    ensures SourceOf(UdpSrcField, proto).Some? || SourceOf(UdpDstField, proto).Some? ==> proto == Some(17)
    ensures SourceOf(Ipv4Src, proto) == Some(KNwSrc) && SourceOf(Ipv4Dst, proto) == Some(KNwDst)
    ensures SourceOf(VlanVid, proto) == Some(KDlVlan) && KeyName(KDlVlan) == "dl_vlan"
  {
  }

  lemma TypesAllow(fields: map<string, string>, order: seq<string>, ports: PortMap)
    requires AllTranslate(fields, ports) && IsOrder(order, fields.Keys) && !ProtocolWithoutIp(fields)
    requires TypeClash(fields) ==> TypeAfter(fields, order) == Some(IP_TYPE)
    ensures MarkedProto(fields).Some? ==> TypeAfter(fields, order) in {Some(0x0800), Some(0x86dd)}
    ensures "nw_src" in fields || "nw_dst" in fields ==> TypeAfter(fields, order) == Some(0x0800)
  {
    TypeInOrder(fields, order, ports);
    AddressesAskIp(fields);
    hide TypeAfter, LastSetter, ParseEthType, AllTranslate, IsOrder, AskedType;
  }

  lemma SlotsAreShaped(fields: map<string, string>, order: seq<string>, ports: PortMap)
    requires MatchOf(fields, order, ports).Some? && IsOrder(order, fields.Keys)
    ensures
      var m := MatchOf(fields, order, ports).value;
      forall f | f in m :: IsShaped(f, m[f])
  {
    hide IsShaped, MatchOf, IsOrder;
    var m := MatchOf(fields, order, ports).value;
    forall f | f in m ensures IsShaped(f, m[f]) { SlotIsShaped(fields, order, ports, f); }
  }

  lemma TransportIsMarked(fields: map<string, string>, order: seq<string>, ports: PortMap)
    requires MatchOf(fields, order, ports).Some? && IsOrder(order, fields.Keys)
    ensures
      var m := MatchOf(fields, order, ports).value;
      (Ipv4Src in m || Ipv4Dst in m ==> "nw_src" in fields || "nw_dst" in fields) &&
      (TcpSrcField in m || TcpDstField in m ==> MarkedProto(fields) == Some(6)) &&
      (UdpSrcField in m || UdpDstField in m ==> MarkedProto(fields) == Some(17))
  {
    SourcesOfTransport(MarkedProto(fields));
    AddressesAskIp(fields);
    hide MatchOf, IsOrder, MarkedProto, SourceOf, KeyName, ValueOf, AskedType;
    forall f | f in MatchOf(fields, order, ports).value && f != EthType && f != IpProto
      ensures SourceOf(f, MarkedProto(fields)).Some? && KeyName(SourceOf(f, MarkedProto(fields)).value) in fields
    {
      SlotHasSource(fields, order, ports, f);
    }
  }

  lemma OrderCanMatch(fields: map<string, string>, order: seq<string>, ports: PortMap)
    requires MatchOf(fields, order, ports).Some? && IsOrder(order, fields.Keys) && !MatchesNothing(fields)
    requires TypeClash(fields) ==> TypeAfter(fields, order) == Some(IP_TYPE)
    ensures CanMatch(MatchOf(fields, order, ports).value)
  {
    hide ProtocolWithoutIp, VlanAsked, TypeClash, TypeAfter, AllTranslate, IsOrder, Assemble, MarkedProto, IsShaped;
    TypesAllow(fields, order, ports);
    TypeSlot(fields, order, ports);
    ProtoSlot(fields, order, ports);
    TransportIsMarked(fields, order, ports);
    VlanIsShort(fields, order, ports);
    SlotsAreShaped(fields, order, ports);
  }

  lemma VlanIsShort(fields: map<string, string>, order: seq<string>, ports: PortMap)
    requires MatchOf(fields, order, ports).Some? && IsOrder(order, fields.Keys) && !MatchesNothing(fields)
    ensures
      var m := MatchOf(fields, order, ports).value;
      VlanVid in m ==> NumberIn(m, VlanVid) < 0x2000
  {
    hide ProtocolWithoutIp, AllTranslate, IsOrder, Assemble, MarkedProto, SourceOf, ParseUnsigned, KeyName;
    var m := MatchOf(fields, order, ports).value;
    if VlanVid in m {
      SourcesOfTransport(MarkedProto(fields));
      SlotHasSource(fields, order, ports, VlanVid);
    }
  }

  /** Some order gives a match that accepts a packet, and one without the TCP flags asked
      for. */
  lemma SomePacket(fields: map<string, string>, ports: PortMap) returns (order: seq<string>, p: Packet)
    requires AllTranslate(fields, ports) && !MatchesNothing(fields)
    ensures IsOrder(order, fields.Keys) && IsPacket(p) && Accepts(Sent(MatchOf(fields, order, ports).value), p)
    ensures AsksTcpFlags(fields) ==> !Meets("tcp_flags", fields, ports, p)
  {
    SomeOrder(fields.Keys);
    order := Keys(fields.Keys);
    if TypeClash(fields) {
      var a, b := ClashDependsOnOrder(fields, ports);
      order := a;
    }
    OrderCanMatch(fields, order, ports);
    hide MatchOf, Sent, IsOrder, MatchesNothing, TypeClash, PacketFor, Meets, CanMatch, AsksTcpFlags, TypeAfter;
    var m := MatchOf(fields, order, ports).value;
    var flags := 0;
    if AsksTcpFlags(fields) { flags := OtherFlags(fields, m, ports); }
    p := PacketFor(m, flags);
    PacketForIsAccepted(m, flags);
  }

  lemma OtherFlags(fields: map<string, string>, m: Match, ports: PortMap) returns (flags: bv16)
    requires AllTranslate(fields, ports) && AsksTcpFlags(fields)
    ensures !Meets("tcp_flags", fields, ports, PacketFor(m, flags))
  {
    hide HasTcpFlags, ParseTcpFlags, NoFlags, MarkedProto;
    assert Translates("tcp_flags", fields["tcp_flags"], MarkedProto(fields), ports);
    flags := SomeFlagsFail(fields["tcp_flags"]);
  }

  lemma NothingAccepted(fields: map<string, string>, order: seq<string>, ports: PortMap, p: Packet)
    requires MatchOf(fields, order, ports).Some? && IsOrder(order, fields.Keys) && IsPacket(p)
    requires MatchesNothing(fields)
    ensures !Accepts(Sent(MatchOf(fields, order, ports).value), p)
  {
    hide ParseUnsigned;
    if Accepts(Sent(MatchOf(fields, order, ports).value), p) {
      if ProtocolWithoutIp(fields) {
        NoIpAccepted(fields, order, ports, p);
      } else {
        LongIdAccepted(fields, order, ports, p);
      }
    }
  }

  lemma LongIdAccepted(fields: map<string, string>, order: seq<string>, ports: PortMap, p: Packet)
    requires MatchOf(fields, order, ports).Some? && IsOrder(order, fields.Keys) && IsPacket(p)
    requires "dl_vlan" in fields && Accepts(Sent(MatchOf(fields, order, ports).value), p)
    ensures VlanAsked(fields).Some? && VlanAsked(fields).value < 0x2000
  {
    assert KeyOf("dl_vlan") == Some(KDlVlan) && !IsMarker("dl_vlan");
    hide KeyOf, IsMarker, Accepts, Sent, Assemble, IsOrder, AllTranslate, AgreesIfSent, MarkedProto, ValueOf, VlanAsked;
    AcceptedAgrees(fields, order, ports, p, "dl_vlan");
    VlanMeans(fields, ports, p);
  }

  lemma NoIpAccepted(fields: map<string, string>, order: seq<string>, ports: PortMap, p: Packet)
    requires MatchOf(fields, order, ports).Some? && IsOrder(order, fields.Keys) && IsPacket(p)
    requires Accepts(Sent(MatchOf(fields, order, ports).value), p)
    ensures !ProtocolWithoutIp(fields)
  {
    hide ProtocolWithoutIp, FinalType, TypeClash, MarkedProto, AllTranslate, IsOrder, TypeAfter, LastSetter;
    hide Assemble, Sent;
    if ProtocolWithoutIp(fields) {
      NoIpType(fields, ports);
      var m := MatchOf(fields, order, ports).value;
      TypeInOrder(fields, order, ports);
      TypeSlot(fields, order, ports);
      ProtoSlot(fields, order, ports);
      SentSlot(m, EthType);
      SentSlot(m, IpProto);
      NumbersAreSent(FinalType(fields).value);
      NumbersAreSent(MarkedProto(fields).value);
    }
  }

  lemma NoIpType(fields: map<string, string>, ports: PortMap)
    requires ProtocolWithoutIp(fields) && AllTranslate(fields, ports)
    ensures MarkedProto(fields).Some? && FinalType(fields).Some? && !TypeClash(fields)
    ensures FinalType(fields) !in {Some(0x0800), Some(0x86dd)}
  {
    hide ParseEthType, AllTranslate;
    if KeyName(KDlType) in fields { DlTypeTranslates(fields, ports); }
  }

  // ---------------------------------------------------------------- the rule

  ghost predicate NothingLooser(fields: map<string, string>, ports: PortMap)
    requires AllTranslate(fields, ports)
  {
    forall order, p | IsOrder(order, fields.Keys) && IsPacket(p) :: AcceptsOnlyAsked(fields, order, ports, p)
  }

  ghost predicate AcceptsOnlyAsked(fields: map<string, string>, order: seq<string>, ports: PortMap, p: Packet)
    requires AllTranslate(fields, ports)
  {
    Accepts(Sent(MatchOf(fields, order, ports).value), p) ==> MeetsAll(fields, ports, p)
  }

  /** The keys agree on type and protocol and ask for nothing a match cannot say. */
  predicate CanBeSaid(fields: map<string, string>) {
    KeysAgree(fields) && !AsksTcpFlags(fields) && !TagOverflows(fields)
  }

  /** Where that is so, in every order the packets accepted are exactly those asked for. */
  lemma ExactlyAsked(fields: map<string, string>, order: seq<string>, ports: PortMap, p: Packet)
    requires AllTranslate(fields, ports) && IsOrder(order, fields.Keys) && IsPacket(p)
    requires CanBeSaid(fields) || MatchesNothing(fields)
    ensures Accepts(Sent(MatchOf(fields, order, ports).value), p) <==> MeetsAll(fields, ports, p)
  {
    hide AllTranslate, IsOrder, Sent, Accepts, IsPacket, Meets, KeysAgree, AsksTcpFlags, TagOverflows, MatchesNothing;
    hide Assemble;
    if MeetsAll(fields, ports, p) { AskedIsAccepted(fields, order, ports, p); }
    if Accepts(Sent(MatchOf(fields, order, ports).value), p) {
      if MatchesNothing(fields) {
        NothingAccepted(fields, order, ports, p);
      } else {
        forall k | k in fields ensures Meets(k, fields, ports, p) {
          AcceptedIsAsked(fields, order, ports, p, k);
        }
      }
    }
  }

  lemma DisagreementIsUnmet(fields: map<string, string>, ports: PortMap, p: Packet)
    requires MeetsAll(fields, ports, p)
    ensures KeysAgree(fields)
  {
    hide Meets, AskedType, AskedProto;
    forall k, l | k in fields && l in fields ensures Compatible(k, fields[k], l, fields[l]) {
      MetType(k, fields, ports, p);
      MetType(l, fields, ports, p);
    }
  }

  lemma AskedCanBeSaid(fields: map<string, string>, ports: PortMap, p: Packet)
    requires AllTranslate(fields, ports) && IsPacket(p) && MeetsAll(fields, ports, p)
    requires AsksTcpFlags(fields) ==> !Meets("tcp_flags", fields, ports, p)
    ensures CanBeSaid(fields)
  {
    hide Meets, KeysAgree, NoFlags, MarkedProto, ValueOf, ParseUnsigned;
    DisagreementIsUnmet(fields, ports, p);
    if "dl_vlan" in fields {
      VlanTranslates(fields, ports);
      VlanMeans(fields, ports, p);
    }
  }

  lemma VlanTranslates(fields: map<string, string>, ports: PortMap)
    requires AllTranslate(fields, ports) && "dl_vlan" in fields
    ensures ValueOf(KDlVlan, fields["dl_vlan"], ports).Some?
  {
    hide ParseUnsigned, MarkedProto;
    assert Translates("dl_vlan", fields["dl_vlan"], MarkedProto(fields), ports);
  }

  /** The rule, exactly: in every order a translated match accepts only packets that meet what
      every key asks, if and only if the keys agree on type and protocol, ask for no TCP flags
      and no id of thirteen bits, or the match accepts nothing at all. */
  lemma NothingLooserIff(fields: map<string, string>, ports: PortMap)
    requires AllTranslate(fields, ports)
    ensures NothingLooser(fields, ports) <==> CanBeSaid(fields) || MatchesNothing(fields)
  {
    hide AllTranslate, IsOrder, Sent, Accepts, IsPacket, MeetsAll, CanBeSaid, MatchesNothing, Assemble, AsksTcpFlags;
    if CanBeSaid(fields) || MatchesNothing(fields) {
      forall order, p | IsOrder(order, fields.Keys) && IsPacket(p) ensures AcceptsOnlyAsked(fields, order, ports, p) {
        ExactlyAsked(fields, order, ports, p);
      }
    } else {
      var order, p := SomePacket(fields, ports);
      if AcceptsOnlyAsked(fields, order, ports, p) { AskedCanBeSaid(fields, ports, p); }
    }
  }

  // ---------------------------------------------------------------- what translates

  /** A text that says something under its key; the transport ports need one of their
      markers, and no `icmp6`, which is looked at before them. */
  ghost predicate SaysSomething(k: string, fields: map<string, string>, ports: PortMap)
    requires k in fields
  {
    var v := fields[k];
    match k
    case "arp" | "ip" | "tcp" | "udp" | "icmp" | "icmp6" => true
    case "in_port" => exists n :: NamesPort(v, ports, n)
    case "dl_type" => exists n :: NamesType(v, n)
    case "dl_vlan" => WritesU16(v)
    case "tp_src" | "tp_dst" => WritesU16(v) && ("tcp" in fields || "udp" in fields) && "icmp6" !in fields
    case "dl_src" => exists octets :: NamesMac(v, octets)
    case "nw_src" | "nw_dst" => exists octets, bits :: NamesNetwork(v, octets, bits)
    case "tcp_flags" => if HasPrefix(v, "0x") then exists n :: WritesType(v[2..], n) else OnlyFlags(v, TCP_NAMES)
    case "ct_state" => OnlyFlags(v, CT_NAMES)
    case _ => false
  }

  ghost predicate WritesU16(v: string) { exists n | n < 0x1_0000 :: WritesNumber(v, 10, n) }

  ghost predicate WritesType(v: string, n: nat) { n < 0x1_0000 && WritesNumber(v, 16, n) }

  lemma U16Iff(v: string)
    ensures ParseUnsigned(v, 10, U16).Some? <==> WritesU16(v)
  {
    hide ParseUnsigned, WritesNumber;
    forall n: nat ensures ParseUnsigned(v, 10, U16) == Some(n) <==> n < 0x1_0000 && WritesNumber(v, 10, n) {
      NumberIff(v, 10, U16, n);
    }
  }

  lemma TcpFlagsIff(v: string)
    ensures ParseTcpFlags(v).Some? <==>
            if HasPrefix(v, "0x") then exists n :: WritesType(v[2..], n) else OnlyFlags(v, TCP_NAMES)
  {
    hide ParseUnsigned, WritesNumber, OrTcpFlags, Split, TCP_NAMES;
    TcpTokens(Split(v, '+'));
    if HasPrefix(v, "0x") {
      forall n: nat ensures ParseUnsigned(v[2..], 16, U16) == Some(n) <==> WritesType(v[2..], n) {
        NumberIff(v[2..], 16, U16, n);
      }
    }
  }

  lemma ValueIff(f: FieldKey, v: string, ports: PortMap)
    ensures ValueOf(f, v, ports).Some? <==>
            match f
            case KInPort => exists n :: NamesPort(v, ports, n)
            case KDlType => exists n :: NamesType(v, n)
            case KDlVlan | KTpSrc | KTpDst => WritesU16(v)
            case KDlSrc => exists octets :: NamesMac(v, octets)
            case KNwSrc | KNwDst => exists octets, bits :: NamesNetwork(v, octets, bits)
            case KTcpFlags => if HasPrefix(v, "0x") then exists n :: WritesType(v[2..], n) else OnlyFlags(v, TCP_NAMES)
            case KCtState => OnlyFlags(v, CT_NAMES)
  {
    hide ResolvePort, ParseEthType, ParseUnsigned, ParseMac, ParseTcpFlags, ParseCidr, OrCtFlags, Split, NamesPort;
    hide NamesType, NamesMac, NamesNetwork, WritesU16, OnlyFlags, WritesType, TCP_NAMES, CT_NAMES;
    match f
    case KInPort => forall n: nat { PortIff(v, ports, n); }
    case KDlType => forall n: nat { TypeIff(v, n); }
    case KDlVlan => U16Iff(v);
    case KTpSrc => U16Iff(v);
    case KTpDst => U16Iff(v);
    case KDlSrc => forall octets: seq<nat> { MacIff(v, octets); }
    case KNwSrc => forall octets: seq<nat>, bits: nat { NetworkIff(v, octets, bits); }
    case KNwDst => forall octets: seq<nat>, bits: nat { NetworkIff(v, octets, bits); }
    case KTcpFlags => TcpFlagsIff(v);
    case KCtState => StateIff(v, 0);
  }

  lemma TransportNeedsMarker(fields: map<string, string>, f: FieldKey)
    ensures SlotOf(f, MarkedProto(fields)).Some? <==>
            (f == KTpSrc || f == KTpDst ==> ("tcp" in fields || "udp" in fields) && "icmp6" !in fields)
  {
  }

  /** A field translates exactly when its text says something under its key; every other
      field is an error. */
  lemma TranslatesIff(k: string, fields: map<string, string>, ports: PortMap)
    requires k in fields
    ensures Translates(k, fields[k], MarkedProto(fields), ports) <==> SaysSomething(k, fields, ports)
  {
    hide MarkedProto, ValueOf, SlotOf, NamesPort, NamesType, NamesMac, NamesNetwork, WritesU16, OnlyFlags, WritesType;
    hide TCP_NAMES, CT_NAMES;
    if !IsMarker(k) && KeyOf(k).Some? {
      ValueIff(KeyOf(k).value, fields[k], ports);
      TransportNeedsMarker(fields, KeyOf(k).value);
    }
  }

  // ---------------------------------------------------------------- inputs

  lemma {:induction false} BitsTell(a: nat, b: nat, n: nat)
    requires a < Power(2, n) && b < Power(2, n) && forall k | 0 <= k < n :: BitOf(a, k) == BitOf(b, k)
    ensures a == b
  {
    if n > 0 {
      assert BitOf(a, 0) == BitOf(b, 0);
      forall k | 0 <= k < n - 1 ensures BitOf(a / 2, k) == BitOf(b / 2, k) {
        assert BitOf(a, k + 1) == BitOf(b, k + 1);
      }
      BitsTell(a / 2, b / 2, n - 1);
    }
  }

  lemma EightBits()
    ensures Power(2, 8) == 256
  {
    assert Power(2, 3) == 8;
    assert Power(2, 6) == 64;
  }

  lemma SameOctet(a: seq<nat>, b: seq<nat>, i: nat)
    requires AreOctets(a, 4) && AreOctets(b, 4) && SameLeading(a, b, 32) && i < 4
    ensures a[i] == b[i]
  {
    hide Power, BitOf;
    EightBits();
    forall k: nat | k < 8 ensures BitOf(a[i], k) == BitOf(b[i], k) {
      assert AddressBit(a, 8 * i + (7 - k)) == AddressBit(b, 8 * i + (7 - k));
    }
    BitsTell(a[i], b[i], 8);
  }

  /** A bare address is a host: every packet accepted comes from that very address. */
  lemma BareAddressIsHost(fields: map<string, string>, order: seq<string>, ports: PortMap, p: Packet, octets: seq<nat>)
    requires MatchOf(fields, order, ports).Some? && IsOrder(order, fields.Keys) && IsPacket(p)
    requires Accepts(Sent(MatchOf(fields, order, ports).value), p)
    requires "nw_src" in fields && AreOctets(octets, 4) && fields["nw_src"] == Dotted(octets) && CanBeSaid(fields)
    ensures p.network.Ipv4? && p.network.src == octets
  {
    AcceptedIsAsked(fields, order, ports, p, "nw_src");
    NetworkIff(Dotted(octets), octets, 32);
    InNetworkIff(Dotted(octets), octets, 32, p.network.src);
    hide SameLeading, InNetwork, NamesNetwork, ParseCidr, Dotted, CanBeSaid, Accepts, Sent, MatchOf;
    forall i: nat | i < 4 ensures p.network.src[i] == octets[i] { SameOctet(p.network.src, octets, i); }
  }

  const WIDE_ID := "4101"

  lemma WideIdReads()
    ensures ParseUnsigned(WIDE_ID, 10, U16) == Some(4101)
  {
    assert Decimal(4) == "4" && Decimal(41) == "41" && Decimal(410) == "410" && Decimal(4101) == "4101";
    DecimalReadsBack(4101, U16);
  }

  /** VLAN 4101 is sent as VLAN 5: a packet of that VLAN is accepted, and nobody asked for
      it. */
  lemma WideIdIsAnotherVlan(ports: PortMap, p: Packet)
    requires IsPacket(p) && p.vlan == Some(5)
    ensures
      var fields := map["dl_vlan" := WIDE_ID];
      MatchOf(fields, ["dl_vlan"], ports).Some? &&
      Accepts(Sent(MatchOf(fields, ["dl_vlan"], ports).value), p) && !MeetsAll(fields, ports, p)
  {
    var fields := map["dl_vlan" := WIDE_ID];
    WideIdReads();
    hide ParseUnsigned, WIDE_ID, Assemble;
    OnlyVlan(WIDE_ID, ports);
    hide KeyOf, KeyName;
    VlanMeans(fields, ports, p);
  }

  lemma OnlyVlan(v: string, ports: PortMap)
    requires ParseUnsigned(v, 10, U16).Some?
    ensures
      var fields := map["dl_vlan" := v];
      MatchOf(fields, ["dl_vlan"], ports) == Some(map[VlanVid := Number(ParseUnsigned(v, 10, U16).value)])
  {
    var fields, order := map["dl_vlan" := v], ["dl_vlan"];
    var m := map[VlanVid := Number(ParseUnsigned(v, 10, U16).value)];
    assert KeyOf("dl_vlan") == Some(KDlVlan) && KeyName(KDlVlan) == "dl_vlan";
    assert TypeSetBy("dl_vlan", v) == None && order[..0] == [] && TypeAfter(fields, order) == TypeAfter(fields, []);
    assert MarkedEthType(fields) == None && MarkedProto(fields) == None;
    hide ParseUnsigned, KeyOf, TypeSetBy, MarkedEthType, MarkedProto;
    forall f ensures Slot(f, fields, order, ports) == if f == VlanVid then Some(m[VlanVid]) else None {
      OnlyVlanSlot(f, v, ports);
    }
    assert Assemble(fields, order, ports) == m;
  }

  lemma OnlyVlanSlot(f: MatchField, v: string, ports: PortMap)
    requires ParseUnsigned(v, 10, U16).Some?
    ensures
      var fields := map["dl_vlan" := v];
      f != EthType ==>
        Slot(f, fields, ["dl_vlan"], ports) ==
        if f == VlanVid then Some(Number(ParseUnsigned(v, 10, U16).value)) else None
  {
    hide ParseUnsigned;
  }

  /** ARP beside IP is sent as ARP: some packet accepted is no IP packet. */
  lemma ArpBesideIp(ports: PortMap)
    ensures
      var fields := map["arp" := "", "ip" := ""];
      AllTranslate(fields, ports) && !NothingLooser(fields, ports)
  {
    var fields := map["arp" := "", "ip" := ""];
    assert AskedType("arp", "") == Some(0x0806) && AskedType("ip", "") == Some(0x0800);
    hide AskedType, AskedProto;
    assert !Compatible("arp", fields["arp"], "ip", fields["ip"]);
    NothingLooserIff(fields, ports);
  }
}
