/** The match of a JSON flow entry: `parse_match` of `openflow_translate.rs` on top of the
    setters and the encoder of `match_fields.rs`. The loop over the match fields takes them
    in the order the hash map yields them; the match it builds is given field by field. */
module FlowMatch {
  import opened Text
  import opened Ordering
  import opened Numerals
  import opened OpenFlow

  // ---------------------------------------------------------------- values

  const U8 := 256
  const U16 := 0x1_0000

  function UpperAscii(s: string): (r: string)
    ensures |r| == |s|
  {
    seq(|s|, i requires 0 <= i < |s| => if 'a' <= s[i] <= 'z' then (s[i] as int - 32) as char else s[i])
  }

  /** `eq_ignore_ascii_case`. */
  predicate SameAscii(a: string, b: string) { UpperAscii(a) == UpperAscii(b) }

  /** A number, `LOCAL`, or a name among the discovered ports. */
  function ResolvePort(token: string, ports: PortMap): Option<nat> {
    match ParseUnsigned(token, 10, U32)
    case Some(n) => Some(n)
    case None =>
      if SameAscii(token, "LOCAL") then Some(OFPP_LOCAL)
      else if token in ports then Some(ports[token]) else None
  }

  function ParseAll(parts: seq<string>, parse: string -> Option<nat>): (r: Option<seq<nat>>)
    ensures r.Some? ==> |r.value| == |parts|
  {
    if parts == [] then Some([]) else
      var before :- ParseAll(parts[..|parts| - 1], parse);
      var last :- parse(parts[|parts| - 1]);
      Some(before + [last])
  }

  function MacOctet(p: string): Option<nat> { ParseUnsigned(p, 16, U8) }

  function ParseMac(s: string): Option<seq<nat>> {
    var parts := Split(s, ':');
    if |parts| == 6 then ParseAll(parts, MacOctet) else None
  }

  /** One to three digits without a leading zero. */
  function AddressOctet(p: string): Option<nat> {
    if 1 <= |p| <= 3 && (|p| == 1 || p[0] != '0') && p[0] != '+' then ParseUnsigned(p, 10, U8) else None
  }

  function ParseAddress(s: string): Option<seq<nat>> {
    var parts := Split(s, '.');
    if |parts| == 4 then ParseAll(parts, AddressOctet) else None
  }

  /** `split_once('/')`. */
  function Slash(s: string): Option<nat> {
    if s == "" then None
    else if s[0] == '/' then Some(0)
    else match Slash(s[1..]) case Some(i) => Some(i + 1) case None => None
  }

  lemma SlashIsInside(s: string)
    ensures Slash(s).Some? ==> Slash(s).value < |s|
  {
  }

  /** An address with a prefix length; a bare address is a host. */
  function ParseCidr(s: string): Option<(seq<nat>, nat)> {
    SlashIsInside(s);
    match Slash(s)
    case Some(i) =>
      var address :- ParseAddress(s[..i]);
      var length :- ParseUnsigned(s[i + 1..], 10, U8);
      Some((address, length))
    case None =>
      var address :- ParseAddress(s);
      Some((address, 32))
  }

  function TcpFlag(token: string): Option<bv16> {
    match token
    case "fin" => Some(0x001) case "syn" => Some(0x002) case "rst" => Some(0x004) case "psh" => Some(0x008)
    case "ack" => Some(0x010) case "urg" => Some(0x020) case "ece" => Some(0x040) case "cwr" => Some(0x080)
    case "ns" => Some(0x100) case _ => None
  }

  function OrTcpFlags(tokens: seq<string>): Option<bv16> {
    if tokens == [] then Some(0) else
      var before :- OrTcpFlags(tokens[..|tokens| - 1]);
      if tokens[|tokens| - 1] == "" then Some(before) else
        var flag :- TcpFlag(tokens[|tokens| - 1]);
        Some(before | flag)
  }

  function ParseTcpFlags(s: string): Option<bv16> {
    if HasPrefix(s, "0x") then
      var n :- ParseUnsigned(s[2..], 16, U16);
      Some(n as bv16)
    else OrTcpFlags(Split(s, '+'))
  }

  function CtFlag(token: string): Option<bv32> {
    match token
    case "new" => Some(0x01) case "est" => Some(0x02) case "rel" => Some(0x04) case "rpl" => Some(0x08)
    case "inv" => Some(0x10) case "trk" => Some(0x20) case "snat" => Some(0x40) case "dnat" => Some(0x80)
    case _ => None
  }

  function OrCtFlags(tokens: seq<string>): Option<bv32> {
    if tokens == [] then Some(0) else
      var before :- OrCtFlags(tokens[..|tokens| - 1]);
      if tokens[|tokens| - 1] == "" then Some(before) else
        var flag :- CtFlag(tokens[|tokens| - 1]);
        Some(before | flag)
  }

  /** `dl_type`: hexadecimal after `0x`, else decimal. */
  function ParseEthType(s: string): Option<nat> {
    if HasPrefix(s, "0x") then ParseUnsigned(s[2..], 16, U16) else ParseUnsigned(s, 10, U16)
  }

  // ---------------------------------------------------------------- match fields

  datatype FieldKey = KInPort | KDlType | KDlVlan | KDlSrc | KTcpFlags | KTpSrc | KTpDst | KNwSrc | KNwDst | KCtState

  function KeyName(f: FieldKey): string {
    match f
    case KInPort => "in_port" case KDlType => "dl_type" case KDlVlan => "dl_vlan" case KDlSrc => "dl_src"
    case KTcpFlags => "tcp_flags" case KTpSrc => "tp_src" case KTpDst => "tp_dst"
    case KNwSrc => "nw_src" case KNwDst => "nw_dst" case KCtState => "ct_state"
  }

  /** The field a key of the JSON entry names; any other key is an error. */
  function KeyOf(k: string): (r: Option<FieldKey>)
    ensures r.Some? ==> KeyName(r.value) == k
  {
    match k
    case "in_port" => Some(KInPort) case "dl_type" => Some(KDlType) case "dl_vlan" => Some(KDlVlan)
    case "dl_src" => Some(KDlSrc) case "tcp_flags" => Some(KTcpFlags) case "tp_src" => Some(KTpSrc)
    case "tp_dst" => Some(KTpDst) case "nw_src" => Some(KNwSrc) case "nw_dst" => Some(KNwDst)
    case "ct_state" => Some(KCtState) case _ => None
  }

  lemma KeyOfName(f: FieldKey)
    ensures KeyOf(KeyName(f)) == Some(f) && !IsMarker(KeyName(f))
  {
  }

  predicate IsMarker(k: string) {
    k in {"arp", "ip", "tcp", "udp", "icmp", "icmp6"}
  }

  /** The protocol markers, in the order the first pass looks at them. */
  function MarkedProto(fields: map<string, string>): Option<nat> {
    if "icmp6" in fields then Some(58)
    else if "tcp" in fields then Some(6)
    else if "udp" in fields then Some(17)
    else if "icmp" in fields then Some(1)
    else None
  }

  function MarkedEthType(fields: map<string, string>): Option<nat> {
    if "icmp6" in fields then Some(0x86dd)
    else if "arp" in fields then Some(0x0806)
    else if "ip" in fields || "tcp" in fields || "udp" in fields || "icmp" in fields then Some(0x0800)
    else None
  }

  /** The field of the match a key sets; the transport ports need a protocol. */
  function SlotOf(f: FieldKey, proto: Option<nat>): Option<MatchField> {
    match f
    case KInPort => Some(InPortField) case KDlType => Some(EthType) case KDlVlan => Some(VlanVid)
    case KDlSrc => Some(EthSrc) case KTcpFlags => Some(TcpFlags)
    case KTpSrc => if proto == Some(6) then Some(TcpSrcField) else if proto == Some(17) then Some(UdpSrcField) else None
    case KTpDst => if proto == Some(6) then Some(TcpDstField) else if proto == Some(17) then Some(UdpDstField) else None
    case KNwSrc => Some(Ipv4Src) case KNwDst => Some(Ipv4Dst) case KCtState => Some(CtState)
  }

  function AsNumber(n: Option<nat>): Option<MatchValue> {
    match n case Some(x) => Some(Number(x)) case None => None
  }

  function AsMac(octets: Option<seq<nat>>): Option<MatchValue> {
    match octets case Some(x) => Some(Mac(x)) case None => None
  }

  function AsPrefix(cidr: Option<(seq<nat>, nat)>): Option<MatchValue> {
    match cidr case Some((address, length)) => Some(Prefix(address, length)) case None => None
  }

  function ValueOf(f: FieldKey, v: string, ports: PortMap): Option<MatchValue> {
    match f
    case KInPort => AsNumber(ResolvePort(v, ports))
    case KDlType => AsNumber(ParseEthType(v))
    case KDlVlan | KTpSrc | KTpDst => AsNumber(ParseUnsigned(v, 10, U16))
    case KDlSrc => AsMac(ParseMac(v))
    case KTcpFlags => (match ParseTcpFlags(v) case Some(x) => Some(Flags(x)) case None => None)
    case KNwSrc | KNwDst => AsPrefix(ParseCidr(v))
    case KCtState => (match OrCtFlags(Split(v, '+')) case Some(x) => Some(Masked(x, x)) case None => None)
  }

  predicate Translates(k: string, v: string, proto: Option<nat>, ports: PortMap) {
    IsMarker(k) || (KeyOf(k).Some? && SlotOf(KeyOf(k).value, proto).Some? && ValueOf(KeyOf(k).value, v, ports).Some?)
  }

  /** The key that sets a field of the match. */
  function SourceOf(slot: MatchField, proto: Option<nat>): Option<FieldKey> {
    match slot
    case InPortField => Some(KInPort) case EthType => Some(KDlType) case VlanVid => Some(KDlVlan)
    case EthSrc => Some(KDlSrc)
    case TcpFlags => Some(KTcpFlags) case Ipv4Src => Some(KNwSrc) case Ipv4Dst => Some(KNwDst)
    case CtState => Some(KCtState)
    case TcpSrcField => if proto == Some(6) then Some(KTpSrc) else None
    case TcpDstField => if proto == Some(6) then Some(KTpDst) else None
    case UdpSrcField => if proto == Some(17) then Some(KTpSrc) else None
    case UdpDstField => if proto == Some(17) then Some(KTpDst) else None
    case IpProto => None
  }

  lemma SlotsAndSources(f: FieldKey, slot: MatchField, proto: Option<nat>)
    ensures SlotOf(f, proto) == Some(slot) <==> SourceOf(slot, proto) == Some(f)
  {
  }

  // ---------------------------------------------------------------- the order of the fields

  const IP_TYPE: nat := 0x0800

  /** An order in which a hash map yields its keys. */
  ghost predicate IsOrder(order: seq<string>, keys: set<string>) {
    multiset(order) == multiset(keys)
  }

  /** The Ethernet type a key sets: its own, or the one the address setters add. */
  function TypeSetBy(k: string, v: string): Option<nat> {
    if k == KeyName(KDlType) then ParseEthType(v)
    else if k == KeyName(KNwSrc) || k == KeyName(KNwDst) then Some(IP_TYPE)
    else None
  }

  /** The Ethernet type after the keys in `done`, in this order: the last setter wins. */
  function TypeAfter(fields: map<string, string>, done: seq<string>): Option<nat> {
    if done == [] then MarkedEthType(fields) else
      var k := done[|done| - 1];
      if k in fields && TypeSetBy(k, fields[k]).Some? then TypeSetBy(k, fields[k])
      else TypeAfter(fields, done[..|done| - 1])
  }

  /** What a field of the match holds after the keys in `done`, in this order. */
  function Slot(slot: MatchField, fields: map<string, string>, done: seq<string>, ports: PortMap): Option<MatchValue> {
    if slot == EthType then AsNumber(TypeAfter(fields, done))
    else if slot == IpProto then AsNumber(MarkedProto(fields))
    else
      match SourceOf(slot, MarkedProto(fields))
      case Some(f) =>
        if KeyName(f) in done && KeyName(f) in fields then ValueOf(f, fields[KeyName(f)], ports) else None
      case None => None
  }

  function Assemble(fields: map<string, string>, done: seq<string>, ports: PortMap): Match {
    map slot: MatchField | Slot(slot, fields, done, ports).Some? :: Slot(slot, fields, done, ports).value
  }

  predicate AllTranslate(fields: map<string, string>, ports: PortMap) {
    forall k | k in fields :: Translates(k, fields[k], MarkedProto(fields), ports)
  }

  /** `parse_match`: an error when some key does not translate, else every key's value in
      its field, and the Ethernet type that was set last. */
  function MatchOf(fields: map<string, string>, order: seq<string>, ports: PortMap): Option<Match> {
    if AllTranslate(fields, ports) then Some(Assemble(fields, order, ports)) else None
  }

  /** A type other than IPv4 beside an address: the two setters of the type disagree. */
  predicate TypeClash(fields: map<string, string>) {
    KeyName(KDlType) in fields && ParseEthType(fields[KeyName(KDlType)]) != Some(IP_TYPE) &&
    (KeyName(KNwSrc) in fields || KeyName(KNwDst) in fields)
  }

  /** In a clash, the type of `dl_type`. */
  function OtherType(fields: map<string, string>): Option<nat> {
    if TypeClash(fields) then ParseEthType(fields[KeyName(KDlType)]) else None
  }

  /** The setter of the type that comes last in the order. */
  function LastSetter(fields: map<string, string>, done: seq<string>): Option<string> {
    if done == [] then None else
      var k := done[|done| - 1];
      if k in fields && TypeSetBy(k, fields[k]).Some? then Some(k) else LastSetter(fields, done[..|done| - 1])
  }

  lemma {:induction false} TypeOfLast(fields: map<string, string>, done: seq<string>)
    ensures
      var k := LastSetter(fields, done);
      (k.Some? ==> k.value in fields && k.value in done && TypeSetBy(k.value, fields[k.value]).Some?) &&
      TypeAfter(fields, done) == if k.Some? then TypeSetBy(k.value, fields[k.value]) else MarkedEthType(fields)
    ensures LastSetter(fields, done) == None <==> forall k | k in done && k in fields :: TypeSetBy(k, fields[k]) == None
  {
    hide TypeSetBy, MarkedEthType;
    if done != [] {
      var before, last := done[..|done| - 1], done[|done| - 1];
      assert done == before + [last];
      TypeOfLast(fields, before);
    }
  }

  /** The Ethernet type when the order does not matter. */
  function FinalType(fields: map<string, string>): Option<nat> {
    if KeyName(KNwSrc) in fields || KeyName(KNwDst) in fields then Some(IP_TYPE)
    else if KeyName(KDlType) in fields then ParseEthType(fields[KeyName(KDlType)])
    else MarkedEthType(fields)
  }

  lemma OrderHasKeys(order: seq<string>, keys: set<string>)
    requires IsOrder(order, keys)
    ensures forall k :: k in order <==> k in keys
  {
    forall k ensures k in order <==> k in keys { assert k in multiset(order) <==> k in multiset(keys); }
  }

  lemma DlTypeTranslates(fields: map<string, string>, ports: PortMap)
    requires AllTranslate(fields, ports) && KeyName(KDlType) in fields
    ensures ParseEthType(fields[KeyName(KDlType)]).Some?
  {
    KeyOfName(KDlType);
    assert Translates(KeyName(KDlType), fields[KeyName(KDlType)], MarkedProto(fields), ports);
    hide ParseEthType, MarkedProto, KeyName;
  }

  /** The type in any order: the one value, or in a clash the value of the last setter. */
  lemma TypeInOrder(fields: map<string, string>, order: seq<string>, ports: PortMap)
    requires AllTranslate(fields, ports) && IsOrder(order, fields.Keys)
    ensures !TypeClash(fields) ==> TypeAfter(fields, order) == FinalType(fields)
    ensures TypeClash(fields) ==>
              TypeAfter(fields, order) ==
              if LastSetter(fields, order) == Some(KeyName(KDlType)) then ParseEthType(fields[KeyName(KDlType)])
              else Some(IP_TYPE)
  {
    hide KeyName, ParseEthType, MarkedEthType, LastSetter, TypeAfter, AllTranslate;
    OrderHasKeys(order, fields.Keys);
    TypeOfLast(fields, order);
    if KeyName(KDlType) in fields { DlTypeTranslates(fields, ports); }
    forall k | k in {KeyName(KDlType), KeyName(KNwSrc), KeyName(KNwDst)} && k in fields
      ensures k in order && TypeSetBy(k, fields[k]).Some?
    {
    }
  }

  // ---------------------------------------------------------------- one match for every order

  lemma OnlyTypeVaries(fields: map<string, string>, a: seq<string>, b: seq<string>, ports: PortMap)
    requires IsOrder(a, fields.Keys) && IsOrder(b, fields.Keys)
    ensures Assemble(fields, a, ports) == Assemble(fields, b, ports) <==> TypeAfter(fields, a) == TypeAfter(fields, b)
  {
    hide TypeAfter, KeyName, ValueOf, MarkedProto, SourceOf;
    OrderHasKeys(a, fields.Keys);
    OrderHasKeys(b, fields.Keys);
    forall slot | slot != EthType ensures Slot(slot, fields, a, ports) == Slot(slot, fields, b, ports) { }
    if Assemble(fields, a, ports) == Assemble(fields, b, ports) {
      assert EthType in Assemble(fields, a, ports) <==> TypeAfter(fields, a).Some?;
      assert EthType in Assemble(fields, b, ports) <==> TypeAfter(fields, b).Some?;
      if TypeAfter(fields, a).Some? {
        assert Assemble(fields, a, ports)[EthType] == Number(TypeAfter(fields, a).value);
        assert Assemble(fields, b, ports)[EthType] == Number(TypeAfter(fields, b).value);
      }
    } else {
      assert TypeAfter(fields, a) == TypeAfter(fields, b) ==>
          forall slot :: Slot(slot, fields, a, ports) == Slot(slot, fields, b, ports);
    }
  }

  /** Any two orders give matches that differ in the type alone. */
  lemma TypeReplaced(fields: map<string, string>, a: seq<string>, b: seq<string>, ports: PortMap)
    requires IsOrder(a, fields.Keys) && IsOrder(b, fields.Keys) && TypeAfter(fields, a).Some?
    ensures Assemble(fields, a, ports) ==
            Assemble(fields, b, ports)[EthType := Number(TypeAfter(fields, a).value)]
  {
    hide TypeAfter, KeyName, ValueOf, MarkedProto, SourceOf;
    OrderHasKeys(a, fields.Keys);
    OrderHasKeys(b, fields.Keys);
    forall slot | slot != EthType ensures Slot(slot, fields, a, ports) == Slot(slot, fields, b, ports) { }
    assert Slot(EthType, fields, a, ports) == AsNumber(TypeAfter(fields, a));
  }

  /** Some order yields a given key last, and some order yields it first. */
  lemma OrdersAround(keys: set<string>, k: string) returns (first: seq<string>, last: seq<string>)
    requires k in keys
    ensures IsOrder(first, keys) && first != [] && first[0] == k
    ensures IsOrder(last, keys) && last != [] && last[|last| - 1] == k
  {
    hide Sort;
    var rest := Keys(keys - {k});
    assert multiset(keys) == multiset(keys - {k}) + multiset{k};
    first, last := [k] + rest, rest + [k];
  }

  lemma {:induction false} LastSetterAppends(fields: map<string, string>, a: seq<string>, b: seq<string>)
    ensures LastSetter(fields, a + b) ==
            if LastSetter(fields, b).Some? then LastSetter(fields, b) else LastSetter(fields, a)
  {
    hide TypeSetBy;
    if b == [] {
      assert a + b == a;
    } else {
      assert (a + b)[..|a + b| - 1] == a + b[..|b| - 1];
      LastSetterAppends(fields, a, b[..|b| - 1]);
    }
  }

  lemma DlTypeFirst(fields: map<string, string>, order: seq<string>, ports: PortMap, nw: string)
    requires AllTranslate(fields, ports) && TypeClash(fields) && IsOrder(order, fields.Keys)
    requires order != [] && order[0] == KeyName(KDlType)
    requires (nw == KeyName(KNwSrc) || nw == KeyName(KNwDst)) && nw in fields && nw != KeyName(KDlType)
    ensures TypeAfter(fields, order) == Some(IP_TYPE)
  {
    hide KeyName, ParseEthType, TypeAfter, LastSetter, IsOrder, AllTranslate, TypeClash;
    var k := KeyName(KDlType);
    TypeInOrder(fields, order, ports);
    FirstIsNotLater(fields, order, k, nw);
    LastSetterAppends(fields, [k], order[1..]);
    assert order == [k] + order[1..];
    TypeOfLast(fields, order[1..]);
  }

  lemma DlTypeLast(fields: map<string, string>, order: seq<string>, ports: PortMap)
    requires AllTranslate(fields, ports) && TypeClash(fields) && IsOrder(order, fields.Keys)
    requires order != [] && order[|order| - 1] == KeyName(KDlType)
    ensures TypeAfter(fields, order) == ParseEthType(fields[KeyName(KDlType)])
  {
    hide KeyName, ParseEthType, IsOrder, AllTranslate;
    DlTypeTranslates(fields, ports);
  }

  lemma ClashDependsOnOrder(fields: map<string, string>, ports: PortMap) returns (a: seq<string>, b: seq<string>)
    requires AllTranslate(fields, ports) && TypeClash(fields)
    ensures IsOrder(a, fields.Keys) && IsOrder(b, fields.Keys)
    ensures TypeAfter(fields, a) == Some(IP_TYPE) && TypeAfter(fields, b) == ParseEthType(fields[KeyName(KDlType)])
  {
    var k := KeyName(KDlType);
    var nw := if KeyName(KNwSrc) in fields then KeyName(KNwSrc) else KeyName(KNwDst);
    assert nw != k;
    hide KeyName, ParseEthType, TypeAfter, IsOrder, AllTranslate;
    a, b := OrdersAround(fields.Keys, k);
    DlTypeFirst(fields, a, ports, nw);
    DlTypeLast(fields, b, ports);
  }

  lemma FirstIsNotLater(fields: map<string, string>, a: seq<string>, k: string, nw: string)
    requires IsOrder(a, fields.Keys) && a != [] && a[0] == k && nw in fields && nw != k
    ensures k !in a[1..] && nw in a[1..]
  {
    OrderHasKeys(a, fields.Keys);
    assert a == [k] + a[1..];
    assert multiset(a)[k] == 1;
    var i :| 0 <= i < |a| && a[i] == nw;
    assert a[1..][i - 1] == nw;
  }

  /** For every field map: all orders translate to one result, success or failure, if and
      only if no type other than IPv4 stands beside an address (or nothing translates). */
  lemma OneMatchIff(fields: map<string, string>, ports: PortMap)
    ensures (forall a, b | IsOrder(a, fields.Keys) && IsOrder(b, fields.Keys) ::
               MatchOf(fields, a, ports) == MatchOf(fields, b, ports)) <==>
            !(AllTranslate(fields, ports) && TypeClash(fields))
  {
    hide Assemble, TypeAfter, IsOrder, AllTranslate, TypeClash, FinalType;
    if AllTranslate(fields, ports) {
      if TypeClash(fields) {
        ClashIsSeen(fields, ports);
      } else {
        forall a, b | IsOrder(a, fields.Keys) && IsOrder(b, fields.Keys)
          ensures MatchOf(fields, a, ports) == MatchOf(fields, b, ports)
        {
          OnlyTypeVaries(fields, a, b, ports);
          TypeInOrder(fields, a, ports);
          TypeInOrder(fields, b, ports);
        }
      }
    }
  }

  lemma ClashIsSeen(fields: map<string, string>, ports: PortMap)
    requires AllTranslate(fields, ports) && TypeClash(fields)
    ensures exists a, b :: IsOrder(a, fields.Keys) && IsOrder(b, fields.Keys) &&
                           MatchOf(fields, a, ports) != MatchOf(fields, b, ports)
  {
    var a, b := ClashDependsOnOrder(fields, ports);
    hide Assemble, TypeAfter, IsOrder, AllTranslate, ParseEthType;
    OnlyTypeVaries(fields, a, b, ports);
    assert MatchOf(fields, a, ports) != MatchOf(fields, b, ports);
  }

  // ---------------------------------------------------------------- nothing dropped, nothing invented

  /** Every key that is no marker has its value in the match, except a type that an address
      setter overwrote. */
  lemma NoFieldIsDropped(fields: map<string, string>, order: seq<string>, ports: PortMap, k: string)
    requires MatchOf(fields, order, ports).Some? && IsOrder(order, fields.Keys) && k in fields
    ensures
      var m, proto := MatchOf(fields, order, ports).value, MarkedProto(fields);
      if IsMarker(k) then EthType in m
      else
        KeyOf(k).Some? && SlotOf(KeyOf(k).value, proto).Some? && SlotOf(KeyOf(k).value, proto).value in m &&
        (ValueOf(KeyOf(k).value, fields[k], ports) == Some(m[SlotOf(KeyOf(k).value, proto).value]) <==>
         !(k == KeyName(KDlType) && TypeClash(fields) && LastSetter(fields, order) != Some(k)))
  {
    hide KeyOf, ValueOf, IsMarker, KeyName, SlotOf, IsOrder, TypeClash, TypeAfter, LastSetter;
    var m, proto := MatchOf(fields, order, ports).value, MarkedProto(fields);
    assert Translates(k, fields[k], proto, ports);
    OrderHasKeys(order, fields.Keys);
    if IsMarker(k) {
      MarkerSetsType(fields, order, ports, k);
    } else {
      var slot := SlotOf(KeyOf(k).value, proto).value;
      SlotsAndSources(KeyOf(k).value, slot, proto);
      if slot == EthType {
        DlTypeIsKept(fields, order, ports, k);
      } else {
        OnlyDlTypeIsType(k, proto);
        assert Slot(slot, fields, order, ports) == ValueOf(KeyOf(k).value, fields[k], ports);
      }
    }
  }

  lemma OnlyDlTypeIsType(k: string, proto: Option<nat>)
    requires KeyOf(k).Some? && SlotOf(KeyOf(k).value, proto).Some?
    ensures k == KeyName(KDlType) <==> SlotOf(KeyOf(k).value, proto) == Some(EthType)
  {
    if k == KeyName(KDlType) { KeyOfName(KDlType); }
    hide KeyName;
  }

  lemma MarkerSetsType(fields: map<string, string>, order: seq<string>, ports: PortMap, k: string)
    requires IsMarker(k) && k in fields
    ensures EthType in Assemble(fields, order, ports)
  {
    MarkersSetEthType(fields, k);
    hide IsMarker, MarkedEthType, TypeSetBy, LastSetter;
    TypeOfLast(fields, order);
    assert Slot(EthType, fields, order, ports).Some?;
  }

  lemma MarkersSetEthType(fields: map<string, string>, k: string)
    requires k in fields && IsMarker(k)
    ensures MarkedEthType(fields).Some?
  {
  }

  lemma DlTypeIsKept(fields: map<string, string>, order: seq<string>, ports: PortMap, k: string)
    requires AllTranslate(fields, ports) && IsOrder(order, fields.Keys) && k in fields
    requires KeyOf(k).Some? && SlotOf(KeyOf(k).value, MarkedProto(fields)) == Some(EthType)
    ensures
      var m := Assemble(fields, order, ports);
      k == KeyName(KDlType) && EthType in m &&
      (ValueOf(KeyOf(k).value, fields[k], ports) == Some(m[EthType]) <==>
       !(TypeClash(fields) && LastSetter(fields, order) != Some(k)))
  {
    OnlyDlTypeIsType(k, MarkedProto(fields));
    DlTypeTranslates(fields, ports);
    TypeInOrder(fields, order, ports);
    hide KeyName, LastSetter, TypeAfter, IsOrder, AllTranslate, ParseEthType, MarkedEthType, MarkedProto;
    assert Slot(EthType, fields, order, ports) == AsNumber(TypeAfter(fields, order));
  }

  /** Every field of the match comes from a key of the entry, from the markers, or from the
      address setters, which make the packet IPv4. */
  lemma NoFieldIsInvented(fields: map<string, string>, order: seq<string>, ports: PortMap, slot: MatchField)
    requires MatchOf(fields, order, ports).Some? && IsOrder(order, fields.Keys)
    requires slot in MatchOf(fields, order, ports).value
    ensures
      var value := Some(MatchOf(fields, order, ports).value[slot]);
      (exists f :: KeyName(f) in fields && SlotOf(f, MarkedProto(fields)) == Some(slot) &&
                   value == ValueOf(f, fields[KeyName(f)], ports)) ||
      (slot == EthType && value == AsNumber(MarkedEthType(fields))) ||
      (slot == IpProto && value == AsNumber(MarkedProto(fields))) ||
      (slot == EthType && value == Some(Number(IP_TYPE)) && (KeyName(KNwSrc) in fields || KeyName(KNwDst) in fields))
  {
    hide KeyName, ParseEthType, LastSetter, IsOrder, AllTranslate, MarkedEthType, MarkedProto;
    if slot == EthType {
      TypeOfLast(fields, order);
      var k := LastSetter(fields, order);
      if k == Some(KeyName(KDlType)) {
        assert ValueOf(KDlType, fields[KeyName(KDlType)], ports) == AsNumber(TypeAfter(fields, order));
      }
    } else if slot != IpProto {
      var source := SourceOf(slot, MarkedProto(fields));
      SlotsAndSources(source.value, slot, MarkedProto(fields));
    }
  }

  // ---------------------------------------------------------------- on the wire

  predicate NoFlags(v: string) { forall c | c in v :: c == '+' }

  /** A key that is not on the wire: TCP flags, which the encoder leaves out, and a
      connection state without flags, whose mask is empty. */
  predicate SendsNothing(k: string, v: string) {
    k == KeyName(KTcpFlags) || (k == KeyName(KCtState) && NoFlags(v))
  }

  lemma {:induction false} OnlySeparators(s: string, separator: char)
    ensures (forall t | t in Split(s, separator) :: t == "") <==> (forall c | c in s :: c == separator)
  {
    if s != "" {
      OnlySeparators(s[1..], separator);
      var rest := Split(s[1..], separator);
      assert s == [s[0]] + s[1..];
      assert forall c :: c in s <==> c == s[0] || c in s[1..];
      if s[0] == separator {
        assert Split(s, separator) == [""] + rest;
        assert forall t :: t in Split(s, separator) <==> t == "" || t in rest;
      } else {
        assert Split(s, separator)[0] == [s[0]] + rest[0];
        assert Split(s, separator)[0] in Split(s, separator) && s[0] in s;
      }
    }
  }

  lemma CtFlagIsNotZero(token: string)
    ensures CtFlag(token).Some? ==> CtFlag(token).value != 0
  {
  }

  lemma OrIsZero(a: bv32, b: bv32)
    ensures a | b == 0 <==> a == 0 && b == 0
  {
  }

  lemma {:induction false} NoCtFlags(tokens: seq<string>)
    ensures OrCtFlags(tokens).Some? && OrCtFlags(tokens).value == 0 <==> forall t | t in tokens :: t == ""
  {
    hide CtFlag;
    if tokens != [] {
      var before, last := tokens[..|tokens| - 1], tokens[|tokens| - 1];
      assert tokens == before + [last];
      assert last in tokens && forall t :: t in tokens <==> t in before || t == last;
      NoCtFlags(before);
      if last != "" && OrCtFlags(before).Some? && CtFlag(last).Some? {
        CtFlagIsNotZero(last);
        OrIsZero(OrCtFlags(before).value, CtFlag(last).value);
      }
    }
  }

  lemma FlaglessCtState(v: string, ports: PortMap)
    ensures NoFlags(v) ==> ValueOf(KCtState, v, ports).Some?
    ensures
      var value := ValueOf(KCtState, v, ports);
      value.Some? ==> value.value.Masked? && (value.value.mask == 0 <==> NoFlags(v))
  {
    hide CtFlag, Split, OrCtFlags;
    NoCtFlags(Split(v, '+'));
    OnlySeparators(v, '+');
    assert NoFlags(v) <==> forall t | t in Split(v, '+') :: t == "";
  }

  /** What a key that is no marker asks for, as the wire would say it; an empty mask or
      prefix asks for nothing. */
  function Asked(k: string, v: string, proto: Option<nat>, ports: PortMap): Option<MatchValue>
    requires !IsMarker(k) && Translates(k, v, proto, ports)
  {
    var f := KeyOf(k).value;
    var value := ValueOf(f, v, ports).value;
    if f == KTcpFlags then Some(value) else SentValue(SlotOf(f, proto).value, value)
  }

  /** The match sent constrains a field as its key asks. */
  predicate SendsAsked(sent: Match, k: string, v: string, proto: Option<nat>, ports: PortMap)
    requires !IsMarker(k) && Translates(k, v, proto, ports)
  {
    var slot, asked := SlotOf(KeyOf(k).value, proto).value, Asked(k, v, proto, ports);
    asked.Some? ==> slot in sent && sent[slot] == asked.value
  }

  lemma TcpFlagsKey(k: string, proto: Option<nat>)
    requires KeyOf(k).Some? && SlotOf(KeyOf(k).value, proto).Some?
    ensures k == KeyName(KTcpFlags) <==> KeyOf(k) == Some(KTcpFlags)
    ensures k == KeyName(KTcpFlags) <==> SlotOf(KeyOf(k).value, proto) == Some(TcpFlags)
  {
    if k == KeyName(KTcpFlags) { KeyOfName(KTcpFlags); }
    hide KeyName;
  }

  /** One key and one order: the match sent keeps what the key asks, unless it asks for TCP
      flags or for a type that an address setter overwrote. */
  lemma SendsAskedIff(fields: map<string, string>, order: seq<string>, ports: PortMap, k: string)
    requires MatchOf(fields, order, ports).Some? && IsOrder(order, fields.Keys) && k in fields && !IsMarker(k)
    ensures Translates(k, fields[k], MarkedProto(fields), ports)
    ensures SendsAsked(Sent(MatchOf(fields, order, ports).value), k, fields[k], MarkedProto(fields), ports) <==>
            k != KeyName(KTcpFlags) &&
            !(k == KeyName(KDlType) && TypeClash(fields) && LastSetter(fields, order) != Some(k))
  {
    hide KeyOf, ValueOf, IsMarker, KeyName, IsOrder, TypeClash, LastSetter, Assemble, MarkedProto;
    var m, proto := MatchOf(fields, order, ports).value, MarkedProto(fields);
    assert Translates(k, fields[k], proto, ports);
    NoFieldIsDropped(fields, order, ports, k);
    TcpFlagsKey(k, proto);
    OnlyDlTypeIsType(k, proto);
    var slot, value := SlotOf(KeyOf(k).value, proto).value, ValueOf(KeyOf(k).value, fields[k], ports).value;
    hide SlotOf;
    if slot != TcpFlags {
      assert slot in Sent(m) <==> SentValue(slot, m[slot]).Some?;
      if slot != EthType { assert m[slot] == value; }
    }
  }

  ghost predicate SendsAllAsked(fields: map<string, string>, order: seq<string>, ports: PortMap)
    requires MatchOf(fields, order, ports).Some?
  {
    forall k | k in fields && !IsMarker(k) ::
      SendsAsked(Sent(MatchOf(fields, order, ports).value), k, fields[k], MarkedProto(fields), ports)
  }

  lemma SendsAllAskedIff(fields: map<string, string>, order: seq<string>, ports: PortMap)
    requires MatchOf(fields, order, ports).Some? && IsOrder(order, fields.Keys)
    ensures SendsAllAsked(fields, order, ports) <==>
            KeyName(KTcpFlags) !in fields &&
            !(TypeClash(fields) && LastSetter(fields, order) != Some(KeyName(KDlType)))
  {
    KeyOfName(KTcpFlags);
    KeyOfName(KDlType);
    hide KeyName, SendsAsked, TypeClash, LastSetter, Assemble, IsMarker, IsOrder, KeyOf, AllTranslate, MarkedProto;
    forall k | k in fields && !IsMarker(k)
      ensures Translates(k, fields[k], MarkedProto(fields), ports) &&
              (SendsAsked(Sent(MatchOf(fields, order, ports).value), k, fields[k], MarkedProto(fields), ports) <==>
               k != KeyName(KTcpFlags) &&
               !(k == KeyName(KDlType) && TypeClash(fields) && LastSetter(fields, order) != Some(k)))
    {
      SendsAskedIff(fields, order, ports, k);
    }
    ClashHasType(fields);
  }

  lemma ClashHasType(fields: map<string, string>)
    ensures TypeClash(fields) ==> KeyName(KDlType) in fields
  {
  }

  /** The rule of the file, no flow looser than asked for: the match sent keeps what every
      key asks, in every order, if and only if no key asks for TCP flags and no type other
      than IPv4 stands beside an address. */
  lemma NothingLooserIff(fields: map<string, string>, ports: PortMap)
    requires AllTranslate(fields, ports)
    ensures (forall order | IsOrder(order, fields.Keys) :: SendsAllAsked(fields, order, ports)) <==>
            KeyName(KTcpFlags) !in fields && !TypeClash(fields)
  {
    hide KeyName, TypeClash, LastSetter, Assemble, SendsAllAsked, IsOrder, AllTranslate, TypeAfter, ParseEthType;
    forall order | IsOrder(order, fields.Keys)
      ensures SendsAllAsked(fields, order, ports) <==>
              KeyName(KTcpFlags) !in fields &&
              !(TypeClash(fields) && LastSetter(fields, order) != Some(KeyName(KDlType)))
    {
      SendsAllAskedIff(fields, order, ports);
    }
    SomeOrder(fields.Keys);
    if TypeClash(fields) {
      var a, b := ClashDependsOnOrder(fields, ports);
      TypeInOrder(fields, a, ports);
      ClashDiffers(fields);
    }
  }

  lemma SomeOrder(keys: set<string>)
    ensures IsOrder(Keys(keys), keys)
  {
    hide Sort;
  }

  lemma ClashDiffers(fields: map<string, string>)
    requires TypeClash(fields)
    ensures KeyName(KDlType) in fields && ParseEthType(fields[KeyName(KDlType)]) != Some(IP_TYPE)
  {
  }

  /** A key that sends something: markers and addresses the type, any other its own field. */
  lemma WhatIsSent(fields: map<string, string>, order: seq<string>, ports: PortMap, k: string)
    requires MatchOf(fields, order, ports).Some? && IsOrder(order, fields.Keys)
    requires k in fields && !SendsNothing(k, fields[k])
    ensures
      var sent := Sent(MatchOf(fields, order, ports).value);
      if IsMarker(k) || KeyOf(k) == Some(KNwSrc) || KeyOf(k) == Some(KNwDst) then EthType in sent
      else KeyOf(k).Some? && SlotOf(KeyOf(k).value, MarkedProto(fields)).Some? &&
           SlotOf(KeyOf(k).value, MarkedProto(fields)).value in sent
  {
    hide KeyName, IsOrder, Assemble, MarkedProto, IsMarker, KeyOf, ValueOf, NoFlags, TypeClash, LastSetter;
    var m, proto := MatchOf(fields, order, ports).value, MarkedProto(fields);
    NoFieldIsDropped(fields, order, ports, k);
    if !IsMarker(k) {
      var f := KeyOf(k).value;
      if f == KNwSrc || f == KNwDst {
        AddressSetsType(fields, order, ports, k);
      } else if f == KCtState {
        FlaglessCtState(fields[k], ports);
        assert m[CtState] == ValueOf(f, fields[k], ports).value by { OnlyDlTypeIsType(k, proto); }
      } else {
        TcpFlagsKey(k, proto);
      }
    }
  }

  /** The entry is sent as a match of everything exactly when none of its keys is on the
      wire. */
  lemma SentMatchesAllIff(fields: map<string, string>, order: seq<string>, ports: PortMap)
    requires MatchOf(fields, order, ports).Some? && IsOrder(order, fields.Keys)
    ensures Sent(MatchOf(fields, order, ports).value) == ANY <==> forall k | k in fields :: SendsNothing(k, fields[k])
  {
    hide KeyName, IsOrder, Assemble, MarkedProto, SendsNothing, SentValue, IsMarker, AllTranslate, SlotOf, KeyOf;
    var m := MatchOf(fields, order, ports).value;
    forall k | k in fields && !SendsNothing(k, fields[k]) ensures Sent(m) != ANY {
      WhatIsSent(fields, order, ports, k);
    }
    if forall k | k in fields :: SendsNothing(k, fields[k]) {
      forall slot | slot in m ensures SentValue(slot, m[slot]) == None { NothingIsSent(fields, order, ports, slot); }
    }
  }

  /** Only the port is on the wire, and it is this one. */
  predicate OnlyPort(fields: map<string, string>, ports: PortMap, port: nat) {
    KeyName(KInPort) in fields && ResolvePort(fields[KeyName(KInPort)], ports) == Some(port) &&
    forall k | k in fields && k != KeyName(KInPort) :: SendsNothing(k, fields[k])
  }

  lemma SentIsPortIff(fields: map<string, string>, order: seq<string>, ports: PortMap, port: nat)
    requires MatchOf(fields, order, ports).Some? && IsOrder(order, fields.Keys)
    ensures Sent(MatchOf(fields, order, ports).value) == map[InPortField := Number(port)] <==>
            OnlyPort(fields, ports, port)
  {
    hide KeyName, IsOrder, Assemble, MarkedProto, SendsNothing, AllTranslate, ResolvePort;
    var m := MatchOf(fields, order, ports).value;
    PortIsSent(fields, order, ports);
    if Sent(m) == map[InPortField := Number(port)] {
      assert InPortField in Sent(m) && Sent(m)[InPortField] == Number(port);
      forall k | k in fields && k != KeyName(KInPort) ensures SendsNothing(k, fields[k]) {
        if !SendsNothing(k, fields[k]) { SendsNoPort(fields, order, ports, k); }
      }
    }
    if OnlyPort(fields, ports, port) {
      forall slot | slot in m && slot != InPortField ensures SentValue(slot, m[slot]) == None {
        NothingElseIsSent(fields, order, ports, slot);
      }
    }
  }

  lemma PortIsSent(fields: map<string, string>, order: seq<string>, ports: PortMap)
    requires MatchOf(fields, order, ports).Some? && IsOrder(order, fields.Keys)
    ensures
      var m := MatchOf(fields, order, ports).value;
      (InPortField in m <==> KeyName(KInPort) in fields) && (InPortField in m <==> InPortField in Sent(m)) &&
      (InPortField in m ==>
         ResolvePort(fields[KeyName(KInPort)], ports).Some? && Sent(m)[InPortField] == m[InPortField] ==
         Number(ResolvePort(fields[KeyName(KInPort)], ports).value))
  {
    var m := MatchOf(fields, order, ports).value;
    OrderHasKeys(order, fields.Keys);
    if KeyName(KInPort) in fields {
      KeyOfName(KInPort);
      assert Translates(KeyName(KInPort), fields[KeyName(KInPort)], MarkedProto(fields), ports);
    }
    hide KeyName, IsOrder, MarkedProto, ResolvePort, AllTranslate;
    assert InPortField in m <==> Slot(InPortField, fields, order, ports).Some?;
  }

  lemma SendsNoPort(fields: map<string, string>, order: seq<string>, ports: PortMap, k: string)
    requires MatchOf(fields, order, ports).Some? && IsOrder(order, fields.Keys)
    requires k in fields && k != KeyName(KInPort) && !SendsNothing(k, fields[k])
    ensures exists slot :: slot != InPortField && slot in Sent(MatchOf(fields, order, ports).value)
  {
    hide KeyName, IsOrder, Assemble, MarkedProto, IsMarker, KeyOf, SendsNothing, AllTranslate, Sent;
    WhatIsSent(fields, order, ports, k);
  }

  lemma NothingElseIsSent(fields: map<string, string>, order: seq<string>, ports: PortMap, slot: MatchField)
    requires MatchOf(fields, order, ports).Some? && IsOrder(order, fields.Keys)
    requires forall k | k in fields && k != KeyName(KInPort) :: SendsNothing(k, fields[k])
    requires slot in MatchOf(fields, order, ports).value && slot != InPortField
    ensures SentValue(slot, MatchOf(fields, order, ports).value[slot]) == None
  {
    hide KeyName, KeyOf, IsMarker, IsOrder, Assemble, AllTranslate, ValueOf, NoFlags, MarkedProto, MarkedEthType;
    NoFieldIsInvented(fields, order, ports, slot);
    FewNames(fields);
    var m, proto := MatchOf(fields, order, ports).value, MarkedProto(fields);
    var f :| KeyName(f) in fields && SlotOf(f, proto) == Some(slot) &&
             Some(m[slot]) == ValueOf(f, fields[KeyName(f)], ports);
    if f == KCtState { FlaglessCtState(fields[KeyName(f)], ports); }
    KeyOfName(f);
    KeyOfName(KInPort);
    KeyOfName(KTcpFlags);
    KeyOfName(KCtState);
  }

  lemma FewNames(fields: map<string, string>)
    requires forall k | k in fields && k != KeyName(KInPort) :: SendsNothing(k, fields[k])
    ensures MarkedEthType(fields) == None && MarkedProto(fields) == None
    ensures KeyName(KNwSrc) !in fields && KeyName(KNwDst) !in fields
  {
  }

  lemma AddressSetsType(fields: map<string, string>, order: seq<string>, ports: PortMap, k: string)
    requires k in fields && IsOrder(order, fields.Keys) && (KeyOf(k) == Some(KNwSrc) || KeyOf(k) == Some(KNwDst))
    ensures EthType in Assemble(fields, order, ports)
  {
    hide IsOrder, LastSetter, TypeAfter, KeyOf, ParseEthType;
    OrderHasKeys(order, fields.Keys);
    TypeOfLast(fields, order);
    assert TypeSetBy(k, fields[k]).Some?;
    assert Slot(EthType, fields, order, ports).Some?;
  }

  lemma NothingIsSent(fields: map<string, string>, order: seq<string>, ports: PortMap, slot: MatchField)
    requires MatchOf(fields, order, ports).Some? && IsOrder(order, fields.Keys)
    requires forall k | k in fields :: SendsNothing(k, fields[k])
    requires slot in MatchOf(fields, order, ports).value
    ensures SentValue(slot, MatchOf(fields, order, ports).value[slot]) == None
  {
    PortIsSent(fields, order, ports);
    PortSendsSomething(fields);
    hide KeyName, IsOrder, MatchOf, SendsNothing, ResolvePort;
    NothingElseIsSent(fields, order, ports, slot);
  }

  lemma PortSendsSomething(fields: map<string, string>)
    requires forall k | k in fields :: SendsNothing(k, fields[k])
    ensures KeyName(KInPort) !in fields
  {
  }

  // ---------------------------------------------------------------- a further field

  lemma SameMarkers(fields: map<string, string>, f: FieldKey, v: string)
    ensures
      var fields' := fields[KeyName(f) := v];
      MarkedProto(fields') == MarkedProto(fields) && MarkedEthType(fields') == MarkedEthType(fields)
  {
    KeyOfName(f);
    hide KeyName;
  }

  /** The type a further key sets is the one the entry already has, if both have one. */
  predicate SameType(fields: map<string, string>, f: FieldKey, v: string) {
    FinalType(fields).Some? && TypeSetBy(KeyName(f), v).Some? ==> TypeSetBy(KeyName(f), v) == FinalType(fields)
  }

  lemma FinalTypeGrows(fields: map<string, string>, f: FieldKey, v: string, ports: PortMap)
    requires KeyName(f) !in fields && !TypeClash(fields[KeyName(f) := v])
    requires AllTranslate(fields[KeyName(f) := v], ports)
    ensures !TypeClash(fields)
    ensures
      var before, after := FinalType(fields), FinalType(fields[KeyName(f) := v]);
      (before.Some? ==> after.Some?) && (before.Some? ==> (after == before <==> SameType(fields, f, v)))
  {
    SameMarkers(fields, f, v);
    if f == KDlType { DlTypeTranslates(fields[KeyName(f) := v], ports); }
    hide ParseEthType, MarkedEthType, MarkedProto;
  }

  lemma OtherSlotsStay(fields: map<string, string>, f: FieldKey, v: string, order: seq<string>, order': seq<string>,
                       ports: PortMap, slot: MatchField)
    requires KeyName(f) !in fields && IsOrder(order, fields.Keys) && IsOrder(order', fields[KeyName(f) := v].Keys)
    requires slot != EthType && Slot(slot, fields, order, ports).Some?
    ensures Slot(slot, fields[KeyName(f) := v], order', ports) == Slot(slot, fields, order, ports)
  {
    SameMarkers(fields, f, v);
    OrderHasKeys(order, fields.Keys);
    OrderHasKeys(order', fields[KeyName(f) := v].Keys);
    hide KeyName, ValueOf, MarkedProto, IsOrder;
  }

  /** A further key of a field not yet set keeps all other fields of the match. It keeps the
      Ethernet type, and so narrows the match, exactly when the type set last is still the
      same: without a clash, when the key sets none or the same. */
  lemma MoreFieldsNarrow(fields: map<string, string>, f: FieldKey, v: string, order: seq<string>, order': seq<string>,
                         ports: PortMap)
    requires KeyName(f) !in fields
    requires IsOrder(order, fields.Keys) && IsOrder(order', fields[KeyName(f) := v].Keys)
    requires MatchOf(fields, order, ports).Some? && MatchOf(fields[KeyName(f) := v], order', ports).Some?
    ensures
      var m, m' := MatchOf(fields, order, ports).value, MatchOf(fields[KeyName(f) := v], order', ports).value;
      m.Keys <= m'.Keys && (forall slot | slot in m && slot != EthType :: m'[slot] == m[slot]) &&
      ((forall slot | slot in m :: m'[slot] == m[slot]) <==> KeepsType(fields, f, v, order, order')) &&
      (KeepsType(fields, f, v, order, order') ==> Narrows(Sent(m'), Sent(m)))
    ensures !TypeClash(fields[KeyName(f) := v]) ==> (KeepsType(fields, f, v, order, order') <==> SameType(fields, f, v))
  {
    hide KeyName, IsOrder, AllTranslate, TypeClash, FinalType, SameType, TypeAfter, LastSetter, ParseEthType, SentValue;
    var fields' := fields[KeyName(f) := v];
    TypesGrow(fields, f, v, order, order', ports);
    var m, m' := MatchOf(fields, order, ports).value, MatchOf(fields', order', ports).value;
    forall slot | slot in m && slot != EthType ensures slot in m' && m'[slot] == m[slot] {
      assert Slot(slot, fields, order, ports).Some?;
      OtherSlotsStay(fields, f, v, order, order', ports, slot);
    }
    TypeSlot(fields, order, ports);
    TypeSlot(fields', order', ports);
  }

  /** The type set last, if one was set, is still set last with the further key. */
  predicate KeepsType(fields: map<string, string>, f: FieldKey, v: string, order: seq<string>, order': seq<string>) {
    TypeAfter(fields, order).Some? ==> TypeAfter(fields[KeyName(f) := v], order') == TypeAfter(fields, order)
  }

  lemma TypesGrow(fields: map<string, string>, f: FieldKey, v: string, order: seq<string>, order': seq<string>,
                  ports: PortMap)
    requires KeyName(f) !in fields && AllTranslate(fields, ports) && AllTranslate(fields[KeyName(f) := v], ports)
    requires IsOrder(order, fields.Keys) && IsOrder(order', fields[KeyName(f) := v].Keys)
    ensures TypeAfter(fields, order).Some? ==> TypeAfter(fields[KeyName(f) := v], order').Some?
    ensures !TypeClash(fields[KeyName(f) := v]) ==> (KeepsType(fields, f, v, order, order') <==> SameType(fields, f, v))
  {
    hide KeyName, IsOrder, AllTranslate, FinalType, SameType, TypeAfter, LastSetter, ParseEthType;
    var fields' := fields[KeyName(f) := v];
    TypeInOrder(fields, order, ports);
    TypeInOrder(fields', order', ports);
    if TypeClash(fields') {
      DlTypeTranslates(fields', ports);
    } else {
      FinalTypeGrows(fields, f, v, ports);
      NoTypeIsSame(fields, f, v);
    }
  }

  lemma NoTypeIsSame(fields: map<string, string>, f: FieldKey, v: string)
    ensures FinalType(fields) == None ==> SameType(fields, f, v)
  {
    hide FinalType, TypeSetBy;
  }

  lemma TypeSlot(fields: map<string, string>, order: seq<string>, ports: PortMap)
    ensures
      var m := Assemble(fields, order, ports);
      (EthType in m <==> TypeAfter(fields, order).Some?) &&
      (EthType in m ==> m[EthType] == Number(TypeAfter(fields, order).value))
  {
    hide TypeAfter;
  }

  /** Every field of `b` is in `a` with the same value. */
  predicate Narrows(a: Match, b: Match) {
    forall slot | slot in b :: slot in a && a[slot] == b[slot]
  }

  // ---------------------------------------------------------------- inputs

  const ARP_NUMBER := "0x806"
  const HOST := "10.0.0.1"

  lemma ArpType()
    ensures ParseEthType(ARP_NUMBER) == Some(0x0806)
  {
    var digits := "806";
    assert "0x806"[2..] == digits && digits[..2] == "80" && "80"[..1] == "8" && "8"[..0] == "";
    assert Digits("8", 16) == Some(8) && Digits("80", 16) == Some(0x80) && Digits(digits, 16) == Some(0x806);
  }

  lemma {:induction false} SplitHead(head: string, rest: string, separator: char)
    requires separator !in head
    ensures Split(head + [separator] + rest, separator) == [head] + Split(rest, separator)
  {
    var s := head + [separator] + rest;
    if head == "" {
      assert s == [separator] + rest && s[1..] == rest;
    } else {
      assert s[1..] == head[1..] + [separator] + rest;
      SplitHead(head[1..], rest, separator);
      assert head == [head[0]] + head[1..];
    }
  }

  lemma {:induction false} SplitWhole(s: string, separator: char)
    requires separator !in s
    ensures Split(s, separator) == [s]
  {
    if s != "" {
      SplitWhole(s[1..], separator);
      assert s == [s[0]] + s[1..];
    }
  }

  lemma AddressParts()
    ensures Split(HOST, '.') == ["10", "0", "0", "1"]
  {
    SplitHead("10", "0.0.1", '.');
    SplitHead("0", "0.1", '.');
    SplitHead("0", "1", '.');
    SplitWhole("1", '.');
    assert "10" + ['.'] + "0.0.1" == "10.0.0.1" && "0" + ['.'] + "0.1" == "0.0.1" && "0" + ['.'] + "1" == "0.1";
  }

  lemma SmallOctets()
    ensures AddressOctet("10") == Some(10) && AddressOctet("0") == Some(0) && AddressOctet("1") == Some(1)
  {
    assert "10"[..1] == "1" && "1"[..0] == "" && "0"[..0] == "";
    assert Digits("1", 10) == Some(1) && Digits("0", 10) == Some(0) && Digits("10", 10) == Some(10);
  }

  lemma {:induction false} ParsesAll(parts: seq<string>, parse: string -> Option<nat>)
    requires forall p | p in parts :: parse(p).Some?
    ensures ParseAll(parts, parse).Some?
  {
    if parts != [] { ParsesAll(parts[..|parts| - 1], parse); }
  }

  lemma {:induction false} NoSlash(s: string)
    requires '/' !in s
    ensures Slash(s) == None
  {
    if s != "" { NoSlash(s[1..]); }
  }

  lemma FourOctets(s: string, parts: seq<string>)
    requires Split(s, '.') == parts && |parts| == 4 && forall p | p in parts :: AddressOctet(p).Some?
    ensures ParseAddress(s).Some?
  {
    hide AddressOctet, Split, ParseAll;
    ParsesAll(parts, AddressOctet);
  }

  lemma HostHasNoSlash()
    ensures Slash(HOST) == None
  {
    NoSlash(HOST);
  }

  lemma AddressTranslates()
    ensures ParseAddress(HOST).Some? && Slash(HOST) == None
  {
    hide AddressOctet, Split, ParseAll, ParseAddress, HOST;
    AddressParts();
    SmallOctets();
    HostHasNoSlash();
    FourOctets(HOST, ["10", "0", "0", "1"]);
  }

  lemma HostTranslates(v: string, ports: PortMap)
    requires ParseAddress(v).Some? && Slash(v) == None
    ensures ValueOf(KNwSrc, v, ports).Some?
  {
    hide ParseAddress, Slash;
  }

  lemma TypeAndAddressKeys(t: string, v: string, ports: PortMap)
    requires ParseEthType(t).Some? && ParseEthType(t) != Some(IP_TYPE) && ValueOf(KNwSrc, v, ports).Some?
    ensures
      var fields := map[KeyName(KDlType) := t, KeyName(KNwSrc) := v];
      AllTranslate(fields, ports) && TypeClash(fields)
  {
    KeyOfName(KDlType);
    KeyOfName(KNwSrc);
    hide KeyName, ParseEthType, MarkedProto;
  }

  /** A type other than IPv4 beside an address: the order of the hash map decides the type. */
  lemma TypeBesideAddress(t: string, v: string, ports: PortMap)
    requires ParseEthType(t).Some? && ParseEthType(t) != Some(IP_TYPE) && ValueOf(KNwSrc, v, ports).Some?
    ensures
      var fields := map[KeyName(KDlType) := t, KeyName(KNwSrc) := v];
      var a, b := [KeyName(KDlType), KeyName(KNwSrc)], [KeyName(KNwSrc), KeyName(KDlType)];
      IsOrder(a, fields.Keys) && IsOrder(b, fields.Keys) &&
      MatchOf(fields, a, ports).Some? && MatchOf(fields, b, ports).Some? &&
      TypeAfter(fields, a) == Some(IP_TYPE) && TypeAfter(fields, b) == ParseEthType(t) &&
      MatchOf(fields, a, ports) != MatchOf(fields, b, ports)
  {
    var k, nw := KeyName(KDlType), KeyName(KNwSrc);
    var fields := map[k := t, nw := v];
    var a, b := [k, nw], [nw, k];
    assert k != nw;
    TypeAndAddressKeys(t, v, ports);
    hide KeyName, ParseEthType, ValueOf, Assemble, AllTranslate, TypeClash;
    assert fields.Keys == {k, nw} && multiset(fields.Keys) == multiset{k, nw};
    DlTypeFirst(fields, a, ports, nw);
    DlTypeLast(fields, b, ports);
    OnlyTypeVaries(fields, a, b, ports);
  }

  /** ARP beside an address is such an entry: two orders, two matches. */
  lemma ArpBesideAddress(ports: PortMap)
    ensures
      var fields := map[KeyName(KDlType) := ARP_NUMBER, KeyName(KNwSrc) := HOST];
      exists a, b :: IsOrder(a, fields.Keys) && IsOrder(b, fields.Keys) &&
                     MatchOf(fields, a, ports) != MatchOf(fields, b, ports)
  {
    hide KeyName, ParseEthType, ValueOf, ParseAddress, Slash, MatchOf, TypeAfter, ARP_NUMBER, HOST;
    ArpType();
    AddressTranslates();
    HostTranslates(HOST, ports);
    TypeBesideAddress(ARP_NUMBER, HOST, ports);
  }

  // ---------------------------------------------------------------- the methods

  method ReadMac(s: string) returns (r: Option<seq<nat>>)
    ensures r == ParseMac(s)
  {
    hide Split, MacOctet;
    var parts := Split(s, ':');
    if |parts| != 6 { return None; }
    var out := new nat[6](_ => 0);
    for i := 0 to 6
      invariant ParseAll(parts[..i], MacOctet) == Some(out[..i])
    {
      var octet := MacOctet(parts[i]);
      assert parts[..i + 1][..i] == parts[..i];
      if octet.None? {
        OneBadPart(parts, i + 1, MacOctet);
        return None;
      }
      out[i] := octet.value;
      assert out[..i + 1] == out[..i] + [octet.value];
    }
    assert parts[..6] == parts && out[..6] == out[..];
    return Some(out[..]);
  }

  lemma {:induction false} OneBadPart(parts: seq<string>, n: nat, parse: string -> Option<nat>)
    requires n <= |parts| && ParseAll(parts[..n], parse) == None
    ensures ParseAll(parts, parse) == None
    decreases |parts|
  {
    if n == |parts| {
      assert parts[..n] == parts;
    } else {
      assert parts[..|parts| - 1][..n] == parts[..n];
      OneBadPart(parts[..|parts| - 1], n, parse);
    }
  }

  /** One round of the second pass, as the setters do it. */
  function SetSlot(m: Match, f: FieldKey, slot: MatchField, value: MatchValue): Match {
    match f
    case KNwSrc | KNwDst => m[EthType := Number(IP_TYPE)][slot := value]
    case KTpSrc | KTpDst =>
      m[IpProto := Number(if slot == TcpSrcField || slot == TcpDstField then 6 else 17)][slot := value]
    case _ => m[slot := value]
  }

  lemma TypeStep(fields: map<string, string>, done: seq<string>, f: FieldKey)
    requires KeyName(f) in fields && (f == KDlType ==> ParseEthType(fields[KeyName(KDlType)]).Some?)
    ensures TypeAfter(fields, done + [KeyName(f)]) ==
            match f
            case KDlType => ParseEthType(fields[KeyName(KDlType)])
            case KNwSrc => Some(IP_TYPE)
            case KNwDst => Some(IP_TYPE)
            case _ => TypeAfter(fields, done)
  {
    var more := done + [KeyName(f)];
    assert more[..|more| - 1] == done;
    KeyOfName(f);
    KeyOfName(KDlType);
    KeyOfName(KNwSrc);
    KeyOfName(KNwDst);
    hide KeyName, ParseEthType;
  }

  lemma SlotStep(fields: map<string, string>, done: seq<string>, f: FieldKey, ports: PortMap, slot: MatchField)
    requires KeyName(f) in fields && Translates(KeyName(f), fields[KeyName(f)], MarkedProto(fields), ports)
    ensures KeyOf(KeyName(f)) == Some(f)
    ensures
      var mine, value := SlotOf(f, MarkedProto(fields)).value, ValueOf(f, fields[KeyName(f)], ports).value;
      slot != EthType ==>
        Slot(slot, fields, done + [KeyName(f)], ports) ==
        if slot == mine then Some(value) else Slot(slot, fields, done, ports)
  {
    KeyOfName(f);
    var proto := MarkedProto(fields);
    SlotsAndSources(f, slot, proto);
    hide KeyOf, ValueOf, MarkedProto, SlotOf;
    if slot != EthType && SourceOf(slot, proto).Some? {
      var g := SourceOf(slot, proto).value;
      if KeyName(g) == KeyName(f) { KeyOfName(g); }
    }
  }

  function Lookup(m: Match, slot: MatchField): Option<MatchValue> {
    if slot in m then Some(m[slot]) else None
  }

  lemma TransportProto(f: FieldKey, proto: Option<nat>)
    ensures SlotOf(f, proto).Some? && (f == KTpSrc || f == KTpDst) ==>
              proto == Some(if SlotOf(f, proto).value in {TcpSrcField, TcpDstField} then 6 else 17)
    ensures SlotOf(f, proto) == Some(EthType) <==> f == KDlType
    ensures SlotOf(f, proto) != Some(IpProto)
  {
  }

  lemma TypeIsNumber(v: string, ports: PortMap)
    ensures ValueOf(KDlType, v, ports) == AsNumber(ParseEthType(v))
  {
  }

  lemma StepAt(fields: map<string, string>, done: seq<string>, f: FieldKey, ports: PortMap, s: MatchField)
    requires KeyName(f) in fields && Translates(KeyName(f), fields[KeyName(f)], MarkedProto(fields), ports)
    ensures KeyOf(KeyName(f)) == Some(f)
    ensures
      var slot, value := SlotOf(f, MarkedProto(fields)).value, ValueOf(f, fields[KeyName(f)], ports).value;
      Slot(s, fields, done + [KeyName(f)], ports) == Lookup(SetSlot(Assemble(fields, done, ports), f, slot, value), s)
  {
    hide KeyName, ParseEthType, MarkedProto, TypeAfter, KeyOf, ValueOf, SlotOf, IsMarker, SourceOf;
    KeyOfName(f);
    SlotStep(fields, done, f, ports, s);
    TransportProto(f, MarkedProto(fields));
    TypeIsNumber(fields[KeyName(f)], ports);
    TypeStep(fields, done, f);
    var before := Assemble(fields, done, ports);
    assert Lookup(before, s) == Slot(s, fields, done, ports);
  }

  lemma AssembleStep(fields: map<string, string>, done: seq<string>, f: FieldKey, ports: PortMap)
    requires KeyName(f) in fields && Translates(KeyName(f), fields[KeyName(f)], MarkedProto(fields), ports)
    ensures KeyOf(KeyName(f)) == Some(f)
    ensures
      var slot, value := SlotOf(f, MarkedProto(fields)).value, ValueOf(f, fields[KeyName(f)], ports).value;
      Assemble(fields, done + [KeyName(f)], ports) == SetSlot(Assemble(fields, done, ports), f, slot, value)
  {
    hide KeyName, ParseEthType, MarkedProto, KeyOf, ValueOf, SlotOf, Slot, SetSlot;
    KeyOfName(f);
    StepAt(fields, done, f, ports, EthType);
    var slot, value := SlotOf(f, MarkedProto(fields)).value, ValueOf(f, fields[KeyName(f)], ports).value;
    var before, after := Assemble(fields, done, ports), Assemble(fields, done + [KeyName(f)], ports);
    forall s ensures Lookup(after, s) == Lookup(SetSlot(before, f, slot, value), s) {
      StepAt(fields, done, f, ports, s);
    }
    SameLookups(after, SetSlot(before, f, slot, value));
  }

  lemma SameLookups(a: Match, b: Match)
    requires forall s :: Lookup(a, s) == Lookup(b, s)
    ensures a == b
  {
    assert forall s :: (s in a <==> Lookup(a, s).Some?) && (s in b <==> Lookup(b, s).Some?);
    assert forall s | s in a :: a[s] == Lookup(a, s).value && b[s] == Lookup(b, s).value;
  }

  lemma AssembleMarker(fields: map<string, string>, done: seq<string>, k: string, ports: PortMap)
    requires IsMarker(k)
    ensures Assemble(fields, done + [k], ports) == Assemble(fields, done, ports)
  {
    MarkerIsNoKey(k);
    assert (done + [k])[..|done|] == done;
    hide IsMarker, KeyName, SourceOf, ValueOf, ParseEthType, MarkedProto, MarkedEthType;
    forall slot ensures Slot(slot, fields, done + [k], ports) == Slot(slot, fields, done, ports) { }
  }

  lemma MarkerIsNoKey(k: string)
    requires IsMarker(k)
    ensures forall f: FieldKey :: KeyName(f) != k
  {
    hide IsMarker, KeyName;
    forall f: FieldKey ensures KeyName(f) != k { KeyOfName(f); }
  }

  /** The first pass. */
  method MarkerPass(fields: map<string, string>) returns (m: Match, proto: Option<nat>)
    ensures proto == MarkedProto(fields)
    ensures forall ports :: m == Assemble(fields, [], ports)
  {
    hide ValueOf;
    var ethType: Option<nat> := None;
    proto := None;
    if "arp" in fields { ethType := Some(0x0806); }
    if "icmp6" in fields { ethType, proto := Some(0x86dd), Some(58); }
    if "ip" in fields { ethType := Some(ethType.GetOr(IP_TYPE)); }
    if "tcp" in fields { ethType, proto := Some(ethType.GetOr(IP_TYPE)), Some(proto.GetOr(6)); }
    if "udp" in fields { ethType, proto := Some(ethType.GetOr(IP_TYPE)), Some(proto.GetOr(17)); }
    if "icmp" in fields { ethType, proto := Some(ethType.GetOr(IP_TYPE)), Some(proto.GetOr(1)); }
    assert ethType == MarkedEthType(fields) && proto == MarkedProto(fields);
    m := map[];
    if ethType.Some? { m := m[EthType := Number(ethType.value)]; }
    if proto.Some? { m := m[IpProto := Number(proto.value)]; }
    forall ports ensures m == Assemble(fields, [], ports) { NothingDone(fields, ports); }
  }

  lemma NothingDone(fields: map<string, string>, ports: PortMap)
    ensures
      Assemble(fields, [], ports) ==
      (if MarkedEthType(fields).Some? then map[EthType := Number(MarkedEthType(fields).value)] else map[]) +
      (if MarkedProto(fields).Some? then map[IpProto := Number(MarkedProto(fields).value)] else map[])
  {
    hide MarkedEthType, MarkedProto, KeyName, ValueOf;
    forall slot | slot != EthType && slot != IpProto ensures Slot(slot, fields, [], ports) == None { }
  }

  /** The second pass takes the keys in the order the hash map yields them. */
  method ParseMatch(fields: map<string, string>, order: seq<string>, ports: PortMap) returns (r: Option<Match>)
    requires IsOrder(order, fields.Keys)
    ensures r == MatchOf(fields, order, ports)
  {
    hide KeyOf, KeyName, ValueOf, IsMarker, MarkedProto, SlotOf, Assemble, IsOrder;
    OrderHasKeys(order, fields.Keys);
    var m, proto := MarkerPass(fields);
    for i := 0 to |order|
      invariant m == Assemble(fields, order[..i], ports)
      invariant forall j | 0 <= j < i :: Translates(order[j], fields[order[j]], proto, ports)
    {
      var k := order[i];
      assert order[..i + 1] == order[..i] + [k];
      if IsMarker(k) {
        AssembleMarker(fields, order[..i], k, ports);
      } else {
        if KeyOf(k).None? {
          assert !Translates(k, fields[k], proto, ports);
          return None;
        }
        var f := KeyOf(k).value;
        var slot, value := SlotOf(f, proto), ValueOf(f, fields[k], ports);
        if value.None? || slot.None? {
          assert !Translates(k, fields[k], proto, ports);
          return None;
        }
        AssembleStep(fields, order[..i], f, ports);
        m := SetSlot(m, f, slot.value, value.value);
      }
    }
    assert order[..|order|] == order;
    forall k | k in fields ensures Translates(k, fields[k], proto, ports) {
      var j :| 0 <= j < |order| && order[j] == k;
    }
    return Some(m);
  }
}
