/** What the actions of a flow entry do: each JSON action by what it asks to become of a
    packet, and the actions sent by what a switch does with them. */
module ActionRule {
  import opened Text
  import opened Numerals
  import opened OpenFlow
  import opened FlowMatch
  import opened FlowTranslate
  import opened FieldTexts

  // ---------------------------------------------------------------- what a switch does

  /** Where a packet went: out of a port, to the controller with so many bytes, or through
      another table. */
  datatype Emission = OutOf(port: nat) | PacketIn(length: nat) | Through(table: nat)

  datatype Arp = Arp(op: nat, senderMac: seq<nat>, senderIp: seq<nat>, targetMac: seq<nat>, targetIp: seq<nat>)

  /** A packet while actions are applied, with its registers and where it went. */
  datatype Frame = Frame(
    ethDst: seq<nat>,
    ethSrc: seq<nat>,
    vlan: nat,
    tunnel: nat,
    tcpSrc: nat,
    tcpDst: nat,
    udpSrc: nat,
    udpDst: nat,
    reg0: nat,
    reg1: nat,
    reg2: nat,
    arp: Arp,
    went: seq<Emission>)

  function Emit(f: Frame, e: Emission): Frame { f.(went := f.went + [e]) }

  function Loaded(f: Frame, register: Register, value: nat): Frame {
    match register
    case Reg0 => f.(reg0 := value) case Reg1 => f.(reg1 := value) case Reg2 => f.(reg2 := value)
    case TcpSrc => f.(tcpSrc := value) case TcpDst => f.(tcpDst := value)
    case UdpSrc => f.(udpSrc := value) case UdpDst => f.(udpDst := value)
  }

  /** One action as sent. */
  function Done(a: Action, f: Frame): Frame {
    match a
    case Output(to) => Emit(f, OutOf(WirePort(to)))
    case Drop => f
    case ToController(length) => Emit(f, PacketIn(length))
    case Resubmit(table) => Emit(f, Through(table))
    case Load(register, bits, value) => Loaded(f, register, value % Power(2, bits))
    case SetEthDst(mac) => f.(ethDst := mac)
    case SetEthSrc(mac) => f.(ethSrc := mac)
    case SetVlanVid(vid) => f.(vlan := vid % 0x1000)
    case SetTunnelId(id) => f.(tunnel := id)
    case ArpReply(mac, address) => Emit(Answered(f, mac, address), OutOf(0xffff_fff8))
  }

  /** The request turned around: what was the sender is the target, and the sender is this
      address. */
  function Answered(f: Frame, mac: seq<nat>, address: seq<nat>): Frame {
    f.(ethDst := f.ethSrc, ethSrc := mac, arp := Arp(2, mac, address, f.arp.senderMac, f.arp.senderIp))
  }

  function DoneAll(actions: seq<Action>, f: Frame): Frame {
    if actions == [] then f else Done(actions[|actions| - 1], DoneAll(actions[..|actions| - 1], f))
  }

  // ---------------------------------------------------------------- what is asked

  /** The port an output names: a reserved one by its word, else as a match names it. */
  ghost predicate NamesOutput(s: string, ports: PortMap, n: nat) {
    if SaysWord(s, "LOCAL") then n == 0xffff_fffe
    else if SaysWord(s, "NORMAL") then n == 0xffff_fffa
    else if SaysWord(s, "FLOOD") then n == 0xffff_fffb
    else if SaysWord(s, "ALL") then n == 0xffff_fffc
    else if SaysWord(s, "IN_PORT") then n == 0xffff_fff8
    else if SaysWord(s, "CONTROLLER") then n == 0xffff_fffd
    else NamesPort(s, ports, n)
  }

  ghost predicate NumberBelow(s: string, limit: nat, n: nat) { n < limit && WritesNumber(s, 10, n) }

  /** The packet after an assignment of a field; the transport ports are those of the marked
      protocol, and an id of more than twelve bits loses its upper bits. */
  ghost predicate FieldBecomes(field: string, text: string, fields: map<string, string>, f: Frame, g: Frame) {
    match field
    case "dl_dst" | "eth_dst" => NamesMac(text, g.ethDst) && g == f.(ethDst := g.ethDst)
    case "dl_src" | "eth_src" => NamesMac(text, g.ethSrc) && g == f.(ethSrc := g.ethSrc)
    case "dl_vlan" | "vlan_vid" =>
      exists n: nat :: NumberBelow(text, 0x1_0000, n) && g == f.(vlan := n % 0x1000)
    case "tun_id" | "tunnel_id" => NumberBelow(text, U64, g.tunnel) && g == f.(tunnel := g.tunnel)
    case "tp_src" =>
      "icmp6" !in fields &&
      if "tcp" in fields then NumberBelow(text, 0x1_0000, g.tcpSrc) && g == f.(tcpSrc := g.tcpSrc)
      else "udp" in fields && NumberBelow(text, 0x1_0000, g.udpSrc) && g == f.(udpSrc := g.udpSrc)
    case "tp_dst" =>
      "icmp6" !in fields &&
      if "tcp" in fields then NumberBelow(text, 0x1_0000, g.tcpDst) && g == f.(tcpDst := g.tcpDst)
      else "udp" in fields && NumberBelow(text, 0x1_0000, g.udpDst) && g == f.(udpDst := g.udpDst)
    case _ => false
  }

  ghost predicate Becomes(a: JsonFlowAction, fields: map<string, string>, ports: PortMap, f: Frame, g: Frame) {
    match a
    case JsonOutput(port) =>
      exists n: nat ::
        NamesOutput(port, ports, n) && g == Emit(f, if n == 0xffff_fffd then PacketIn(0xffff) else OutOf(n))
    case JsonDrop => g == f
    case JsonNormal => g == Emit(f, OutOf(0xffff_fffa))
    case JsonController(maxLen) => g == Emit(f, PacketIn(if maxLen == None then 128 else maxLen.value))
    case JsonResubmit(table) => g == Emit(f, Through(table))
    case LoadRegister(register, value) =>
      register < 3 &&
      var word := value % 0x1_0000_0000;
      g == f.(reg0 := if register == 0 then word else f.reg0, reg1 := if register == 1 then word else f.reg1,
              reg2 := if register == 2 then word else f.reg2)
    case SetField(field, text) => FieldBecomes(field, text, fields, f, g)
    case ArpResponder(mac, ip) =>
      exists octets: seq<nat>, address: seq<nat> ::
        NamesMac(mac, octets) && NamesAddress(ip, address) &&
        g == Emit(Answered(f, octets, address), OutOf(0xffff_fff8))
  }

  /** One action after the other. */
  ghost predicate BecomesAll(
    actions: seq<JsonFlowAction>, fields: map<string, string>, ports: PortMap, f: Frame, g: Frame)
  {
    if actions == [] then g == f else
      exists h {:trigger Becomes(actions[|actions| - 1], fields, ports, h, g)} ::
        BecomesAll(actions[..|actions| - 1], fields, ports, f, h) &&
        Becomes(actions[|actions| - 1], fields, ports, h, g)
  }

  // ---------------------------------------------------------------- one action

  lemma OutputIff(s: string, ports: PortMap, n: nat)
    ensures NamesOutput(s, ports, n) <==> OutputTo(s, ports).Some? && n == WirePort(OutputTo(s, ports).value)
  {
    hide SameAscii, SaysWord, NamesPort, ResolvePort;
    WordIff(s, "LOCAL");
    WordIff(s, "NORMAL");
    WordIff(s, "FLOOD");
    WordIff(s, "ALL");
    WordIff(s, "IN_PORT");
    WordIff(s, "CONTROLLER");
    PortIff(s, ports, n);
  }

  lemma MarkedTransport(fields: map<string, string>)
    ensures MarkedProto(fields) == Some(6) <==> "icmp6" !in fields && "tcp" in fields
    ensures MarkedProto(fields) == Some(17) <==> "icmp6" !in fields && "tcp" !in fields && "udp" in fields
  {
  }

  lemma TaggedId(n: nat)
    ensures Tagged(n) % 0x1000 == n % 0x1000
  {
  }

  /** What was sent for an action, if it translates, does to a packet just what the action
      asks for. */
  ghost predicate DoesAsAsked(a: JsonFlowAction, fields: map<string, string>, ports: PortMap, f: Frame, g: Frame) {
    var sent := ActionOf(a, ports, MarkedProto(fields));
    sent.Some? && g == DoneAll(SentAction(sent.value), f)
  }

  lemma Widths()
    ensures Power(2, 16) == 0x1_0000 && Power(2, 32) == 0x1_0000_0000
  {
    assert Power(2, 4) == 16;
    assert Power(2, 8) == 256;
    assert Power(2, 12) == 0x1000;
    assert Power(2, 16) == 0x1_0000;
    assert Power(2, 20) == 0x10_0000;
    assert Power(2, 24) == 0x100_0000;
    assert Power(2, 28) == 0x1000_0000;
  }

  lemma OneDone(a: Action, f: Frame)
    ensures DoneAll([a], f) == Done(a, f) && DoneAll([], f) == f
  {
    assert [a][..0] == [];
  }

  lemma SentDone(a: Action, f: Frame)
    ensures DoneAll(SentAction(a), f) ==
            match a
            case Output(to) =>
              Emit(f, if WirePort(to) == 0xffff_fffd then PacketIn(0xffff) else OutOf(WirePort(to)))
            case SetVlanVid(vid) => f.(vlan := vid % 0x1000)
            case _ => Done(a, f)
  {
    hide DoneAll, Tagged, Power;
    match a
    case Output(to) => OneDone(ToController(0xffff), f); OneDone(Output(Port(WirePort(to))), f);
    case SetVlanVid(vid) => OneDone(SetVlanVid(Tagged(vid)), f); TaggedId(vid);
    case _ => OneDone(a, f);
  }

  lemma OutputAction(port: string, fields: map<string, string>, ports: PortMap, f: Frame, g: Frame)
    ensures Becomes(JsonOutput(port), fields, ports, f, g) <==> DoesAsAsked(JsonOutput(port), fields, ports, f, g)
  {
    hide OutputTo, NamesOutput, DoneAll, SentAction, MarkedProto;
    forall n: nat
      ensures NamesOutput(port, ports, n) <==>
              OutputTo(port, ports).Some? && n == WirePort(OutputTo(port, ports).value)
    {
      OutputIff(port, ports, n);
    }
    if OutputTo(port, ports).Some? {
      SentDone(Output(OutputTo(port, ports).value), f);
      assert NamesOutput(port, ports, WirePort(OutputTo(port, ports).value));
    }
  }

  lemma PlainAction(a: JsonFlowAction, fields: map<string, string>, ports: PortMap, f: Frame, g: Frame)
    requires a.JsonDrop? || a.JsonNormal? || a.JsonController? || a.JsonResubmit? || a.LoadRegister?
    ensures Becomes(a, fields, ports, f, g) <==> DoesAsAsked(a, fields, ports, f, g)
  {
    hide DoneAll, SentAction, MarkedProto, Power;
    Widths();
    var sent := ActionOf(a, ports, MarkedProto(fields));
    if sent.Some? { SentDone(sent.value, f); }
  }

  lemma ArpAction(mac: string, ip: string, fields: map<string, string>, ports: PortMap, f: Frame, g: Frame)
    ensures
      var a := ArpResponder(mac, ip);
      Becomes(a, fields, ports, f, g) <==> DoesAsAsked(a, fields, ports, f, g)
  {
    hide DoneAll, SentAction, MarkedProto, ParseMac, ParseAddress, NamesMac, NamesAddress, Answered;
    forall octets: seq<nat> ensures ParseMac(mac) == Some(octets) <==> NamesMac(mac, octets) { MacIff(mac, octets); }
    forall octets: seq<nat> ensures ParseAddress(ip) == Some(octets) <==> NamesAddress(ip, octets) {
      AddressIff(ip, octets);
    }
    var sent := ActionOf(ArpResponder(mac, ip), ports, MarkedProto(fields));
    if sent.Some? { SentDone(sent.value, f); }
  }

  lemma MacField(field: string, text: string, fields: map<string, string>, ports: PortMap, f: Frame, g: Frame)
    requires field in {"dl_dst", "eth_dst", "dl_src", "eth_src"}
    ensures
      var a := SetField(field, text);
      Becomes(a, fields, ports, f, g) <==> DoesAsAsked(a, fields, ports, f, g)
  {
    hide DoneAll, SentAction, MarkedProto, ParseMac, ParseUnsigned, NamesMac, NumberBelow;
    forall octets: seq<nat> ensures ParseMac(text) == Some(octets) <==> NamesMac(text, octets) { MacIff(text, octets); }
    var sent := ActionOf(SetField(field, text), ports, MarkedProto(fields));
    if sent.Some? { SentDone(sent.value, f); }
  }

  lemma NumberField(field: string, text: string, fields: map<string, string>, ports: PortMap, f: Frame, g: Frame)
    requires field in {"dl_vlan", "vlan_vid", "tun_id", "tunnel_id"}
    ensures
      var a := SetField(field, text);
      Becomes(a, fields, ports, f, g) <==> DoesAsAsked(a, fields, ports, f, g)
  {
    hide DoneAll, SentAction, MarkedProto, ParseMac, ParseUnsigned, NamesMac, NumberBelow;
    NumbersBelow(text);
    var sent := ActionOf(SetField(field, text), ports, MarkedProto(fields));
    if sent.Some? { SentDone(sent.value, f); }
  }

  lemma TransportField(field: string, text: string, fields: map<string, string>, ports: PortMap, f: Frame, g: Frame)
    requires field in {"tp_src", "tp_dst"}
    ensures
      var a := SetField(field, text);
      Becomes(a, fields, ports, f, g) <==> DoesAsAsked(a, fields, ports, f, g)
  {
    hide DoneAll, SentAction, MarkedProto, ParseMac, ParseUnsigned, NamesMac, NumberBelow, Power;
    Widths();
    MarkedTransport(fields);
    NumbersBelow(text);
    var sent := ActionOf(SetField(field, text), ports, MarkedProto(fields));
    if sent.Some? { SentDone(sent.value, f); }
  }

  lemma NumbersBelow(text: string)
    ensures forall n: nat :: ParseUnsigned(text, 10, U16) == Some(n) <==> NumberBelow(text, 0x1_0000, n)
    ensures forall n: nat :: ParseUnsigned(text, 10, U64) == Some(n) <==> NumberBelow(text, U64, n)
  {
    hide ParseUnsigned, WritesNumber;
    forall n: nat ensures ParseUnsigned(text, 10, U16) == Some(n) <==> NumberBelow(text, 0x1_0000, n) {
      NumberIff(text, 10, U16, n);
    }
    forall n: nat ensures ParseUnsigned(text, 10, U64) == Some(n) <==> NumberBelow(text, U64, n) {
      NumberIff(text, 10, U64, n);
    }
  }

  const KNOWN_FIELDS := {"dl_dst", "eth_dst", "dl_src", "eth_src", "dl_vlan", "vlan_vid", "tun_id", "tunnel_id",
                         "tp_src", "tp_dst"}

  lemma FieldAction(field: string, text: string, fields: map<string, string>, ports: PortMap, f: Frame, g: Frame)
    ensures
      var a := SetField(field, text);
      Becomes(a, fields, ports, f, g) <==> DoesAsAsked(a, fields, ports, f, g)
  {
    hide Becomes, DoesAsAsked;
    if field in {"dl_dst", "eth_dst", "dl_src", "eth_src"} {
      MacField(field, text, fields, ports, f, g);
    } else if field in {"dl_vlan", "vlan_vid", "tun_id", "tunnel_id"} {
      NumberField(field, text, fields, ports, f, g);
    } else if field in {"tp_src", "tp_dst"} {
      TransportField(field, text, fields, ports, f, g);
    } else {
      OtherField(field, text, fields, ports, f, g);
    }
  }

  lemma OtherField(field: string, text: string, fields: map<string, string>, ports: PortMap, f: Frame, g: Frame)
    requires field !in KNOWN_FIELDS
    ensures
      var a := SetField(field, text);
      !Becomes(a, fields, ports, f, g) && !DoesAsAsked(a, fields, ports, f, g)
  {
    hide DoneAll, SentAction, MarkedProto;
  }

  lemma ActionIff(a: JsonFlowAction, fields: map<string, string>, ports: PortMap, f: Frame, g: Frame)
    ensures Becomes(a, fields, ports, f, g) <==> DoesAsAsked(a, fields, ports, f, g)
  {
    hide Becomes, DoesAsAsked;
    match a
    case JsonOutput(port) => OutputAction(port, fields, ports, f, g);
    case SetField(field, text) => FieldAction(field, text, fields, ports, f, g);
    case ArpResponder(mac, ip) => ArpAction(mac, ip, fields, ports, f, g);
    case _ => PlainAction(a, fields, ports, f, g);
  }

  // ---------------------------------------------------------------- all actions

  lemma {:induction false} DoneConcat(a: seq<Action>, b: seq<Action>, f: Frame)
    ensures DoneAll(a + b, f) == DoneAll(b, DoneAll(a, f))
  {
    hide Done;
    if b == [] {
      assert a + b == a;
    } else {
      assert (a + b)[..|a + b| - 1] == a + b[..|b| - 1];
      DoneConcat(a, b[..|b| - 1], f);
    }
  }

  /** The actions of an entry translate, and those sent take a packet from `f` to `g`, exactly
      when one after the other they ask for that. */
  lemma {:induction false} ActionsIff(
    actions: seq<JsonFlowAction>, fields: map<string, string>, ports: PortMap, f: Frame, g: Frame)
    ensures
      var list := ActionsOf(actions, ports, MarkedProto(fields));
      BecomesAll(actions, fields, ports, f, g) <==> list.Some? && g == DoneAll(SentActions(list.value), f)
    decreases |actions|
  {
    hide Becomes, ActionOf, Done, DoneAll, MarkedProto, SentAction;
    var list := ActionsOf(actions, ports, MarkedProto(fields));
    if actions == [] {
      OneDone(Drop, f);
    } else {
      var n := |actions| - 1;
      var before := ActionsOf(actions[..n], ports, MarkedProto(fields));
      var last := ActionOf(actions[n], ports, MarkedProto(fields));
      forall h ensures BecomesAll(actions[..n], fields, ports, f, h) <==>
                       before.Some? && h == DoneAll(SentActions(before.value), f)
      {
        ActionsIff(actions[..n], fields, ports, f, h);
      }
      forall h ensures Becomes(actions[n], fields, ports, h, g) <==>
                       last.Some? && g == DoneAll(SentAction(last.value), h)
      {
        ActionIff(actions[n], fields, ports, h, g);
      }
      assert list.Some? <==> before.Some? && last.Some?;
      if list.Some? {
        assert list.value == before.value + [last.value] && list.value[..n] == before.value;
        DoneConcat(SentActions(before.value), SentAction(last.value), f);
      }
    }
  }
}
