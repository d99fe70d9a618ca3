/** JSON flow entries to flow modifications: `json_flow_to_add` and `json_flow_to_delete` of
    `openflow_translate.rs`, as they are sent. */
module FlowTranslate {
  import opened Text
  import opened Ordering
  import opened Numerals
  import opened OpenFlow
  import opened FlowMatch

  datatype JsonFlowAction =
    | JsonOutput(port: string)
    | LoadRegister(register: nat, value: nat)
    | JsonResubmit(table: nat)
    | SetField(field: string, text: string)
    | JsonDrop
    | JsonNormal
    | JsonController(maxLen: Option<nat>)
    | ArpResponder(mac: string, ip: string)

  datatype JsonFlowEntry = JsonFlowEntry(
    table: nat,
    priority: nat,
    matchFields: map<string, string>,
    actions: seq<JsonFlowAction>,
    cookie: Option<nat>,
    idleTimeout: nat,
    hardTimeout: nat)

  // ---------------------------------------------------------------- actions

  function OutputTo(port: string, ports: PortMap): Option<OutputPort> {
    if SameAscii(port, "LOCAL") then Some(Local)
    else if SameAscii(port, "NORMAL") then Some(NormalPort)
    else if SameAscii(port, "FLOOD") then Some(Flood)
    else if SameAscii(port, "ALL") then Some(All)
    else if SameAscii(port, "IN_PORT") then Some(OutputPort.InPort)
    else if SameAscii(port, "CONTROLLER") then Some(ControllerPort)
    else match ResolvePort(port, ports) case Some(n) => Some(Port(n)) case None => None
  }

  function TransportRegister(tcp: Register, udp: Register, proto: Option<nat>): Option<Register> {
    if proto == Some(6) then Some(tcp) else if proto == Some(17) then Some(udp) else None
  }

  function SetFieldAction(field: string, text: string, proto: Option<nat>): Option<Action> {
    match field
    case "dl_dst" | "eth_dst" => (var mac :- ParseMac(text); Some(SetEthDst(mac)))
    case "dl_src" | "eth_src" => (var mac :- ParseMac(text); Some(SetEthSrc(mac)))
    case "dl_vlan" | "vlan_vid" => (var vid :- ParseUnsigned(text, 10, U16); Some(SetVlanVid(vid)))
    case "tun_id" | "tunnel_id" => (var id :- ParseUnsigned(text, 10, U64); Some(SetTunnelId(id)))
    case "tp_dst" =>
      (var port :- ParseUnsigned(text, 10, U16);
       var register :- TransportRegister(TcpDst, UdpDst, proto);
       Some(Load(register, 16, port)))
    case "tp_src" =>
      (var port :- ParseUnsigned(text, 10, U16);
       var register :- TransportRegister(TcpSrc, UdpSrc, proto);
       Some(Load(register, 16, port)))
    case _ => None
  }

  function ActionOf(a: JsonFlowAction, ports: PortMap, proto: Option<nat>): Option<Action> {
    match a
    case JsonOutput(port) => (var to :- OutputTo(port, ports); Some(Output(to)))
    case JsonDrop => Some(Drop)
    case JsonNormal => Some(Output(NormalPort))
    case JsonController(maxLen) => Some(ToController(maxLen.GetOr(128)))
    case JsonResubmit(table) => Some(Resubmit(table))
    case LoadRegister(register, value) =>
      (match register
       case 0 => Some(Load(Reg0, 32, value)) case 1 => Some(Load(Reg1, 32, value)) case 2 => Some(Load(Reg2, 32, value))
       case _ => None)
    case SetField(field, text) => SetFieldAction(field, text, proto)
    case ArpResponder(mac, ip) =>
      (var octets :- ParseMac(mac);
       var address :- ParseAddress(ip);
       Some(ArpReply(octets, address)))
  }

  function ActionsOf(actions: seq<JsonFlowAction>, ports: PortMap, proto: Option<nat>): (r: Option<seq<Action>>)
    ensures r.Some? ==> |r.value| == |actions|
    ensures r.Some? <==> forall a | a in actions :: ActionOf(a, ports, proto).Some?
    ensures r.Some? ==> forall i | 0 <= i < |actions| :: ActionOf(actions[i], ports, proto) == Some(r.value[i])
  {
    if actions == [] then Some([]) else
      var n := |actions| - 1;
      assert actions == actions[..n] + [actions[n]];
      var before :- ActionsOf(actions[..n], ports, proto);
      var last :- ActionOf(actions[n], ports, proto);
      Some(before + [last])
  }

  // ---------------------------------------------------------------- whole entries

  function ProtoOf(m: Match): Option<nat> {
    if IpProto in m && m[IpProto].Number? then Some(m[IpProto].n) else None
  }

  /** Table 255 means all tables and is refused. */
  predicate ValidTable(table: nat) { table != 255 }

  function KeyFor(e: JsonFlowEntry, m: Match): Key { Key(e.table, e.priority, Sent(m)) }

  function EntryFor(e: JsonFlowEntry, actions: seq<Action>): Entry {
    Entry(e.cookie.GetOr(0), SentActions(actions), e.idleTimeout, e.hardTimeout, true)
  }

  /** `json_flow_to_add`, as sent; a flow without a cookie gets cookie 0. */
  function FlowToAdd(e: JsonFlowEntry, order: seq<string>, ports: PortMap): Option<FlowMod> {
    if !ValidTable(e.table) then None else
      var m :- MatchOf(e.matchFields, order, ports);
      var actions :- ActionsOf(e.actions, ports, MarkedProto(e.matchFields));
      Some(Add(KeyFor(e, m), EntryFor(e, actions)))
  }

  /** `json_flow_to_delete`, as sent: strict, and limited to the cookie when one is given. */
  function FlowToDelete(e: JsonFlowEntry, order: seq<string>, ports: PortMap): Option<FlowMod> {
    if !ValidTable(e.table) then None else
      var m :- MatchOf(e.matchFields, order, ports);
      Some(DeleteStrict(KeyFor(e, m), e.cookie))
  }

  function FlowToMod(e: JsonFlowEntry, delete: bool, order: seq<string>, ports: PortMap): Option<FlowMod> {
    if delete then FlowToDelete(e, order, ports) else FlowToAdd(e, order, ports)
  }

  /** Whether an entry translates does not depend on the order. */
  predicate Translatable(e: JsonFlowEntry, delete: bool, ports: PortMap) {
    ValidTable(e.table) && AllTranslate(e.matchFields, ports) &&
    (delete || forall a | a in e.actions :: ActionOf(a, ports, MarkedProto(e.matchFields)).Some?)
  }

  lemma TranslatesIff(e: JsonFlowEntry, delete: bool, order: seq<string>, ports: PortMap)
    ensures FlowToMod(e, delete, order, ports).Some? <==> Translatable(e, delete, ports)
  {
    hide Assemble, AllTranslate, ActionOf, ActionsOf;
  }

  /** Table 0, priority 0 and nothing on the wire that a packet must match. */
  predicate AtFallbackPlace(e: JsonFlowEntry) {
    e.table == 0 && e.priority == 0 && forall k | k in e.matchFields :: SendsNothing(k, e.matchFields[k])
  }

  /** A JSON entry that names the place of the NORMAL fallback; a deletion only when its
      cookie lets it reach the fallback. */
  predicate NamesFallback(e: JsonFlowEntry, delete: bool) {
    AtFallbackPlace(e) && (delete ==> e.cookie == None || e.cookie == Some(FALLBACK_COOKIE))
  }

  lemma KeyIsFallback(e: JsonFlowEntry, order: seq<string>, ports: PortMap)
    requires MatchOf(e.matchFields, order, ports).Some? && IsOrder(order, e.matchFields.Keys)
    ensures KeyFor(e, MatchOf(e.matchFields, order, ports).value) == FALLBACK_KEY <==> AtFallbackPlace(e)
  {
    hide MatchOf, IsOrder, SendsNothing, Sent;
    SentMatchesAllIff(e.matchFields, order, ports);
  }

  /** A translated entry endangers the fallback exactly when it names its place. */
  lemma HarmlessIffNotFallback(e: JsonFlowEntry, delete: bool, order: seq<string>, ports: PortMap)
    requires FlowToMod(e, delete, order, ports).Some? && IsOrder(order, e.matchFields.Keys)
    ensures Harmless(FlowToMod(e, delete, order, ports).value) <==> !NamesFallback(e, delete)
  {
    hide MatchOf, ActionsOf, AtFallbackPlace, IsOrder, KeyFor, SentActions;
    KeyIsFallback(e, order, ports);
  }

  /** TCP flags are not on the wire: an entry that asks for nothing else replaces the
      fallback, whatever it does with the packets. */
  lemma TcpFlagsTakeTheFallback(flags: string, order: seq<string>, ports: PortMap)
    requires ParseTcpFlags(flags).Some? && IsOrder(order, {KeyName(KTcpFlags)})
    ensures
      var e := JsonFlowEntry(0, 0, map[KeyName(KTcpFlags) := flags], [JsonDrop], None, 0, 0);
      FlowToAdd(e, order, ports) == Some(Add(FALLBACK_KEY, Entry(0, [], 0, 0, true))) &&
      !Harmless(FlowToAdd(e, order, ports).value)
  {
    var e := JsonFlowEntry(0, 0, map[KeyName(KTcpFlags) := flags], [JsonDrop], None, 0, 0);
    assert e.matchFields.Keys == {KeyName(KTcpFlags)};
    KeyOfName(KTcpFlags);
    hide KeyName, ParseTcpFlags, IsOrder, MarkedProto, Assemble;
    assert AllTranslate(e.matchFields, ports);
    KeyIsFallback(e, order, ports);
    DropSendsNothing(ports, MarkedProto(e.matchFields));
  }

  lemma DropIsDrop(ports: PortMap, proto: Option<nat>)
    ensures ActionOf(JsonDrop, ports, proto) == Some(Drop)
  {
    hide SetFieldAction, OutputTo, ParseMac, ParseAddress;
  }

  lemma DropSendsNothing(ports: PortMap, proto: Option<nat>)
    ensures ActionsOf([JsonDrop], ports, proto).Some?
    ensures SentActions(ActionsOf([JsonDrop], ports, proto).value) == []
  {
    hide ActionOf, ActionsOf;
    DropIsDrop(ports, proto);
    var list := ActionsOf([JsonDrop], ports, proto).value;
    assert ActionOf([JsonDrop][0], ports, proto) == Some(list[0]);
    assert list == [Drop] && list[..0] == [];
  }

  const SYN := "+syn"

  lemma SynFlag()
    ensures ParseTcpFlags(SYN).Some?
  {
    SplitHead("", "syn", '+');
    SplitWhole("syn", '+');
    assert "" + ['+'] + "syn" == "+syn";
    assert ["", "syn"][..1] == [""] && [""][..0] == [];
    assert OrTcpFlags([""]) == Some(0);
    assert !HasPrefix("+syn", "0x");
    hide Split;
  }

  lemma SameSent(fields: map<string, string>, a: seq<string>, b: seq<string>, ports: PortMap)
    requires IsOrder(a, fields.Keys) && IsOrder(b, fields.Keys) && AllTranslate(fields, ports)
    ensures Sent(Assemble(fields, a, ports)) == Sent(Assemble(fields, b, ports)) <==>
            TypeAfter(fields, a) == TypeAfter(fields, b)
  {
    hide IsOrder, AllTranslate, TypeAfter, Assemble;
    OnlyTypeVaries(fields, a, b, ports);
    TypeSlot(fields, a, ports);
    TypeSlot(fields, b, ports);
    var x, y := Assemble(fields, a, ports), Assemble(fields, b, ports);
    assert EthType in Sent(x) <==> EthType in x;
    assert EthType in Sent(y) <==> EthType in y;
    if Sent(x) == Sent(y) && EthType in x { assert x[EthType] == Sent(x)[EthType] == Sent(y)[EthType] == y[EthType]; }
  }

  // ---------------------------------------------------------------- the keys of an entry

  /** The key of the entry with this type. */
  function Typed(e: JsonFlowEntry, ethType: nat, ports: PortMap): Key {
    KeyFor(e, Assemble(e.matchFields, Keys(e.matchFields.Keys), ports)[EthType := Number(ethType)])
  }

  /** The keys an entry can have: one, or in a clash one for each of the two types. */
  function PossibleKeys(e: JsonFlowEntry, ports: PortMap): set<Key> {
    match OtherType(e.matchFields)
    case Some(t) => {Typed(e, IP_TYPE, ports), Typed(e, t, ports)}
    case None => {KeyFor(e, Assemble(e.matchFields, Keys(e.matchFields.Keys), ports))}
  }

  lemma TypedInOrder(e: JsonFlowEntry, order: seq<string>, ports: PortMap, ethType: nat)
    requires IsOrder(order, e.matchFields.Keys) && TypeAfter(e.matchFields, order) == Some(ethType)
    ensures KeyFor(e, Assemble(e.matchFields, order, ports)) == Typed(e, ethType, ports)
  {
    hide Assemble, TypeAfter, IsOrder, Sent;
    SomeOrder(e.matchFields.Keys);
    TypeReplaced(e.matchFields, order, Keys(e.matchFields.Keys), ports);
  }

  lemma OrderGivesKey(e: JsonFlowEntry, order: seq<string>, ports: PortMap)
    requires AllTranslate(e.matchFields, ports) && IsOrder(order, e.matchFields.Keys)
    ensures KeyFor(e, Assemble(e.matchFields, order, ports)) in PossibleKeys(e, ports)
  {
    hide Assemble, TypeAfter, IsOrder, AllTranslate, KeyFor, KeyName, ParseEthType, LastSetter, FinalType;
    var fields := e.matchFields;
    SomeOrder(fields.Keys);
    TypeInOrder(fields, order, ports);
    TypeInOrder(fields, Keys(fields.Keys), ports);
    OnlyTypeVaries(fields, order, Keys(fields.Keys), ports);
    if TypeClash(fields) {
      DlTypeTranslates(fields, ports);
      TypedInOrder(e, order, ports, TypeAfter(fields, order).value);
    }
  }

  /** And each of them in some order. */
  lemma KeyHasOrder(e: JsonFlowEntry, ports: PortMap, k: Key) returns (order: seq<string>)
    requires AllTranslate(e.matchFields, ports) && k in PossibleKeys(e, ports)
    ensures IsOrder(order, e.matchFields.Keys) && KeyFor(e, Assemble(e.matchFields, order, ports)) == k
  {
    hide Assemble, TypeAfter, IsOrder, AllTranslate, KeyFor, KeyName, ParseEthType, Typed;
    var fields := e.matchFields;
    SomeOrder(fields.Keys);
    order := Keys(fields.Keys);
    if TypeClash(fields) {
      DlTypeTranslates(fields, ports);
      var a, b := ClashDependsOnOrder(fields, ports);
      TypedInOrder(e, a, ports, IP_TYPE);
      TypedInOrder(e, b, ports, ParseEthType(fields[KeyName(KDlType)]).value);
      order := if k == Typed(e, IP_TYPE, ports) then a else b;
    }
  }

  lemma TypedHasType(e: JsonFlowEntry, ethType: nat, ports: PortMap)
    ensures
      var sent := Typed(e, ethType, ports).fields;
      EthType in sent && sent[EthType] == Number(ethType)
  {
    hide Assemble;
  }

  /** More than one exactly in a clash. */
  lemma KeysIff(e: JsonFlowEntry, ports: PortMap)
    requires AllTranslate(e.matchFields, ports)
    ensures TypeClash(e.matchFields) <==> exists a, b :: {a, b} <= PossibleKeys(e, ports) && a != b
  {
    hide Assemble, AllTranslate, KeyName, ParseEthType, Typed, KeyFor;
    if TypeClash(e.matchFields) {
      DlTypeTranslates(e.matchFields, ports);
      var other := OtherType(e.matchFields).value;
      TypedHasType(e, IP_TYPE, ports);
      TypedHasType(e, other, ports);
      assert {Typed(e, IP_TYPE, ports), Typed(e, other, ports)} <= PossibleKeys(e, ports);
    } else {
      var only := KeyFor(e, Assemble(e.matchFields, Keys(e.matchFields.Keys), ports));
      forall a, b | {a, b} <= PossibleKeys(e, ports) ensures a == b { assert a in {a, b} && b in {a, b}; }
    }
  }

  /** An entry added and then deleted strictly leaves the table as it was, if nothing was in
      its place: exactly when both times the same type was set, as it is in any two orders
      without a clash. */
  lemma DeleteUndoesAdd(e: JsonFlowEntry, a: seq<string>, b: seq<string>, ports: PortMap, t: Table)
    requires IsOrder(a, e.matchFields.Keys) && IsOrder(b, e.matchFields.Keys)
    requires FlowToAdd(e, a, ports).Some? && FlowToAdd(e, a, ports).value.key !in t
    ensures FlowToDelete(e, b, ports).Some?
    ensures Apply(Apply(t, FlowToAdd(e, a, ports).value), FlowToDelete(e, b, ports).value) == t <==>
            TypeAfter(e.matchFields, a) == TypeAfter(e.matchFields, b)
    ensures !TypeClash(e.matchFields) ==> TypeAfter(e.matchFields, a) == TypeAfter(e.matchFields, b)
  {
    hide ActionsOf, IsOrder, AllTranslate, TypeAfter, Assemble, Sent, TypeClash, FinalType, SentActions;
    SameSent(e.matchFields, a, b, ports);
    TypeInOrder(e.matchFields, a, ports);
    TypeInOrder(e.matchFields, b, ports);
    var add, del := FlowToAdd(e, a, ports).value, FlowToDelete(e, b, ports).value;
    if add.key != del.key { assert add.key in Apply(Apply(t, add), del); }
  }

  // ---------------------------------------------------------------- the methods

  method BuildActions(actions: seq<JsonFlowAction>, ports: PortMap, proto: Option<nat>)
    returns (r: Option<seq<Action>>)
    ensures r == ActionsOf(actions, ports, proto)
  {
    hide ActionOf, ActionsOf;
    var list: seq<Action> := [];
    for i := 0 to |actions|
      invariant |list| == i && forall j | 0 <= j < i :: ActionOf(actions[j], ports, proto) == Some(list[j])
    {
      var a := ActionOf(actions[i], ports, proto);
      if a.None? { return None; }
      list := list + [a.value];
    }
    assert forall a | a in actions :: ActionOf(a, ports, proto).Some?;
    assert ActionsOf(actions, ports, proto).Some?;
    assert list == ActionsOf(actions, ports, proto).value;
    return Some(list);
  }

  /** The protocol the actions are translated with is the one the markers name. */
  lemma ProtoIsMarked(fields: map<string, string>, order: seq<string>, ports: PortMap)
    ensures ProtoOf(Assemble(fields, order, ports)) == MarkedProto(fields)
  {
    hide MarkedProto, TypeAfter;
    assert Slot(IpProto, fields, order, ports) == AsNumber(MarkedProto(fields));
  }

  /** `ActionList::encode`: a drop adds nothing. */
  method EncodeActions(actions: seq<Action>) returns (sent: seq<Action>)
    ensures sent == SentActions(actions)
  {
    sent := [];
    for i := 0 to |actions|
      invariant sent == SentActions(actions[..i])
    {
      assert actions[..i + 1][..i] == actions[..i];
      sent := sent + SentAction(actions[i]);
    }
    assert actions[..|actions|] == actions;
  }

  /** `json_flow_to_add` behind the JSON parser, as sent. */
  method JsonFlowToAdd(e: JsonFlowEntry, order: seq<string>, ports: PortMap) returns (r: Option<FlowMod>)
    requires IsOrder(order, e.matchFields.Keys)
    ensures r.Some? <==>
              e.table != 255 &&
              (forall k | k in e.matchFields :: Translates(k, e.matchFields[k], MarkedProto(e.matchFields), ports)) &&
              (forall a | a in e.actions :: ActionOf(a, ports, MarkedProto(e.matchFields)).Some?)
    ensures r.Some? ==>
              r.value.Add? && r.value.key.table == e.table && r.value.key.priority == e.priority &&
              MatchOf(e.matchFields, order, ports).Some? &&
              r.value.key.fields == Sent(MatchOf(e.matchFields, order, ports).value)
    ensures r.Some? ==>
              exists list ::
                |list| == |e.actions| && r.value.entry.actions == SentActions(list) &&
                forall i | 0 <= i < |list| :: ActionOf(e.actions[i], ports, MarkedProto(e.matchFields)) == Some(list[i])
    ensures r.Some? ==>
              r.value.entry.cookie == (if e.cookie.Some? then e.cookie.value else 0) &&
              r.value.entry.idleTimeout == e.idleTimeout && r.value.entry.hardTimeout == e.hardTimeout
    ensures r == FlowToAdd(e, order, ports)
  {
    hide ActionOf, ActionsOf, Translates, Assemble, MarkedProto, IsOrder, SentActions, Sent;
    if !ValidTable(e.table) { return None; }
    var m :- ParseMatch(e.matchFields, order, ports);
    ProtoIsMarked(e.matchFields, order, ports);
    var actions :- BuildActions(e.actions, ports, ProtoOf(m));
    var sent := EncodeActions(actions);
    return Some(Add(KeyFor(e, m), Entry(e.cookie.GetOr(0), sent, e.idleTimeout, e.hardTimeout, true)));
  }

  /** `json_flow_to_delete` behind the JSON parser, as sent: the actions of the entry do not
      matter, and neither do its timeouts. */
  method JsonFlowToDelete(e: JsonFlowEntry, order: seq<string>, ports: PortMap) returns (r: Option<FlowMod>)
    requires IsOrder(order, e.matchFields.Keys)
    ensures r.Some? <==>
              e.table != 255 &&
              forall k | k in e.matchFields :: Translates(k, e.matchFields[k], MarkedProto(e.matchFields), ports)
    ensures r.Some? ==>
              r.value.DeleteStrict? && r.value.key.table == e.table && r.value.key.priority == e.priority &&
              MatchOf(e.matchFields, order, ports).Some? &&
              r.value.key.fields == Sent(MatchOf(e.matchFields, order, ports).value) && r.value.filter == e.cookie
    ensures r == FlowToDelete(e, order, ports)
  {
    hide Translates, Assemble, MarkedProto, IsOrder, Sent;
    if !ValidTable(e.table) { return None; }
    var m :- ParseMatch(e.matchFields, order, ports);
    return Some(DeleteStrict(KeyFor(e, m), e.cookie));
  }
}
