/** One controller session: `handle_connection` of `controller.rs`. The messages a switch
    sends are a queue; what the controller does next in its keepalive loop, where it waits
    for a timer, a message or a request, is decided by a list of events. */
module Session {
  import opened Text
  import opened Ordering
  import opened OpenFlow
  import opened PortDiscovery
  import opened FlowMatch
  import opened FlowTranslate

  /** `serde_json::from_str` to a flow entry. */
  const PARSE_ENTRY: string -> Option<JsonFlowEntry>

  /** The order in which the `n`-th hash map of a session yields its keys; every map has a
      seed of its own. */
  type Hasher = f: (nat, set<string>) -> seq<string> | forall n, keys :: IsOrder(f(n, keys), keys)
    witness (n: nat, keys: set<string>) => Keys(keys)

  /** A JSON text to be translated to an addition or a deletion. */
  datatype Ask = Ask(json: string, delete: bool)

  const HELLO: Byte := 0
  const FEATURES_REPLY: Byte := 6

  datatype Sent =
    | Hello(xid: nat)
    | FeaturesRequest(xid: nat)
    | SetConfig(xid: nat, missSendLen: nat)
    | PortDescRequest(xid: nat)
    | EchoReply(xid: nat, payload: Bytes)
    | EchoRequest(xid: nat)
    | Mod(xid: nat, m: FlowMod)

  datatype PairFlow = PairFlow(inName: string, outName: string, priority: nat)

  datatype Config = Config(flows: seq<PairFlow>, statics: seq<string>)

  /** The branches of the keepalive loop's `select!`. */
  datatype Event = Tick | Incoming | Request(json: string, delete: bool)

  function Next(xid: nat): nat { (xid + 1) % U32 }

  // ---------------------------------------------------------------- what is sent

  function Replies(echoes: seq<Echo>): (r: seq<Sent>)
    ensures |r| == |echoes|
  {
    seq(|echoes|, i requires 0 <= i < |echoes| => EchoReply(echoes[i].xid, echoes[i].payload))
  }

  datatype Features = Ready(echoes: seq<Echo>, rest: seq<RawMsg>) | Lost(echoes: seq<Echo>)

  function AwaitFeatures(echoes: seq<Echo>, inbox: seq<RawMsg>): Features
    decreases |inbox|
  {
    if inbox == [] then Lost(echoes)
    else if inbox[0].msgType == ECHO_REQUEST then
      AwaitFeatures(echoes + [Echo(inbox[0].xid, inbox[0].payload)], inbox[1..])
    else if inbox[0].msgType == FEATURES_REPLY then Ready(echoes, inbox[1..])
    else AwaitFeatures(echoes, inbox[1..])
  }

  const FALLBACK_ADD := Add(FALLBACK_KEY, FALLBACK_ENTRY)

  const HEAD_MODS := [FALLBACK_ADD, DeleteCookie(MANAGED_COOKIE), FALLBACK_ADD]

  function PairKey(f: PairFlow, ports: PortMap): Key
    requires f.inName in ports
  {
    Key(0, f.priority, ANY[InPortField := Number(ports[f.inName])])
  }

  function PairEntry(f: PairFlow, ports: PortMap): Entry
    requires f.outName in ports
  {
    Entry(MANAGED_COOKIE, SentAction(Output(Port(ports[f.outName]))), 0, 0, true)
  }

  predicate Discovered(f: PairFlow, ports: PortMap) {
    f.inName in ports && f.outName in ports
  }

  /** A configured flow is installed when both its ports were discovered. */
  function PairMods(flows: seq<PairFlow>, ports: PortMap): seq<FlowMod> {
    if flows == [] then [] else
      var f := flows[|flows| - 1];
      PairMods(flows[..|flows| - 1], ports) +
      (if Discovered(f, ports) then [Add(PairKey(f, ports), PairEntry(f, ports))] else [])
  }

  /** The `n`-th text that is translated. */
  function JsonMod(a: Ask, ports: PortMap, hasher: Hasher, n: nat): Option<FlowMod> {
    var e :- PARSE_ENTRY(a.json);
    FlowToMod(e, a.delete, hasher(n, e.matchFields.Keys), ports)
  }

  function ModsOf(m: Option<FlowMod>): seq<FlowMod> {
    match m case Some(x) => [x] case None => []
  }

  /** What does not translate is skipped. */
  function AskMods(asks: seq<Ask>, ports: PortMap, hasher: Hasher, first: nat): seq<FlowMod> {
    if asks == [] then [] else
      var n := |asks| - 1;
      AskMods(asks[..n], ports, hasher, first) + ModsOf(JsonMod(asks[n], ports, hasher, first + n))
  }

  function StaticAsks(statics: seq<string>): (r: seq<Ask>)
    ensures |r| == |statics| && forall i | 0 <= i < |r| :: r[i] == Ask(statics[i], false)
  {
    seq(|statics|, i requires 0 <= i < |statics| => Ask(statics[i], false))
  }

  /** NORMAL first, then the managed flows go, NORMAL again, then everything configured. */
  function InstallMods(c: Config, ports: PortMap, hasher: Hasher): seq<FlowMod> {
    HEAD_MODS + (PairMods(c.flows, ports) + AskMods(StaticAsks(c.statics), ports, hasher, 0))
  }

  /** Modifications under consecutive transaction ids. */
  function Numbered(xid: nat, mods: seq<FlowMod>): (r: seq<Sent>)
    ensures |r| == |mods|
  {
    seq(|mods|, i requires 0 <= i < |mods| => Mod((xid + i) % U32, mods[i]))
  }

  function Served(
    xid: nat, inbox: seq<RawMsg>, events: seq<Event>, ports: PortMap, hasher: Hasher, n: nat): seq<Sent>
    decreases |events|
  {
    if events == [] then [] else
      match events[0]
      case Tick => [EchoRequest(xid)] + Served(Next(xid), inbox, events[1..], ports, hasher, n)
      case Incoming =>
        if inbox == [] then []
        else Replies(EchoesIn(inbox[0])) + Served(xid, inbox[1..], events[1..], ports, hasher, n)
      case Request(json, delete) =>
        (match JsonMod(Ask(json, delete), ports, hasher, n)
         case Some(m) => [Mod(xid, m)] + Served(Next(xid), inbox, events[1..], ports, hasher, n + 1)
         case None => Served(xid, inbox, events[1..], ports, hasher, n + 1))
  }

  /** Everything one session sends. */
  function Conversation(c: Config, inbox: seq<RawMsg>, events: seq<Event>, hasher: Hasher): seq<Sent> {
    if inbox == [] || inbox[0].msgType != HELLO then [] else
      [Hello(1), FeaturesRequest(2)] + Greeted(c, inbox[1..], events, hasher)
  }

  /** What follows the features request. */
  function Greeted(c: Config, inbox: seq<RawMsg>, events: seq<Event>, hasher: Hasher): seq<Sent> {
    match AwaitFeatures([], inbox)
    case Lost(echoes) => Replies(echoes)
    case Ready(echoes, rest) =>
      Replies(echoes) + ([SetConfig(3, 128), PortDescRequest(4)] + Programmed(c, rest, events, hasher))
  }

  /** What follows the port description request. */
  function Programmed(c: Config, inbox: seq<RawMsg>, events: seq<Event>, hasher: Hasher): seq<Sent> {
    match Discover(map[], [], inbox)
    case Closed(echoes) => Replies(echoes)
    case Found(ports, echoes, rest) =>
      Replies(echoes) + Numbered(5, InstallMods(c, ports, hasher)) +
      Served((5 + |InstallMods(c, ports, hasher)|) % U32, rest, events, ports, hasher, |c.statics|)
  }

  // ---------------------------------------------------------------- the session object

  class Connection {
    /** Messages the switch has sent that were not read yet. */
    var inbox: seq<RawMsg>
    var sent: seq<Sent>
    var xid: nat
    const hasher: Hasher
    /** How many texts were translated. */
    var asked: nat

    constructor (inbox: seq<RawMsg>, hasher: Hasher)
      ensures this.inbox == inbox && this.hasher == hasher && sent == [] && xid == 1 && asked == 0
    {
      this.inbox, this.hasher, sent, xid, asked := inbox, hasher, [], 1, 0;
    }

    /** `recv_msg`; nothing more to read means the switch has closed the connection. */
    method Receive() returns (m: Option<RawMsg>)
      modifies this`inbox
      ensures old(inbox) == [] ==> m == None && inbox == []
      ensures old(inbox) != [] ==> m == Some(old(inbox)[0]) && inbox == old(inbox)[1..]
    {
      if inbox == [] { return None; }
      m := Some(inbox[0]);
      inbox := inbox[1..];
    }

    method Send(s: Sent)
      modifies this`sent
      ensures sent == old(sent) + [s]
    {
      sent := sent + [s];
    }

    method SendMod(m: FlowMod)
      modifies this`sent, this`xid
      ensures sent == old(sent) + [Mod(old(xid), m)] && xid == Next(old(xid))
    {
      Send(Mod(xid, m));
      xid := Next(xid);
    }

    /** `push_flow_add`; false when the entry does not parse or translate. */
    method PushAdd(json: string, ports: PortMap) returns (ok: bool)
      modifies this`sent, this`xid, this`asked
      ensures asked == old(asked) + 1
      ensures ok <==> JsonMod(Ask(json, false), ports, hasher, old(asked)).Some?
      ensures ok ==>
                sent == old(sent) + [Mod(old(xid), JsonMod(Ask(json, false), ports, hasher, old(asked)).value)] &&
                xid == Next(old(xid))
      ensures !ok ==> sent == old(sent) && xid == old(xid)
    {
      hide FlowToAdd, FlowToDelete, IsOrder, Next, Translates, AllTranslate;
      var n := asked;
      asked := asked + 1;
      var entry := PARSE_ENTRY(json);
      if entry.None? { return false; }
      var m := JsonFlowToAdd(entry.value, hasher(n, entry.value.matchFields.Keys), ports);
      if m.None? { return false; }
      SendMod(m.value);
      return true;
    }

    /** `push_flow_delete`. */
    method PushDelete(json: string, ports: PortMap) returns (ok: bool)
      modifies this`sent, this`xid, this`asked
      ensures asked == old(asked) + 1
      ensures ok <==> JsonMod(Ask(json, true), ports, hasher, old(asked)).Some?
      ensures ok ==>
                sent == old(sent) + [Mod(old(xid), JsonMod(Ask(json, true), ports, hasher, old(asked)).value)] &&
                xid == Next(old(xid))
      ensures !ok ==> sent == old(sent) && xid == old(xid)
    {
      hide FlowToAdd, FlowToDelete, IsOrder, Next, Translates, AllTranslate;
      var n := asked;
      asked := asked + 1;
      var entry := PARSE_ENTRY(json);
      if entry.None? { return false; }
      var m := JsonFlowToDelete(entry.value, hasher(n, entry.value.matchFields.Keys), ports);
      if m.None? { return false; }
      SendMod(m.value);
      return true;
    }

    method ReceiveFeatures() returns (ok: bool)
      modifies this`inbox, this`sent
      ensures
        match AwaitFeatures([], old(inbox))
        case Lost(echoes) => !ok && sent == old(sent) + Replies(echoes)
        case Ready(echoes, rest) => ok && sent == old(sent) + Replies(echoes) && inbox == rest
    {
      ghost var echoes: seq<Echo> := [];
      ghost var start := sent;
      while true
        invariant AwaitFeatures([], old(inbox)) == AwaitFeatures(echoes, inbox)
        invariant sent == start + Replies(echoes)
        decreases |inbox|
      {
        var m := Receive();
        if m.None? { return false; }
        if m.value.msgType == ECHO_REQUEST {
          Send(EchoReply(m.value.xid, m.value.payload));
          echoes := echoes + [Echo(m.value.xid, m.value.payload)];
        } else if m.value.msgType == FEATURES_REPLY {
          return true;
        }
      }
    }

    /** `discover_ports`. */
    method DiscoverPorts() returns (r: Option<PortMap>)
      modifies this`inbox, this`sent
      ensures
        match Discover(map[], [], old(inbox))
        case Closed(echoes) => r == None && sent == old(sent) + [PortDescRequest(old(xid))] + Replies(echoes)
        case Found(ports, echoes, rest) =>
          r == Some(ports) && sent == old(sent) + [PortDescRequest(old(xid))] + Replies(echoes) && inbox == rest
    {
      hide AddPorts, Chunks, BigEndian;
      Send(PortDescRequest(xid));
      var ports: PortMap := map[];
      ghost var echoes: seq<Echo> := [];
      ghost var start := sent;
      while true
        invariant Discover(map[], [], old(inbox)) == Discover(ports, echoes, inbox)
        invariant sent == start + Replies(echoes)
        decreases |inbox|
      {
        var received := Receive();
        if received.None? { return None; }
        var m := received.value;
        if m.msgType == ECHO_REQUEST {
          Send(EchoReply(m.xid, m.payload));
          echoes := echoes + [Echo(m.xid, m.payload)];
        } else if m.msgType == MULTIPART_REPLY {
          if |m.payload| < 8 || BigEndian(m.payload[..2]) != PORT_DESC { return Some(ports); }
          ports := ReadPorts(ports, m.payload[8..]);
          if BigEndian(m.payload[2..4]) % 2 == 0 { return Some(ports); }
        } else {
          return Some(ports);
        }
      }
    }

    method SendHead()
      requires xid < U32
      modifies this`sent, this`xid
      ensures sent == old(sent) + Numbered(old(xid), HEAD_MODS)
      ensures xid == (old(xid) + |HEAD_MODS|) % U32
    {
      SendMod(FALLBACK_ADD);
      SendMod(DeleteCookie(MANAGED_COOKIE));
      SendMod(FALLBACK_ADD);
    }

    method InstallPairs(flows: seq<PairFlow>, ports: PortMap)
      requires xid < U32
      modifies this`sent, this`xid
      ensures sent == old(sent) + Numbered(old(xid), PairMods(flows, ports))
      ensures xid == (old(xid) + |PairMods(flows, ports)|) % U32
    {
      hide Numbered;
      NumberedNone(xid);
      for i := 0 to |flows|
        invariant sent == old(sent) + Numbered(old(xid), PairMods(flows[..i], ports))
        invariant xid == (old(xid) + |PairMods(flows[..i], ports)|) % U32
      {
        var f := flows[i];
        assert flows[..i + 1][..i] == flows[..i];
        if f.inName in ports && f.outName in ports {
          var m := Add(PairKey(f, ports), PairEntry(f, ports));
          NumberedStep(old(xid), PairMods(flows[..i], ports), m);
          SendMod(m);
        } else {
          assert PairMods(flows[..i + 1], ports) == PairMods(flows[..i], ports);
        }
      }
      assert flows[..|flows|] == flows;
    }

    method InstallStatics(statics: seq<string>, ports: PortMap)
      requires xid < U32
      modifies this`sent, this`xid, this`asked
      ensures sent == old(sent) + Numbered(old(xid), AskMods(StaticAsks(statics), ports, hasher, old(asked)))
      ensures xid == (old(xid) + |AskMods(StaticAsks(statics), ports, hasher, old(asked))|) % U32
      ensures asked == old(asked) + |statics|
    {
      hide Numbered, JsonMod, AskMods;
      var asks := StaticAsks(statics);
      NumberedNone(xid);
      NothingAsked(ports, hasher, asked);
      assert asks[..0] == [];
      for i := 0 to |statics|
        invariant sent == old(sent) + Numbered(old(xid), AskMods(asks[..i], ports, hasher, old(asked)))
        invariant xid == (old(xid) + |AskMods(asks[..i], ports, hasher, old(asked))|) % U32
        invariant asked == old(asked) + i
      {
        ghost var mods := AskMods(asks[..i], ports, hasher, old(asked));
        AskModsSnoc(asks, i, ports, hasher, old(asked));
        assert mods + [] == mods;
        var ok := PushAdd(statics[i], ports);
        if ok {
          NumberedStep(old(xid), mods, JsonMod(asks[i], ports, hasher, old(asked) + i).value);
        }
      }
      assert asks[..|asks|] == asks;
    }

    /** The three mandatory modifications, the configured pairs and the static flows. */
    method Install(c: Config, ports: PortMap)
      requires xid < U32 && asked == 0
      modifies this`sent, this`xid, this`asked
      ensures sent == old(sent) + Numbered(old(xid), InstallMods(c, ports, hasher))
      ensures xid == (old(xid) + |InstallMods(c, ports, hasher)|) % U32
      ensures asked == |c.statics|
    {
      hide Numbered, PairMods, AskMods, HEAD_MODS;
      var pairs, statics := PairMods(c.flows, ports), AskMods(StaticAsks(c.statics), ports, hasher, 0);
      NumberedConcat(xid, HEAD_MODS, pairs + statics);
      NumberedConcat((xid + |HEAD_MODS|) % U32, pairs, statics);
      SendHead();
      InstallPairs(c.flows, ports);
      InstallStatics(c.statics, ports);
    }

    /** One round of the keepalive loop; `open` unless the switch is gone. */
    method Serve(events: seq<Event>, ports: PortMap) returns (open: bool, ghost out: seq<Sent>)
      requires events != []
      modifies this
      ensures sent == old(sent) + out
      ensures Served(old(xid), old(inbox), events, ports, hasher, old(asked)) ==
              out + (if open then Served(xid, inbox, events[1..], ports, hasher, asked) else [])
    {
      hide JsonMod, Replies;
      open, out := true, [];
      match events[0]
      case Tick =>
        out := [EchoRequest(xid)];
        Send(EchoRequest(xid));
        xid := Next(xid);
      case Incoming =>
        var m := Receive();
        if m.None? { return false, []; }
        OneReply(m.value);
        out := Replies(EchoesIn(m.value));
        if m.value.msgType == ECHO_REQUEST { Send(EchoReply(m.value.xid, m.value.payload)); }
      case Request(json, delete) =>
        ghost var id := xid;
        var ok;
        if delete { ok := PushDelete(json, ports); } else { ok := PushAdd(json, ports); }
        if ok { out := [Mod(id, JsonMod(Ask(json, delete), ports, hasher, old(asked)).value)]; }
    }

    /** The keepalive loop, until the events end or the switch is gone. */
    method Keepalive(events: seq<Event>, ports: PortMap)
      modifies this
      ensures sent == old(sent) + Served(old(xid), old(inbox), events, ports, hasher, old(asked))
    {
      hide Served;
      ghost var done: seq<Sent> := [];
      var left := events;
      while left != []
        invariant sent == old(sent) + done
        invariant Served(old(xid), old(inbox), events, ports, hasher, old(asked)) ==
                  done + Served(xid, inbox, left, ports, hasher, asked)
      {
        var open;
        ghost var out;
        ghost var before := done;
        open, out := Serve(left, ports);
        done := done + out;
        if !open {
          assert before + (out + []) == done;
          return;
        }
        ghost var rest := Served(xid, inbox, left[1..], ports, hasher, asked);
        assert before + (out + rest) == done + rest;
        left := left[1..];
      }
      NothingServed(xid, inbox, ports, hasher, asked);
    }

    /** Port discovery, installation and keepalive. */
    method Program(c: Config, events: seq<Event>)
      requires xid == 4 && asked == 0
      modifies this
      ensures sent == old(sent) + ([PortDescRequest(4)] + Programmed(c, old(inbox), events, hasher))
    {
      hide Discover, InstallMods, Numbered, Served, Replies;
      var ports := DiscoverPorts();
      if ports.None? { return; }
      xid := Next(xid);
      Install(c, ports.value);
      Keepalive(events, ports.value);
    }

    /** From the wait for the features reply on. */
    method Greet(c: Config, events: seq<Event>)
      requires xid == 3 && asked == 0
      modifies this
      ensures sent == old(sent) + Greeted(c, old(inbox), events, hasher)
    {
      hide AwaitFeatures, Programmed, Replies;
      var ok := ReceiveFeatures();
      if !ok { return; }
      Send(SetConfig(xid, 128));
      xid := Next(xid);
      Program(c, events);
    }

    /** `handle_connection`. */
    method Handle(c: Config, events: seq<Event>)
      requires xid == 1 && asked == 0
      modifies this
      ensures sent == old(sent) + Conversation(c, old(inbox), events, hasher)
    {
      hide Greeted;
      var hello := Receive();
      if hello.None? || hello.value.msgType != HELLO { return; }
      Send(Hello(xid));
      xid := Next(xid);
      Send(FeaturesRequest(xid));
      xid := Next(xid);
      Greet(c, events);
    }
  }

  lemma NumberedNone(xid: nat)
    ensures Numbered(xid, []) == []
  {
  }

  lemma NumberedStep(xid: nat, mods: seq<FlowMod>, m: FlowMod)
    ensures Numbered(xid, mods + [m]) == Numbered(xid, mods) + [Mod((xid + |mods|) % U32, m)]
    ensures Next((xid + |mods|) % U32) == (xid + |mods + [m]|) % U32
  {
  }

  lemma NumberedConcat(xid: nat, a: seq<FlowMod>, b: seq<FlowMod>)
    ensures Numbered(xid, a + b) == Numbered(xid, a) + Numbered((xid + |a|) % U32, b)
    ensures ((xid + |a|) % U32 + |b|) % U32 == (xid + |a + b|) % U32
  {
  }

  lemma NothingServed(xid: nat, inbox: seq<RawMsg>, ports: PortMap, hasher: Hasher, n: nat)
    ensures Served(xid, inbox, [], ports, hasher, n) == []
  {
  }

  lemma NothingAsked(ports: PortMap, hasher: Hasher, first: nat)
    ensures AskMods([], ports, hasher, first) == []
  {
  }

  lemma AskModsSnoc(asks: seq<Ask>, i: nat, ports: PortMap, hasher: Hasher, first: nat)
    requires i < |asks|
    ensures AskMods(asks[..i + 1], ports, hasher, first) ==
            AskMods(asks[..i], ports, hasher, first) + ModsOf(JsonMod(asks[i], ports, hasher, first + i))
  {
    hide JsonMod;
    assert asks[..i + 1][..i] == asks[..i];
  }

  lemma {:induction false} AskModsConcat(a: seq<Ask>, b: seq<Ask>, ports: PortMap, hasher: Hasher, first: nat)
    ensures AskMods(a + b, ports, hasher, first) ==
            AskMods(a, ports, hasher, first) + AskMods(b, ports, hasher, first + |a|)
  {
    hide JsonMod, ModsOf, AskMods;
    var whole := a + b;
    if b == [] {
      assert whole == a;
      NothingAsked(ports, hasher, first + |a|);
    } else {
      var n := |b| - 1;
      AskModsSnoc(whole, |a| + n, ports, hasher, first);
      AskModsSnoc(b, n, ports, hasher, first + |a|);
      assert whole[..|a| + n] == a + b[..n] && whole[..|a| + n + 1] == whole && b[..n + 1] == b;
      AskModsConcat(a, b[..n], ports, hasher, first);
    }
  }

  lemma AskModsOne(a: Ask, ports: PortMap, hasher: Hasher, first: nat)
    ensures AskMods([a], ports, hasher, first) == ModsOf(JsonMod(a, ports, hasher, first))
  {
    hide JsonMod;
    assert [a][..0] == [];
  }

  lemma OneReply(m: RawMsg)
    ensures Replies(EchoesIn(m)) == if m.msgType == ECHO_REQUEST then [EchoReply(m.xid, m.payload)] else []
  {
  }

  // ---------------------------------------------------------------- what reaches the table

  /** The flow modifications among what was sent, in order. */
  function Mods(sent: seq<Sent>): seq<FlowMod> {
    if sent == [] then [] else
      Mods(sent[..|sent| - 1]) + (match sent[|sent| - 1] case Mod(_, m) => [m] case _ => [])
  }

  lemma {:induction false} ModsConcat(a: seq<Sent>, b: seq<Sent>)
    ensures Mods(a + b) == Mods(a) + Mods(b)
  {
    if b == [] {
      assert a + b == a;
    } else {
      assert (a + b)[..|a + b| - 1] == a + b[..|b| - 1];
      ModsConcat(a, b[..|b| - 1]);
    }
  }

  lemma {:induction false} NoModsInReplies(echoes: seq<Echo>)
    ensures Mods(Replies(echoes)) == []
  {
    if echoes != [] {
      assert Replies(echoes)[..|echoes| - 1] == Replies(echoes[..|echoes| - 1]);
      NoModsInReplies(echoes[..|echoes| - 1]);
    }
  }

  lemma {:induction false} ModsOfNumbered(xid: nat, mods: seq<FlowMod>)
    ensures Mods(Numbered(xid, mods)) == mods
  {
    if mods != [] {
      assert Numbered(xid, mods)[..|mods| - 1] == Numbered(xid, mods[..|mods| - 1]);
      ModsOfNumbered(xid, mods[..|mods| - 1]);
    }
  }

  /** The texts of the requests served. */
  function RequestAsks(inbox: seq<RawMsg>, events: seq<Event>): seq<Ask>
    decreases |events|
  {
    if events == [] then [] else
      match events[0]
      case Tick => RequestAsks(inbox, events[1..])
      case Incoming => if inbox == [] then [] else RequestAsks(inbox[1..], events[1..])
      case Request(json, delete) => [Ask(json, delete)] + RequestAsks(inbox, events[1..])
  }

  lemma ModsOfTick(xid: nat, inbox: seq<RawMsg>, events: seq<Event>, ports: PortMap, hasher: Hasher, n: nat)
    requires events != [] && events[0].Tick?
    ensures Mods(Served(xid, inbox, events, ports, hasher, n)) ==
            Mods(Served(Next(xid), inbox, events[1..], ports, hasher, n))
  {
    hide JsonMod, Mods, Replies;
    ModsOfOne(EchoRequest(xid), Served(Next(xid), inbox, events[1..], ports, hasher, n));
  }

  lemma ModsOfIncoming(xid: nat, inbox: seq<RawMsg>, events: seq<Event>, ports: PortMap, hasher: Hasher, n: nat)
    requires events != [] && events[0].Incoming?
    ensures Mods(Served(xid, inbox, events, ports, hasher, n)) ==
            if inbox == [] then [] else Mods(Served(xid, inbox[1..], events[1..], ports, hasher, n))
  {
    hide JsonMod, Mods, Replies;
    NoModsInNothing();
    if inbox != [] {
      NoModsInReplies(EchoesIn(inbox[0]));
      ModsConcat(Replies(EchoesIn(inbox[0])), Served(xid, inbox[1..], events[1..], ports, hasher, n));
    }
  }

  lemma {:induction false} ModsOfServed(
    xid: nat, inbox: seq<RawMsg>, events: seq<Event>, ports: PortMap, hasher: Hasher, n: nat)
    ensures Mods(Served(xid, inbox, events, ports, hasher, n)) ==
            AskMods(RequestAsks(inbox, events), ports, hasher, n)
    decreases |events|
  {
    hide JsonMod, Served, Mods, AskMods, Next;
    NothingAsked(ports, hasher, n);
    NothingServed(xid, inbox, ports, hasher, n);
    NoModsInNothing();
    if events != [] {
      match events[0]
      case Tick =>
        ModsOfTick(xid, inbox, events, ports, hasher, n);
        ModsOfServed(Next(xid), inbox, events[1..], ports, hasher, n);
      case Incoming =>
        ModsOfIncoming(xid, inbox, events, ports, hasher, n);
        if inbox != [] { ModsOfServed(xid, inbox[1..], events[1..], ports, hasher, n); }
      case Request(json, delete) =>
        var a := Ask(json, delete);
        AskModsConcat([a], RequestAsks(inbox, events[1..]), ports, hasher, n);
        AskModsOne(a, ports, hasher, n);
        ModsOfRequest(xid, inbox, events, ports, hasher, n);
        var next := if JsonMod(a, ports, hasher, n).Some? then Next(xid) else xid;
        ModsOfServed(next, inbox, events[1..], ports, hasher, n + 1);
    }
  }

  lemma ModsOfRequest(xid: nat, inbox: seq<RawMsg>, events: seq<Event>, ports: PortMap, hasher: Hasher, n: nat)
    requires events != [] && events[0].Request?
    ensures
      var m := JsonMod(Ask(events[0].json, events[0].delete), ports, hasher, n);
      Mods(Served(xid, inbox, events, ports, hasher, n)) ==
      ModsOf(m) + Mods(Served(if m.Some? then Next(xid) else xid, inbox, events[1..], ports, hasher, n + 1))
  {
    hide JsonMod, Mods, Replies;
    var m := JsonMod(Ask(events[0].json, events[0].delete), ports, hasher, n);
    if m.Some? { ModsOfOne(Mod(xid, m.value), Served(Next(xid), inbox, events[1..], ports, hasher, n + 1)); }
  }

  lemma ModsOfOne(s: Sent, rest: seq<Sent>)
    ensures Mods([s] + rest) == (match s case Mod(_, m) => [m] case _ => []) + Mods(rest)
  {
    ModsConcat([s], rest);
    assert [s][..0] == [];
  }

  function ProgrammedMods(c: Config, inbox: seq<RawMsg>, events: seq<Event>, hasher: Hasher): seq<FlowMod> {
    match Discover(map[], [], inbox)
    case Closed(_) => []
    case Found(ports, _, rest) =>
      InstallMods(c, ports, hasher) + AskMods(RequestAsks(rest, events), ports, hasher, |c.statics|)
  }

  lemma ModsOfProgrammed(c: Config, inbox: seq<RawMsg>, events: seq<Event>, hasher: Hasher)
    ensures Mods(Programmed(c, inbox, events, hasher)) == ProgrammedMods(c, inbox, events, hasher)
  {
    hide Discover, InstallMods, Served, AskMods, Replies, Mods, Numbered;
    match Discover(map[], [], inbox)
    case Closed(echoes) => NoModsInReplies(echoes);
    case Found(ports, echoes, rest) =>
      var mods := InstallMods(c, ports, hasher);
      var served := Served((5 + |mods|) % U32, rest, events, ports, hasher, |c.statics|);
      NoModsInReplies(echoes);
      ModsConcat(Replies(echoes) + Numbered(5, mods), served);
      ModsConcat(Replies(echoes), Numbered(5, mods));
      ModsOfNumbered(5, mods);
      ModsOfServed((5 + |mods|) % U32, rest, events, ports, hasher, |c.statics|);
  }

  /** The messages behind the features reply, if the session comes that far. */
  function BehindFeatures(inbox: seq<RawMsg>): Option<seq<RawMsg>> {
    if inbox == [] || inbox[0].msgType != HELLO then None else
      match AwaitFeatures([], inbox[1..]) case Lost(_) => None case Ready(_, rest) => Some(rest)
  }

  /** The modifications of a whole session: none at all when the handshake or the
      discovery does not end; else the fixed head, the configured flows and the requests. */
  function SessionMods(c: Config, inbox: seq<RawMsg>, events: seq<Event>, hasher: Hasher): seq<FlowMod> {
    match BehindFeatures(inbox) case None => [] case Some(rest) => ProgrammedMods(c, rest, events, hasher)
  }

  lemma ModsOfConversation(c: Config, inbox: seq<RawMsg>, events: seq<Event>, hasher: Hasher)
    ensures Mods(Conversation(c, inbox, events, hasher)) == SessionMods(c, inbox, events, hasher)
  {
    hide AwaitFeatures, ProgrammedMods, Replies, Programmed, Mods;
    if inbox != [] && inbox[0].msgType == HELLO {
      NoModsInHello();
      ModsConcat([Hello(1), FeaturesRequest(2)], Greeted(c, inbox[1..], events, hasher));
      match AwaitFeatures([], inbox[1..])
      case Lost(echoes) => NoModsInReplies(echoes);
      case Ready(echoes, rest) =>
        var programmed := Programmed(c, rest, events, hasher);
        NoModsInReplies(echoes);
        ModsConcat(Replies(echoes), [SetConfig(3, 128), PortDescRequest(4)] + programmed);
        ModsConcat([SetConfig(3, 128), PortDescRequest(4)], programmed);
        ModsOfProgrammed(c, rest, events, hasher);
    } else {
      NoModsInNothing();
    }
  }

  lemma NoModsInNothing()
    ensures Mods([]) == []
  {
  }

  lemma NoModsInHello()
    ensures Mods([Hello(1), FeaturesRequest(2)]) == [] && Mods([SetConfig(3, 128), PortDescRequest(4)]) == []
  {
    var a, b := [Hello(1), FeaturesRequest(2)], [SetConfig(3, 128), PortDescRequest(4)];
    assert a[..1] == [Hello(1)] && b[..1] == [SetConfig(3, 128)];
    assert [Hello(1)][..0] == [] && [SetConfig(3, 128)][..0] == [];
    ModsOfOne(Hello(1), [FeaturesRequest(2)]);
    ModsOfOne(SetConfig(3, 128), [PortDescRequest(4)]);
    ModsOfOne(FeaturesRequest(2), []);
    ModsOfOne(PortDescRequest(4), []);
  }
}
