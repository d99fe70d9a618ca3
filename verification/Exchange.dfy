/** What a whole session says, message by message: which messages it reads, that it answers
    every echo request among them and nothing else, and that its own messages are numbered
    without a gap. Message types are those of section A.1 of the OpenFlow Switch
    Specification 1.3.0: 0 hello, 2 echo request, 6 features reply. */
module Exchange {
  import opened Text
  import opened OpenFlow
  import opened PortDiscovery
  import opened Session

  // ---------------------------------------------------------------- replies

  predicate IsEchoRequest(m: RawMsg) { m.msgType == 2 }

  /** The answers to the echo requests among these messages, in order. */
  function Answers(read: seq<RawMsg>): seq<Sent> {
    if read == [] then [] else
      var m := read[|read| - 1];
      Answers(read[..|read| - 1]) + (if IsEchoRequest(m) then [EchoReply(m.xid, m.payload)] else [])
  }

  /** The echo replies among what was sent. */
  function RepliesIn(sent: seq<Sent>): seq<Sent> {
    if sent == [] then [] else
      RepliesIn(sent[..|sent| - 1]) + (if sent[|sent| - 1].EchoReply? then [sent[|sent| - 1]] else [])
  }

  /** Everything else: what the session says of its own accord. */
  function OwnIn(sent: seq<Sent>): seq<Sent> {
    if sent == [] then [] else
      OwnIn(sent[..|sent| - 1]) + (if sent[|sent| - 1].EchoReply? then [] else [sent[|sent| - 1]])
  }

  lemma {:induction false} RepliesConcat(a: seq<Sent>, b: seq<Sent>)
    ensures RepliesIn(a + b) == RepliesIn(a) + RepliesIn(b) && OwnIn(a + b) == OwnIn(a) + OwnIn(b)
  {
    if b == [] {
      assert a + b == a;
    } else {
      assert (a + b)[..|a + b| - 1] == a + b[..|b| - 1];
      RepliesConcat(a, b[..|b| - 1]);
    }
  }

  lemma {:induction false} AnswersConcat(a: seq<RawMsg>, b: seq<RawMsg>)
    ensures Answers(a + b) == Answers(a) + Answers(b)
  {
    if b == [] {
      assert a + b == a;
    } else {
      assert (a + b)[..|a + b| - 1] == a + b[..|b| - 1];
      AnswersConcat(a, b[..|b| - 1]);
    }
  }

  lemma AnswerOne(m: RawMsg)
    ensures Answers([m]) == if m.msgType == 2 then [EchoReply(m.xid, m.payload)] else []
  {
    assert [m][..0] == [];
  }

  lemma {:induction false} AnswersAreReplies(read: seq<RawMsg>)
    ensures RepliesIn(Answers(read)) == Answers(read) && OwnIn(Answers(read)) == []
  {
    if read != [] {
      var before, m := Answers(read[..|read| - 1]), read[|read| - 1];
      AnswersAreReplies(read[..|read| - 1]);
      if IsEchoRequest(m) { assert (before + [EchoReply(m.xid, m.payload)])[..|before|] == before; }
      assert before + [] == before;
    }
  }

  lemma {:induction false} OwnMessages(sent: seq<Sent>)
    requires forall s | s in sent :: !s.EchoReply?
    ensures RepliesIn(sent) == [] && OwnIn(sent) == sent
  {
    if sent != [] {
      assert sent[|sent| - 1] in sent;
      OwnMessages(sent[..|sent| - 1]);
    }
  }

  lemma RepliesAppend(a: seq<Echo>, b: seq<Echo>)
    ensures Replies(a + b) == Replies(a) + Replies(b)
  {
  }

  lemma {:induction false} RepliesAreAnswers(read: seq<RawMsg>)
    ensures Replies(AllEchoes(read)) == Answers(read)
  {
    hide Replies, Answers, EchoesIn;
    if read == [] {
      NoAnswers();
    } else {
      RepliesAreAnswers(read[1..]);
      AnswersConcat([read[0]], read[1..]);
      AnswerOne(read[0]);
      OneReply(read[0]);
      assert read == [read[0]] + read[1..];
      RepliesAppend(EchoesIn(read[0]), AllEchoes(read[1..]));
    }
  }

  lemma NoAnswers()
    ensures Replies(AllEchoes([])) == [] && Answers([]) == []
  {
  }

  // ---------------------------------------------------------------- how far a session reads

  /** The first place from `i` on where the message is one of these; the end when there is
      none. */
  function FirstFrom(inbox: seq<RawMsg>, i: nat, stops: RawMsg -> bool): (n: nat)
    requires i <= |inbox|
    ensures i <= n <= |inbox| && (n < |inbox| ==> stops(inbox[n])) && forall j | i <= j < n :: !stops(inbox[j])
    decreases |inbox| - i
  {
    if i == |inbox| || stops(inbox[i]) then i else FirstFrom(inbox, i + 1, stops)
  }

  lemma {:induction false} FeaturesAwaited(echoes: seq<Echo>, inbox: seq<RawMsg>, n: nat)
    requires n <= |inbox| && (n < |inbox| ==> inbox[n].msgType == 6) && forall j | 0 <= j < n :: inbox[j].msgType != 6
    ensures AwaitFeatures(echoes, inbox) ==
            if n < |inbox| then Ready(echoes + AllEchoes(inbox[..n]), inbox[n + 1..])
            else Lost(echoes + AllEchoes(inbox))
    decreases |inbox|
  {
    if n == 0 {
      assert inbox[..0] == [] && echoes + [] == echoes;
    } else {
      var echoes' := echoes + EchoesIn(inbox[0]);
      assert echoes + [] == echoes;
      FeaturesAwaited(echoes', inbox[1..], n - 1);
      assert inbox[1..][..n - 1] == inbox[..n][1..];
      if n < |inbox| { assert inbox[1..][n - 1 + 1..] == inbox[n + 1..]; }
      assert echoes' + AllEchoes(inbox[..n][1..]) == echoes + AllEchoes(inbox[..n]);
      assert inbox[..|inbox|] == inbox;
    }
  }

  lemma DiscoveryDone(inbox: seq<RawMsg>, n: nat)
    requires n <= |inbox| && (n < |inbox| ==> !Continues(inbox[n])) && forall j | 0 <= j < n :: Continues(inbox[j])
    ensures
      var found := Discover(map[], [], inbox);
      if n < |inbox| then
        found == Found(AddPorts(map[], AllPorts(inbox[..n + 1])), AllEchoes(inbox[..n + 1]), inbox[n + 1..])
      else found == Closed(AllEchoes(inbox))
  {
    hide Discover, AddPorts, AllPorts, AllEchoes, Continues;
    if n < |inbox| {
      DiscoveryReadsTo(map[], [], inbox, n);
      assert [] + AllEchoes(inbox[..n + 1]) == AllEchoes(inbox[..n + 1]);
    } else {
      DiscoveryWaits(map[], [], inbox);
      assert [] + AllEchoes(inbox) == AllEchoes(inbox);
    }
  }

  /** Where the wait for the features reply ends, and where discovery does. */
  function FeaturesAt(inbox: seq<RawMsg>): (f: nat)
    requires inbox != []
    ensures 1 <= f <= |inbox|
  {
    FirstFrom(inbox, 1, (m: RawMsg) => m.msgType == 6)
  }

  function DiscoveredAt(inbox: seq<RawMsg>): (d: nat)
    requires inbox != [] && FeaturesAt(inbox) < |inbox|
    ensures FeaturesAt(inbox) < d <= |inbox|
  {
    FirstFrom(inbox, FeaturesAt(inbox) + 1, (m: RawMsg) => !Continues(m))
  }

  /** The session gets as far as programming the switch. */
  predicate Programs(inbox: seq<RawMsg>) {
    inbox != [] && inbox[0].msgType == 0 && FeaturesAt(inbox) < |inbox| && DiscoveredAt(inbox) < |inbox|
  }

  function PortsOf(inbox: seq<RawMsg>): PortMap
    requires Programs(inbox)
  {
    AddPorts(map[], AllPorts(inbox[FeaturesAt(inbox) + 1..DiscoveredAt(inbox) + 1]))
  }

  /** The conversation, phase by phase. */
  function Phases(c: Config, inbox: seq<RawMsg>, events: seq<Event>, hasher: Hasher): seq<Sent> {
    if inbox == [] || inbox[0].msgType != 0 then [] else
      var f := FeaturesAt(inbox);
      [Hello(1), FeaturesRequest(2)] + Answers(inbox[1..f]) +
      (if f == |inbox| then [] else Behind(c, inbox, events, hasher))
  }

  function Behind(c: Config, inbox: seq<RawMsg>, events: seq<Event>, hasher: Hasher): seq<Sent>
    requires inbox != [] && inbox[0].msgType == 0 && FeaturesAt(inbox) < |inbox|
  {
    var f, d := FeaturesAt(inbox), DiscoveredAt(inbox);
    [SetConfig(3, 128), PortDescRequest(4)] + Answers(inbox[f + 1..d]) +
    if d == |inbox| then [] else
      var mods := InstallMods(c, PortsOf(inbox), hasher);
      Numbered(5, mods) +
      Served((5 + |mods|) % U32, inbox[d + 1..], events, PortsOf(inbox), hasher, |c.statics|)
  }

  lemma AwaitedAnswers(inbox: seq<RawMsg>)
    requires inbox != []
    ensures
      var f := FeaturesAt(inbox);
      match AwaitFeatures([], inbox[1..])
      case Ready(echoes, rest) => f < |inbox| && Replies(echoes) == Answers(inbox[1..f]) && rest == inbox[f + 1..]
      case Lost(echoes) => f == |inbox| && Replies(echoes) == Answers(inbox[1..f])
  {
    hide AwaitFeatures, Replies, Answers, AllEchoes;
    var f, rest := FeaturesAt(inbox), inbox[1..];
    forall j | 0 <= j < f - 1 ensures rest[j].msgType != 6 { assert inbox[j + 1].msgType != 6; }
    FeaturesAwaited([], rest, f - 1);
    assert rest[..f - 1] == inbox[1..f] && [] + AllEchoes(inbox[1..f]) == AllEchoes(inbox[1..f]);
    RepliesAreAnswers(inbox[1..f]);
    if f < |inbox| {
      assert rest[f - 1 + 1..] == inbox[f + 1..];
    } else {
      assert rest == inbox[1..f];
    }
  }

  lemma NoAnswerAtStop(inbox: seq<RawMsg>, i: nat, d: nat)
    requires i <= d < |inbox| && !Continues(inbox[d])
    ensures Answers(inbox[i..d + 1]) == Answers(inbox[i..d])
  {
    hide IsPortReply, More;
    assert inbox[i..d + 1][..d - i] == inbox[i..d];
  }

  lemma DiscoveredAnswers(inbox: seq<RawMsg>)
    requires inbox != [] && FeaturesAt(inbox) < |inbox|
    ensures
      var f, d := FeaturesAt(inbox), DiscoveredAt(inbox);
      match Discover(map[], [], inbox[f + 1..])
      case Found(ports, echoes, rest) =>
        d < |inbox| && ports == AddPorts(map[], AllPorts(inbox[f + 1..d + 1])) &&
        Replies(echoes) == Answers(inbox[f + 1..d]) && rest == inbox[d + 1..]
      case Closed(echoes) => d == |inbox| && Replies(echoes) == Answers(inbox[f + 1..d])
  {
    hide Discover, Replies, Answers, AllEchoes, AddPorts, AllPorts, Continues, FeaturesAt;
    var f, d := FeaturesAt(inbox), DiscoveredAt(inbox);
    var behind, n := inbox[f + 1..], d - f - 1;
    forall j | 0 <= j < n ensures Continues(behind[j]) { assert Continues(inbox[f + 1 + j]); }
    DiscoveryDone(behind, n);
    if d < |inbox| {
      assert behind[..n + 1] == inbox[f + 1..d + 1] && behind[n + 1..] == inbox[d + 1..];
      RepliesAreAnswers(inbox[f + 1..d + 1]);
      NoAnswerAtStop(inbox, f + 1, d);
    } else {
      assert behind == inbox[f + 1..d];
      RepliesAreAnswers(behind);
    }
  }

  /** On every inbox and for all events the session says exactly this: in the wait for the
      features reply, in discovery and in keepalive the messages read are answered where
      they are read. */
  lemma ConversationIsPhases(c: Config, inbox: seq<RawMsg>, events: seq<Event>, hasher: Hasher)
    ensures Conversation(c, inbox, events, hasher) == Phases(c, inbox, events, hasher)
  {
    hide AwaitFeatures, Discover, Replies, Answers, AllEchoes, AddPorts, AllPorts, FeaturesAt, DiscoveredAt,
         InstallMods, Served, Numbered;
    if inbox != [] && inbox[0].msgType == 0 {
      AwaitedAnswers(inbox);
      if FeaturesAt(inbox) < |inbox| {
        DiscoveredAnswers(inbox);
        BehindFeaturesSays(c, inbox, events, hasher);
      }
    }
  }

  lemma BehindFeaturesSays(c: Config, inbox: seq<RawMsg>, events: seq<Event>, hasher: Hasher)
    requires inbox != [] && inbox[0].msgType == 0 && FeaturesAt(inbox) < |inbox|
    ensures
      var f := FeaturesAt(inbox);
      [SetConfig(3, 128), PortDescRequest(4)] + Programmed(c, inbox[f + 1..], events, hasher) ==
      Behind(c, inbox, events, hasher)
  {
    hide Discover, Replies, Answers, AllEchoes, AddPorts, AllPorts, FeaturesAt, DiscoveredAt, InstallMods;
    hide Served, Numbered;
    DiscoveredAnswers(inbox);
  }

  // ---------------------------------------------------------------- keepalive

  /** The events up to the one that finds the connection closed: every `Incoming` takes one
      of the messages left. */
  function Handled(left: nat, events: seq<Event>): seq<Event> {
    if events == [] then [] else
      match events[0]
      case Incoming => if left == 0 then [] else [events[0]] + Handled(left - 1, events[1..])
      case _ => [events[0]] + Handled(left, events[1..])
  }

  /** How many messages the events read. */
  function Reads(events: seq<Event>): nat {
    if events == [] then 0 else (if events[0].Incoming? then 1 else 0) + Reads(events[1..])
  }

  lemma {:induction false} HandledReads(left: nat, events: seq<Event>)
    ensures Reads(Handled(left, events)) == if Reads(events) < left then Reads(events) else left
  {
    if events != [] {
      var left' := if events[0].Incoming? && left > 0 then left - 1 else left;
      HandledReads(left', events[1..]);
      if !(events[0].Incoming? && left == 0) {
        assert Handled(left, events)[1..] == Handled(left', events[1..]);
      }
    }
  }

  /** What the session itself says on an event: an echo request on each tick, a modification
      for each request that translates. The numbers come later. */
  function Bodies(events: seq<Event>, ports: PortMap, hasher: Hasher, n: nat): seq<Sent> {
    if events == [] then [] else
      match events[0]
      case Tick => [EchoRequest(0)] + Bodies(events[1..], ports, hasher, n)
      case Incoming => Bodies(events[1..], ports, hasher, n)
      case Request(json, delete) =>
        (match JsonMod(Ask(json, delete), ports, hasher, n) case Some(m) => [Mod(0, m)] case None => []) +
        Bodies(events[1..], ports, hasher, n + 1)
  }

  function WithXid(s: Sent, xid: nat): Sent {
    match s
    case Hello(_) => Hello(xid)
    case FeaturesRequest(_) => FeaturesRequest(xid)
    case SetConfig(_, length) => SetConfig(xid, length)
    case PortDescRequest(_) => PortDescRequest(xid)
    case EchoReply(_, payload) => EchoReply(xid, payload)
    case EchoRequest(_) => EchoRequest(xid)
    case Mod(_, m) => Mod(xid, m)
  }

  /** These messages under consecutive numbers from `xid` on. */
  function Stamped(xid: nat, bodies: seq<Sent>): (r: seq<Sent>)
    ensures |r| == |bodies|
  {
    seq(|bodies|, i requires 0 <= i < |bodies| => WithXid(bodies[i], (xid + i) % U32))
  }

  lemma StampedConcat(xid: nat, a: seq<Sent>, b: seq<Sent>)
    ensures Stamped(xid, a + b) == Stamped(xid, a) + Stamped((xid + |a|) % U32, b)
  {
    hide WithXid;
    var whole := Stamped(xid, a + b);
    forall i | |a| <= i < |whole| ensures whole[i] == Stamped((xid + |a|) % U32, b)[i - |a|] {
      assert (xid + i) % U32 == ((xid + |a|) % U32 + (i - |a|)) % U32;
    }
  }

  lemma StampedOne(xid: nat, s: Sent)
    requires xid < U32
    ensures Stamped(xid, [s]) == [WithXid(s, xid)]
  {
  }

  lemma OneSent(s: Sent)
    ensures RepliesIn([s]) == (if s.EchoReply? then [s] else []) && OwnIn([s]) == if s.EchoReply? then [] else [s]
  {
    assert [s][..0] == [];
  }

  /** An own message first. */
  lemma OwnFirst(s: Sent, xid: nat, rest: seq<Sent>, bodies: seq<Sent>)
    requires xid < U32 && !s.EchoReply? && OwnIn(rest) == Stamped(Next(xid), bodies)
    ensures RepliesIn([WithXid(s, xid)] + rest) == RepliesIn(rest)
    ensures OwnIn([WithXid(s, xid)] + rest) == Stamped(xid, [s] + bodies)
  {
    hide RepliesIn, OwnIn, Stamped;
    RepliesConcat([WithXid(s, xid)], rest);
    OneSent(WithXid(s, xid));
    StampedConcat(xid, [s], bodies);
    StampedOne(xid, s);
  }

  /** An answer first. */
  lemma AnswerFirst(m: RawMsg, rest: seq<Sent>)
    ensures RepliesIn(Replies(EchoesIn(m)) + rest) == Answers([m]) + RepliesIn(rest)
    ensures OwnIn(Replies(EchoesIn(m)) + rest) == OwnIn(rest)
  {
    hide RepliesIn, OwnIn, Replies, EchoesIn, Answers;
    OneReply(m);
    AnswerOne(m);
    RepliesConcat(Replies(EchoesIn(m)), rest);
    AnswersAreReplies([m]);
  }

  lemma ServedTick(xid: nat, inbox: seq<RawMsg>, events: seq<Event>, ports: PortMap, hasher: Hasher, n: nat)
    requires events != [] && events[0].Tick?
    ensures Served(xid, inbox, events, ports, hasher, n) ==
            [WithXid(EchoRequest(0), xid)] + Served(Next(xid), inbox, events[1..], ports, hasher, n)
    ensures Bodies(events, ports, hasher, n) == [EchoRequest(0)] + Bodies(events[1..], ports, hasher, n)
  {
    hide JsonMod;
  }

  lemma ServedIncoming(xid: nat, inbox: seq<RawMsg>, events: seq<Event>, ports: PortMap, hasher: Hasher, n: nat)
    requires events != [] && events[0].Incoming?
    ensures Served(xid, inbox, events, ports, hasher, n) ==
            if inbox == [] then []
            else Replies(EchoesIn(inbox[0])) + Served(xid, inbox[1..], events[1..], ports, hasher, n)
    ensures Bodies(events, ports, hasher, n) == Bodies(events[1..], ports, hasher, n)
  {
    hide JsonMod, Replies;
  }

  lemma ServedRequest(xid: nat, inbox: seq<RawMsg>, events: seq<Event>, ports: PortMap, hasher: Hasher, n: nat)
    requires events != [] && events[0].Request?
    ensures
      var m := JsonMod(Ask(events[0].json, events[0].delete), ports, hasher, n);
      match m
      case Some(x) =>
        Served(xid, inbox, events, ports, hasher, n) ==
        [WithXid(Mod(0, x), xid)] + Served(Next(xid), inbox, events[1..], ports, hasher, n + 1) &&
        Bodies(events, ports, hasher, n) == [Mod(0, x)] + Bodies(events[1..], ports, hasher, n + 1)
      case None =>
        Served(xid, inbox, events, ports, hasher, n) == Served(xid, inbox, events[1..], ports, hasher, n + 1) &&
        Bodies(events, ports, hasher, n) == Bodies(events[1..], ports, hasher, n + 1)
  {
    hide JsonMod;
    assert [] + Bodies(events[1..], ports, hasher, n + 1) == Bodies(events[1..], ports, hasher, n + 1);
  }

  lemma HandledFirst(left: nat, events: seq<Event>)
    requires events != []
    ensures
      var rest := Handled(if events[0].Incoming? && left > 0 then left - 1 else left, events[1..]);
      if events[0].Incoming? && left == 0 then Handled(left, events) == []
      else
        Handled(left, events) == [events[0]] + rest && Handled(left, events)[1..] == rest &&
        Reads(Handled(left, events)) == (if events[0].Incoming? then 1 else 0) + Reads(rest)
  {
    var rest := Handled(if events[0].Incoming? && left > 0 then left - 1 else left, events[1..]);
    assert ([events[0]] + rest)[1..] == rest;
  }

  ghost predicate Says(
    sent: seq<Sent>, xid: nat, inbox: seq<RawMsg>, handled: seq<Event>, ports: PortMap, hasher: Hasher, n: nat)
  {
    Reads(handled) <= |inbox| && RepliesIn(sent) == Answers(inbox[..Reads(handled)]) &&
    OwnIn(sent) == Stamped(xid, Bodies(handled, ports, hasher, n))
  }

  lemma SaysNothing(xid: nat, inbox: seq<RawMsg>, ports: PortMap, hasher: Hasher, n: nat)
    ensures Says([], xid, inbox, [], ports, hasher, n)
  {
    assert inbox[..0] == [];
  }

  /** Keepalive, on every inbox and for all events: the echo requests read are answered, each
      once and in order, and nothing else is; its own messages are one per tick and per
      request that translates, numbered on. */
  lemma {:induction false} KeepaliveSays(
    xid: nat, inbox: seq<RawMsg>, events: seq<Event>, ports: PortMap, hasher: Hasher, n: nat)
    requires xid < U32
    ensures Says(Served(xid, inbox, events, ports, hasher, n), xid, inbox, Handled(|inbox|, events), ports, hasher, n)
    decreases |events|
  {
    hide Served, Bodies, Stamped, RepliesIn, OwnIn, Answers, Handled, Reads, JsonMod, Replies, EchoesIn, WithXid;
    if events == [] {
      NothingServed(xid, inbox, ports, hasher, n);
      NoneHandled(|inbox|);
      SaysNothing(xid, inbox, ports, hasher, n);
    } else {
      var handled := Handled(|inbox|, events);
      HandledFirst(|inbox|, events);
      match events[0]
      case Tick =>
        var rest := Served(Next(xid), inbox, events[1..], ports, hasher, n);
        ServedTick(xid, inbox, events, ports, hasher, n);
        ServedTick(xid, inbox, handled, ports, hasher, n);
        KeepaliveSays(Next(xid), inbox, events[1..], ports, hasher, n);
        OwnFirst(EchoRequest(0), xid, rest, Bodies(handled[1..], ports, hasher, n));
      case Incoming =>
        ServedIncoming(xid, inbox, events, ports, hasher, n);
        if inbox == [] {
          SaysNothing(xid, inbox, ports, hasher, n);
        } else {
          ServedIncoming(xid, inbox, handled, ports, hasher, n);
          KeepaliveSays(xid, inbox[1..], events[1..], ports, hasher, n);
          AnswerFirst(inbox[0], Served(xid, inbox[1..], events[1..], ports, hasher, n));
          var r := Reads(handled[1..]);
          AnswersConcat([inbox[0]], inbox[1..][..r]);
          assert [inbox[0]] + inbox[1..][..r] == inbox[..r + 1];
        }
      case Request(json, delete) =>
        var m := JsonMod(Ask(json, delete), ports, hasher, n);
        ServedRequest(xid, inbox, events, ports, hasher, n);
        ServedRequest(xid, inbox, handled, ports, hasher, n);
        KeepaliveSays(if m.Some? then Next(xid) else xid, inbox, events[1..], ports, hasher, n + 1);
        if m.Some? {
          var rest := Served(Next(xid), inbox, events[1..], ports, hasher, n + 1);
          OwnFirst(Mod(0, m.value), xid, rest, Bodies(handled[1..], ports, hasher, n + 1));
        }
    }
  }

  lemma NoneHandled(left: nat)
    ensures Handled(left, []) == []
  {
  }

  // ---------------------------------------------------------------- event by event

  function Requests(events: seq<Event>): nat {
    if events == [] then 0 else (if events[0].Request? then 1 else 0) + Requests(events[1..])
  }

  /** What one more event makes an open session say. */
  function Response(xid: nat, unread: seq<RawMsg>, e: Event, ports: PortMap, hasher: Hasher, n: nat): seq<Sent> {
    match e
    case Tick => [EchoRequest(xid)]
    case Incoming => if unread == [] then [] else Answers([unread[0]])
    case Request(json, delete) =>
      match JsonMod(Ask(json, delete), ports, hasher, n) case Some(m) => [Mod(xid, m)] case None => []
  }

  lemma ServedOne(xid: nat, inbox: seq<RawMsg>, e: Event, ports: PortMap, hasher: Hasher, n: nat)
    ensures Served(xid, inbox, [e], ports, hasher, n) == Response(xid, inbox, e, ports, hasher, n)
  {
    hide JsonMod, Replies, Answers, EchoesIn;
    var none: seq<Event> := [e][1..];
    assert none == [];
    match e
    case Tick =>
      ServedTick(xid, inbox, [e], ports, hasher, n);
      NothingServed(Next(xid), inbox, ports, hasher, n);
    case Incoming =>
      ServedIncoming(xid, inbox, [e], ports, hasher, n);
      if inbox != [] {
        OneReply(inbox[0]);
        AnswerOne(inbox[0]);
        NothingServed(xid, inbox[1..], ports, hasher, n);
      }
    case Request(json, delete) =>
      ServedRequest(xid, inbox, [e], ports, hasher, n);
      NothingServed(xid, inbox, ports, hasher, n + 1);
      NothingServed(Next(xid), inbox, ports, hasher, n + 1);
  }

  lemma CountFirst(events: seq<Event>, e: Event, ports: PortMap, hasher: Hasher, n: nat)
    requires events != []
    ensures (events + [e])[0] == events[0] && (events + [e])[1..] == events[1..] + [e]
    ensures Reads(events) == (if events[0].Incoming? then 1 else 0) + Reads(events[1..])
    ensures Requests(events) == (if events[0].Request? then 1 else 0) + Requests(events[1..])
  {
  }

  /** One event more adds just its own response, numbered on: the answer to a message comes
      before anything the session says later. */
  lemma {:induction false} ResponseIsAdded(
    xid: nat, inbox: seq<RawMsg>, events: seq<Event>, e: Event, ports: PortMap, hasher: Hasher, n: nat)
    requires xid < U32
    ensures
      Served(xid, inbox, events + [e], ports, hasher, n) ==
      Served(xid, inbox, events, ports, hasher, n) +
      if Reads(events) > |inbox| then []
      else
        Response((xid + |Bodies(events, ports, hasher, n)|) % U32, inbox[Reads(events)..], e, ports, hasher,
                 n + Requests(events))
    decreases |events|
  {
    hide Served, Bodies, JsonMod, Replies, EchoesIn, WithXid, Reads, Requests, Response;
    var all := events + [e];
    if events == [] {
      assert all == [e];
      ServedOne(xid, inbox, e, ports, hasher, n);
      NothingServed(xid, inbox, ports, hasher, n);
      NothingCounted(ports, hasher, n);
      assert inbox[0..] == inbox;
    } else {
      CountFirst(events, e, ports, hasher, n);
      match events[0]
      case Tick =>
        ServedTick(xid, inbox, all, ports, hasher, n);
        ServedTick(xid, inbox, events, ports, hasher, n);
        ResponseIsAdded(Next(xid), inbox, events[1..], e, ports, hasher, n);
        NumberedOn(xid, |Bodies(events[1..], ports, hasher, n)|);
      case Incoming =>
        ServedIncoming(xid, inbox, all, ports, hasher, n);
        ServedIncoming(xid, inbox, events, ports, hasher, n);
        if inbox != [] {
          ResponseIsAdded(xid, inbox[1..], events[1..], e, ports, hasher, n);
          if Reads(events) <= |inbox| { assert inbox[1..][Reads(events[1..])..] == inbox[Reads(events)..]; }
        }
      case Request(json, delete) =>
        var m := JsonMod(Ask(json, delete), ports, hasher, n);
        ServedRequest(xid, inbox, all, ports, hasher, n);
        ServedRequest(xid, inbox, events, ports, hasher, n);
        ResponseIsAdded(if m.Some? then Next(xid) else xid, inbox, events[1..], e, ports, hasher, n + 1);
        NumberedOn(xid, |Bodies(events[1..], ports, hasher, n + 1)|);
    }
  }

  lemma NumberedOn(xid: nat, k: nat)
    ensures (Next(xid) + k) % U32 == (xid + (1 + k)) % U32
  {
  }

  lemma NothingCounted(ports: PortMap, hasher: Hasher, n: nat)
    ensures Reads([]) == 0 && Requests([]) == 0 && Bodies([], ports, hasher, n) == []
  {
  }

  // ---------------------------------------------------------------- whole sessions

  /** How many messages the session reads, the hello included. */
  function MessagesRead(inbox: seq<RawMsg>, events: seq<Event>): (r: nat)
    requires inbox != []
    ensures r <= |inbox|
  {
    if FeaturesAt(inbox) == |inbox| || DiscoveredAt(inbox) == |inbox| then |inbox| else
      var left := |inbox| - DiscoveredAt(inbox) - 1;
      HandledReads(left, events);
      DiscoveredAt(inbox) + 1 + Reads(Handled(left, events))
  }

  function ModBodies(mods: seq<FlowMod>): (r: seq<Sent>)
    ensures |r| == |mods|
  {
    seq(|mods|, i requires 0 <= i < |mods| => Mod(0, mods[i]))
  }

  /** What the session says of its own accord: its greeting, the configuration that turns
      packet-ins on, the port request, the installation and then one message for each tick
      and each request that translates. */
  function OwnBodies(c: Config, inbox: seq<RawMsg>, events: seq<Event>, hasher: Hasher): seq<Sent>
    requires inbox != []
  {
    [Hello(0), FeaturesRequest(0)] +
    if FeaturesAt(inbox) == |inbox| then [] else
      [SetConfig(0, 128), PortDescRequest(0)] + if Programs(inbox) then ProgramBodies(c, inbox, events, hasher) else []
  }

  function ProgramBodies(c: Config, inbox: seq<RawMsg>, events: seq<Event>, hasher: Hasher): seq<Sent>
    requires Programs(inbox)
  {
    ModBodies(InstallMods(c, PortsOf(inbox), hasher)) +
    Bodies(Handled(|inbox| - DiscoveredAt(inbox) - 1, events), PortsOf(inbox), hasher, |c.statics|)
  }

  lemma ModsAreStamped(xid: nat, mods: seq<FlowMod>)
    ensures Numbered(xid, mods) == Stamped(xid, ModBodies(mods))
    ensures RepliesIn(Numbered(xid, mods)) == [] && OwnIn(Numbered(xid, mods)) == Numbered(xid, mods)
  {
    OwnMessages(Numbered(xid, mods));
  }

  lemma NoAnswerTo(inbox: seq<RawMsg>, i: nat, j: nat, k: nat)
    requires i <= j < k <= |inbox| && !IsEchoRequest(inbox[j])
    ensures Answers(inbox[i..k]) == Answers(inbox[i..j]) + Answers(inbox[j + 1..k])
  {
    hide Answers, IsEchoRequest;
    assert inbox[i..k] == inbox[i..j] + [inbox[j]] + inbox[j + 1..k];
    AnswersConcat(inbox[i..j] + [inbox[j]], inbox[j + 1..k]);
    AnswersConcat(inbox[i..j], [inbox[j]]);
    OneAnswer(inbox[j]);
  }

  lemma OneAnswer(m: RawMsg)
    ensures !IsEchoRequest(m) ==> Answers([m]) == []
  {
    AnswerOne(m);
  }

  lemma ProgramSays(c: Config, inbox: seq<RawMsg>, events: seq<Event>, hasher: Hasher)
    requires Programs(inbox)
    ensures
      var mods, d := InstallMods(c, PortsOf(inbox), hasher), DiscoveredAt(inbox);
      var said := Numbered(5, mods) +
        Served((5 + |mods|) % U32, inbox[d + 1..], events, PortsOf(inbox), hasher, |c.statics|);
      RepliesIn(said) == Answers(inbox[d + 1..MessagesRead(inbox, events)]) &&
      OwnIn(said) == Stamped(5, ProgramBodies(c, inbox, events, hasher))
  {
    hide RepliesIn, OwnIn, Answers, InstallMods, Served, Numbered, Stamped, Bodies, Handled, ModBodies, FeaturesAt,
         DiscoveredAt, PortsOf, Reads;
    var mods, d, ports := InstallMods(c, PortsOf(inbox), hasher), DiscoveredAt(inbox), PortsOf(inbox);
    var rest, left := inbox[d + 1..], |inbox| - d - 1;
    var xid := (5 + |mods|) % U32;
    var served := Served(xid, rest, events, ports, hasher, |c.statics|);
    KeepaliveSays(xid, rest, events, ports, hasher, |c.statics|);
    ModsAreStamped(5, mods);
    RepliesConcat(Numbered(5, mods), served);
    StampedConcat(5, ModBodies(mods), Bodies(Handled(left, events), ports, hasher, |c.statics|));
    HandledReads(left, events);
    assert rest[..Reads(Handled(left, events))] == inbox[d + 1..d + 1 + Reads(Handled(left, events))];
    assert [] + Answers(rest[..Reads(Handled(left, events))]) == Answers(rest[..Reads(Handled(left, events))]);
  }

  lemma StopsAreNoEchoes(inbox: seq<RawMsg>)
    requires inbox != []
    ensures
      var f := FeaturesAt(inbox);
      f < |inbox| ==>
        !IsEchoRequest(inbox[f]) && var d := DiscoveredAt(inbox); d < |inbox| ==> !IsEchoRequest(inbox[d])
  {
    hide IsPortReply, More;
  }

  /** Two own messages, the answers in the phase they open, and what follows. */
  lemma PhaseSays(a: Sent, b: Sent, read: seq<RawMsg>, rest: seq<Sent>, xid: nat, bodies: seq<Sent>)
    requires !a.EchoReply? && !b.EchoReply? && xid + 2 < U32 && OwnIn(rest) == Stamped(xid + 2, bodies)
    ensures
      var said := [WithXid(a, xid), WithXid(b, xid + 1)] + Answers(read) + rest;
      RepliesIn(said) == Answers(read) + RepliesIn(rest) && OwnIn(said) == Stamped(xid, [a, b] + bodies)
  {
    hide RepliesIn, OwnIn, Answers, Stamped;
    var head := [WithXid(a, xid), WithXid(b, xid + 1)];
    RepliesConcat(head + Answers(read), rest);
    RepliesConcat(head, Answers(read));
    AnswersAreReplies(read);
    OwnMessages(head);
    StampedConcat(xid, [a, b], bodies);
    StampedTwo(xid, a, b);
    assert OwnIn(head) + [] == head;
  }

  lemma StampedTwo(xid: nat, a: Sent, b: Sent)
    requires xid + 2 < U32
    ensures Stamped(xid, [a, b]) == [WithXid(a, xid), WithXid(b, xid + 1)]
  {
    hide WithXid;
  }

  lemma BehindSays(c: Config, inbox: seq<RawMsg>, events: seq<Event>, hasher: Hasher)
    requires inbox != [] && inbox[0].msgType == 0 && FeaturesAt(inbox) < |inbox|
    ensures
      var f, said := FeaturesAt(inbox), Behind(c, inbox, events, hasher);
      f + 1 <= MessagesRead(inbox, events) && RepliesIn(said) == Answers(inbox[f + 1..MessagesRead(inbox, events)]) &&
      OwnIn(said) ==
      Stamped(3, [SetConfig(0, 128), PortDescRequest(0)] +
                 if Programs(inbox) then ProgramBodies(c, inbox, events, hasher) else [])
  {
    hide RepliesIn, OwnIn, Answers, InstallMods, Served, Numbered, Stamped, ProgramBodies, FeaturesAt, DiscoveredAt,
         PortsOf, Reads, IsEchoRequest, Handled;
    var f, d := FeaturesAt(inbox), DiscoveredAt(inbox);
    if d == |inbox| {
      NothingSaid(5);
      PhaseSays(SetConfig(0, 128), PortDescRequest(0), inbox[f + 1..d], [], 3, []);
    } else {
      var mods := InstallMods(c, PortsOf(inbox), hasher);
      var rest := Numbered(5, mods) +
        Served((5 + |mods|) % U32, inbox[d + 1..], events, PortsOf(inbox), hasher, |c.statics|);
      ProgramSays(c, inbox, events, hasher);
      PhaseSays(SetConfig(0, 128), PortDescRequest(0), inbox[f + 1..d], rest, 3,
                ProgramBodies(c, inbox, events, hasher));
      StopsAreNoEchoes(inbox);
      NoAnswerTo(inbox, f + 1, d, MessagesRead(inbox, events));
    }
  }

  lemma NothingSaid(xid: nat)
    ensures RepliesIn([]) == [] && OwnIn([]) == [] && Stamped(xid, []) == []
  {
  }

  /** The whole session: of the messages it reads after the hello each echo request is
      answered exactly once, in order, with its own number and payload, and nothing else
      draws a reply; and what it says of its own accord is numbered from 1 without a gap. */
  lemma SessionSays(c: Config, inbox: seq<RawMsg>, events: seq<Event>, hasher: Hasher)
    requires inbox != [] && inbox[0].msgType == 0
    ensures
      var said := Conversation(c, inbox, events, hasher);
      1 <= MessagesRead(inbox, events) && RepliesIn(said) == Answers(inbox[1..MessagesRead(inbox, events)]) &&
      OwnIn(said) == Stamped(1, OwnBodies(c, inbox, events, hasher))
  {
    hide RepliesIn, OwnIn, Answers, Stamped, ProgramBodies, FeaturesAt, Behind, Conversation, IsEchoRequest, Programs;
    ConversationIsPhases(c, inbox, events, hasher);
    var f := FeaturesAt(inbox);
    if f == |inbox| {
      NothingSaid(3);
      PhaseSays(Hello(0), FeaturesRequest(0), inbox[1..f], [], 1, []);
      assert Answers(inbox[1..f]) + [] == Answers(inbox[1..f]);
    } else {
      var bodies := [SetConfig(0, 128), PortDescRequest(0)] +
        if Programs(inbox) then ProgramBodies(c, inbox, events, hasher) else [];
      BehindSays(c, inbox, events, hasher);
      PhaseSays(Hello(0), FeaturesRequest(0), inbox[1..f], Behind(c, inbox, events, hasher), 1, bodies);
      StopsAreNoEchoes(inbox);
      NoAnswerTo(inbox, 1, f, MessagesRead(inbox, events));
    }
  }
}
