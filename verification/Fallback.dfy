/** The in-band principle of the controller: from the first modification of a session on,
    the switch's table always holds the NORMAL fallback, or at least switches normally. */
module Fallback {
  import opened Text
  import opened Ordering
  import opened OpenFlow
  import opened PortDiscovery
  import opened FlowMatch
  import opened FlowTranslate
  import opened Session

  // ---------------------------------------------------------------- what a text does

  predicate AskTranslates(a: Ask, ports: PortMap) {
    PARSE_ENTRY(a.json).Some? && Translatable(PARSE_ENTRY(a.json).value, a.delete, ports)
  }

  /** The text names the place of the fallback. */
  predicate AtPlace(a: Ask) {
    PARSE_ENTRY(a.json).Some? && AtFallbackPlace(PARSE_ENTRY(a.json).value)
  }

  /** And, when it deletes, its cookie lets it reach the entry a session installs. */
  predicate AskNamesFallback(a: Ask) {
    PARSE_ENTRY(a.json).Some? && NamesFallback(PARSE_ENTRY(a.json).value, a.delete)
  }

  lemma AskTranslatesIff(a: Ask, ports: PortMap, hasher: Hasher, n: nat)
    ensures JsonMod(a, ports, hasher, n).Some? <==> AskTranslates(a, ports)
  {
    hide FlowToMod, Translatable;
    if PARSE_ENTRY(a.json).Some? {
      var e := PARSE_ENTRY(a.json).value;
      TranslatesIff(e, a.delete, hasher(n, e.matchFields.Keys), ports);
    }
  }

  lemma AskHarm(a: Ask, ports: PortMap, hasher: Hasher, n: nat)
    requires JsonMod(a, ports, hasher, n).Some?
    ensures Harmless(JsonMod(a, ports, hasher, n).value) <==> !AskNamesFallback(a)
  {
    hide FlowToMod, NamesFallback, Harmless, IsOrder;
    var e := PARSE_ENTRY(a.json).value;
    HarmlessIffNotFallback(e, a.delete, hasher(n, e.matchFields.Keys), ports);
  }

  /** The modifications of the texts are harmless exactly when no text that translates
      names the fallback. */
  lemma {:induction false} AsksHarm(asks: seq<Ask>, ports: PortMap, hasher: Hasher, first: nat)
    ensures (forall m | m in AskMods(asks, ports, hasher, first) :: Harmless(m)) <==>
            (forall a | a in asks && AskTranslates(a, ports) :: !AskNamesFallback(a))
  {
    hide Harmless, JsonMod, AskNamesFallback, AskTranslates;
    if asks != [] {
      var n := |asks| - 1;
      var before, last := asks[..n], asks[n];
      AsksHarm(before, ports, hasher, first);
      AskTranslatesIff(last, ports, hasher, first + n);
      if JsonMod(last, ports, hasher, first + n).Some? { AskHarm(last, ports, hasher, first + n); }
      var mods, more := AskMods(before, ports, hasher, first), ModsOf(JsonMod(last, ports, hasher, first + n));
      assert AskMods(asks, ports, hasher, first) == mods + more;
      assert forall m :: m in mods + more <==> m in mods || m in more;
      assert asks == before + [last];
      assert forall a :: a in asks <==> a in before || a == last;
    }
  }

  lemma {:induction false} PairsAreElsewhere(flows: seq<PairFlow>, ports: PortMap)
    ensures forall m | m in PairMods(flows, ports) :: m.Add? && m.key != FALLBACK_KEY
  {
    if flows != [] {
      var f := flows[|flows| - 1];
      PairsAreElsewhere(flows[..|flows| - 1], ports);
      if Discovered(f, ports) {
        assert InPortField in PairKey(f, ports).fields;
      }
    }
  }

  // ---------------------------------------------------------------- what a session sends

  /** The ports a session discovers and the messages behind the discovery, if it comes that
      far. */
  function Reached(inbox: seq<RawMsg>): Option<(PortMap, seq<RawMsg>)> {
    var rest :- BehindFeatures(inbox);
    match Discover(map[], [], rest)
    case Closed(_) => None
    case Found(ports, _, left) => Some((ports, left))
  }

  /** The texts a session translates: the static flows, then the requests served. */
  function Asks(c: Config, left: seq<RawMsg>, events: seq<Event>): seq<Ask> {
    StaticAsks(c.statics) + RequestAsks(left, events)
  }

  const AFTER_FIRST := [DeleteCookie(MANAGED_COOKIE), FALLBACK_ADD]

  lemma SessionParts(c: Config, inbox: seq<RawMsg>, events: seq<Event>, hasher: Hasher)
    ensures Reached(inbox) == None ==> SessionMods(c, inbox, events, hasher) == []
    ensures
      Reached(inbox).Some? ==>
        var (ports, left) := Reached(inbox).value;
        SessionMods(c, inbox, events, hasher) ==
        [FALLBACK_ADD] + (AFTER_FIRST + PairMods(c.flows, ports) + AskMods(Asks(c, left, events), ports, hasher, 0))
  {
    hide BehindFeatures, Discover, PairMods, AskMods, StaticAsks, RequestAsks;
    if Reached(inbox).Some? {
      var (ports, left) := Reached(inbox).value;
      AskModsConcat(StaticAsks(c.statics), RequestAsks(left, events), ports, hasher, 0);
      HeadParts(PairMods(c.flows, ports), AskMods(StaticAsks(c.statics), ports, hasher, 0),
                AskMods(RequestAsks(left, events), ports, hasher, |c.statics|));
    }
  }

  lemma HeadParts(a: seq<FlowMod>, b: seq<FlowMod>, c: seq<FlowMod>)
    ensures HEAD_MODS + (a + b) + c == [FALLBACK_ADD] + (AFTER_FIRST + a + (b + c))
  {
  }

  // ---------------------------------------------------------------- every state of every run

  /** A history of the table during a session: some beginning of what the session sends
      has arrived, entries have expired in between, and it starts with an arrival. */
  predicate During(c: Config, inbox: seq<RawMsg>, events: seq<Event>, hasher: Hasher, changes: seq<Change>) {
    changes != [] && changes[0].Applied? && Arrived(changes) <= SessionMods(c, inbox, events, hasher)
  }

  lemma {:induction false} ArrivedFirst(changes: seq<Change>)
    requires changes != [] && changes[0].Applied?
    ensures Arrived(changes) == [changes[0].m] + Arrived(changes[1..])
  {
    if |changes| == 1 {
      assert changes[..0] == [] && changes[1..] == [];
    } else {
      var before := changes[..|changes| - 1];
      ArrivedFirst(before);
      assert changes[1..][..|changes| - 2] == before[1..];
    }
  }

  lemma {:induction false} ReplayFirst(t: Table, changes: seq<Change>)
    requires changes != []
    ensures Replay(t, changes) == Replay(Happens(t, changes[0]), changes[1..])
  {
    if |changes| == 1 {
      assert changes[..0] == [] && changes[1..] == [];
    } else {
      var before := changes[..|changes| - 1];
      ReplayFirst(t, before);
      assert changes[1..][..|changes| - 2] == before[1..];
    }
  }

  lemma SessionStartsWithFallback(c: Config, inbox: seq<RawMsg>, events: seq<Event>, hasher: Hasher)
    requires SessionMods(c, inbox, events, hasher) != []
    ensures SessionMods(c, inbox, events, hasher)[0] == FALLBACK_ADD && Reached(inbox).Some?
  {
    hide SessionMods, Reached, PairMods, AskMods;
    SessionParts(c, inbox, events, hasher);
  }

  /** From any table, in every state from the first arrival on, the fallback is in place:
      exactly when nothing that arrived was harmful. */
  lemma SafeFromTheFirst(
    c: Config, inbox: seq<RawMsg>, events: seq<Event>, hasher: Hasher, t: Table, changes: seq<Change>)
    requires During(c, inbox, events, hasher, changes)
    ensures (forall n | 1 <= n <= |changes| :: Safe(Replay(t, changes[..n]))) <==>
            (forall m | m in Arrived(changes) :: Harmless(m))
  {
    hide SessionMods, Harmless, Replay, Arrived, Safe, Reached;
    ArrivedFirst(changes);
    SessionStartsWithFallback(c, inbox, events, hasher);
    assert Arrived(changes)[0] == SessionMods(c, inbox, events, hasher)[0];
    var t1, later := Happens(t, changes[0]), changes[1..];
    FirstIsSafe(t);
    SafeRun(t1, later);
    forall n | 1 <= n <= |changes| ensures Replay(t, changes[..n]) == Replay(t1, later[..n - 1]) {
      ReplayFirst(t, changes[..n]);
      assert changes[..n][1..] == later[..n - 1];
    }
    assert forall n | 0 <= n <= |later| :: Replay(t1, later[..n]) == Replay(t, changes[..n + 1]);
  }

  lemma FirstIsSafe(t: Table)
    ensures Safe(Apply(t, FALLBACK_ADD)) && Harmless(FALLBACK_ADD)
  {
  }

  lemma PairsAreHarmless(flows: seq<PairFlow>, ports: PortMap)
    ensures forall m | m in PairMods(flows, ports) :: Harmless(m)
  {
    hide PairMods;
    PairsAreElsewhere(flows, ports);
  }

  /** What a session sends is harmless exactly when its texts are. */
  lemma SessionHarm(c: Config, inbox: seq<RawMsg>, events: seq<Event>, hasher: Hasher)
    requires Reached(inbox).Some?
    ensures
      var (ports, left) := Reached(inbox).value;
      (forall m | m in SessionMods(c, inbox, events, hasher) :: Harmless(m)) <==>
      (forall a | a in Asks(c, left, events) && AskTranslates(a, ports) :: !AskNamesFallback(a))
  {
    hide Harmless, SessionMods, PairMods, AskMods, Asks, Reached, AskTranslates, AskNamesFallback, AFTER_FIRST;
    var (ports, left) := Reached(inbox).value;
    SessionParts(c, inbox, events, hasher);
    AsksHarm(Asks(c, left, events), ports, hasher, 0);
    PairsAreHarmless(c.flows, ports);
    AfterFirstIsHarmless();
    var head := [FALLBACK_ADD] + (AFTER_FIRST + PairMods(c.flows, ports));
    var asks := AskMods(Asks(c, left, events), ports, hasher, 0);
    assert SessionMods(c, inbox, events, hasher) == head + asks;
    assert forall m :: m in head + asks <==> m in head || m in asks;
  }

  lemma AfterFirstIsHarmless()
    ensures Harmless(FALLBACK_ADD) && forall m | m in AFTER_FIRST :: Harmless(m)
  {
  }

  /** In-band safety of whole sessions, exactly: in every state of every history, from any
      table, the fallback is in place if and only if no text that translates names its
      place, on the wire. */
  lemma InBandSafetyIff(c: Config, inbox: seq<RawMsg>, events: seq<Event>, hasher: Hasher, t: Table)
    requires Reached(inbox).Some?
    ensures
      var (ports, left) := Reached(inbox).value;
      (forall changes, n | During(c, inbox, events, hasher, changes) && 1 <= n <= |changes| ::
         Safe(Replay(t, changes[..n]))) <==>
      (forall a | a in Asks(c, left, events) && AskTranslates(a, ports) :: !AskNamesFallback(a))
  {
    hide SessionMods, Harmless, Replay, Arrived, Safe, Reached, Asks, AskTranslates, AskNamesFallback;
    var mods := SessionMods(c, inbox, events, hasher);
    SessionHarm(c, inbox, events, hasher);
    forall changes | During(c, inbox, events, hasher, changes)
      ensures (forall n | 1 <= n <= |changes| :: Safe(Replay(t, changes[..n]))) <==>
              (forall m | m in Arrived(changes) :: Harmless(m))
    {
      SafeFromTheFirst(c, inbox, events, hasher, t, changes);
    }
    EverythingArrives(c, inbox, events, hasher);
    assert During(c, inbox, events, hasher, Undisturbed(mods));
  }

  lemma EverythingArrives(c: Config, inbox: seq<RawMsg>, events: seq<Event>, hasher: Hasher)
    requires Reached(inbox).Some?
    ensures
      var mods := SessionMods(c, inbox, events, hasher);
      During(c, inbox, events, hasher, Undisturbed(mods)) && Arrived(Undisturbed(mods)) == mods
  {
    hide SessionMods, Reached, PairMods, AskMods, Arrived;
    var mods := SessionMods(c, inbox, events, hasher);
    SessionParts(c, inbox, events, hasher);
    UndisturbedArrives(FALLBACK_ENTRY, mods);
    FirstIsApplied(mods);
  }

  lemma {:induction false} FirstIsApplied(mods: seq<FlowMod>)
    requires mods != []
    ensures Undisturbed(mods)[0] == Applied(mods[0])
  {
    if |mods| > 1 {
      FirstIsApplied(mods[..|mods| - 1]);
    } else {
      assert mods[..0] == [];
    }
  }

  /** No static flow and no request names the place of the fallback. */
  predicate LeavesFallbackAlone(c: Config, events: seq<Event>) {
    (forall json | json in c.statics :: !AskNamesFallback(Ask(json, false))) &&
    forall e | e in events && e.Request? :: !AskNamesFallback(Ask(e.json, e.delete))
  }

  lemma {:induction false} RequestIsEvent(left: seq<RawMsg>, events: seq<Event>, a: Ask)
    requires a in RequestAsks(left, events)
    ensures Request(a.json, a.delete) in events
    decreases |events|
  {
    assert events == [events[0]] + events[1..];
    match events[0]
    case Tick => RequestIsEvent(left, events[1..], a);
    case Incoming => RequestIsEvent(left[1..], events[1..], a);
    case Request(json, delete) =>
      if a != Ask(json, delete) {
        assert a in RequestAsks(left, events[1..]);
        RequestIsEvent(left, events[1..], a);
      }
  }

  lemma AskIsConfigured(c: Config, left: seq<RawMsg>, events: seq<Event>, a: Ask)
    requires a in Asks(c, left, events)
    ensures (a.json in c.statics && !a.delete) || Request(a.json, a.delete) in events
  {
    hide RequestAsks;
    if a in RequestAsks(left, events) {
      RequestIsEvent(left, events, a);
    } else {
      assert a in StaticAsks(c.statics);
    }
  }

  /** In-band safety from the texts alone: whatever the switch sends, whatever was in the
      table, wherever the session breaks off and whatever expires meanwhile. */
  lemma InBandSafety(c: Config, inbox: seq<RawMsg>, events: seq<Event>, hasher: Hasher, t: Table,
                     changes: seq<Change>, n: nat)
    requires During(c, inbox, events, hasher, changes) && 1 <= n <= |changes|
    requires LeavesFallbackAlone(c, events)
    ensures Safe(Replay(t, changes[..n]))
  {
    hide SessionMods, Replay, Arrived, Safe, AskNamesFallback, Asks, Reached, AskTranslates;
    ArrivedFirst(changes);
    SessionStartsWithFallback(c, inbox, events, hasher);
    InBandSafetyIff(c, inbox, events, hasher, t);
    var (ports, left) := Reached(inbox).value;
    forall a | a in Asks(c, left, events) ensures !AskNamesFallback(a) { AskIsConfigured(c, left, events, a); }
  }

  // ---------------------------------------------------------------- normal switching, by whatever entry

  function WithoutDrops(actions: seq<JsonFlowAction>): seq<JsonFlowAction> {
    if actions == [] then [] else
      var n := |actions| - 1;
      WithoutDrops(actions[..n]) + (if actions[n] == JsonDrop then [] else [actions[n]])
  }

  /** Output to a port number on the wire. */
  function Wire(port: nat): Action {
    SentAction(Output(Port(port)))[0]
  }

  /** The action outputs to this port number, by whatever name. */
  predicate SendsTo(a: JsonFlowAction, ports: PortMap, port: nat) {
    match a
    case JsonNormal => port == OFPP_NORMAL
    case JsonOutput(name) => OutputTo(name, ports).Some? && WirePort(OutputTo(name, ports).value) == port
    case JsonController(maxLen) => port == OFPP_CONTROLLER && maxLen == Some(0xffff)
    case _ => false
  }

  /** Drops apart, the actions are one output to this port. */
  predicate JustSendsTo(actions: seq<JsonFlowAction>, ports: PortMap, port: nat) {
    |WithoutDrops(actions)| == 1 && SendsTo(WithoutDrops(actions)[0], ports, port)
  }

  predicate JsonIsNormal(actions: seq<JsonFlowAction>, ports: PortMap) {
    JustSendsTo(actions, ports, OFPP_NORMAL)
  }

  lemma SetFieldIsNoOutput(field: string, text: string, proto: Option<nat>)
    ensures
      var a := SetFieldAction(field, text, proto);
      a.Some? ==>
        !a.value.Output? && !a.value.Drop? && |SentAction(a.value)| == 1 && !SentAction(a.value)[0].Output? &&
        !SentAction(a.value)[0].ToController?
  {
    hide ParseMac, TransportRegister;
  }

  /** A drop sends nothing; any other action sends one. */
  lemma OneAction(a: JsonFlowAction, ports: PortMap, proto: Option<nat>, port: nat)
    requires ActionOf(a, ports, proto).Some?
    ensures
      var sent := SentAction(ActionOf(a, ports, proto).value);
      if a == JsonDrop then sent == [] else |sent| == 1 && (sent[0] == Wire(port) <==> SendsTo(a, ports, port))
  {
    hide SetFieldAction, OutputTo, ParseMac, ParseAddress;
    if a.SetField? { SetFieldIsNoOutput(a.field, a.text, proto); }
  }

  lemma {:induction false} SentOneByOne(actions: seq<JsonFlowAction>, ports: PortMap, proto: Option<nat>, port: nat)
    requires ActionsOf(actions, ports, proto).Some?
    ensures
      var sent, said := SentActions(ActionsOf(actions, ports, proto).value), WithoutDrops(actions);
      |sent| == |said| && forall i | 0 <= i < |sent| :: sent[i] == Wire(port) <==> SendsTo(said[i], ports, port)
  {
    hide ActionOf, SentAction, SendsTo, ActionsOf, Wire;
    var list := ActionsOf(actions, ports, proto).value;
    if actions != [] {
      var n := |actions| - 1;
      ActionsBefore(actions, ports, proto);
      SentOneByOne(actions[..n], ports, proto, port);
      OneAction(actions[n], ports, proto, port);
    }
  }

  lemma ActionsBefore(actions: seq<JsonFlowAction>, ports: PortMap, proto: Option<nat>)
    requires ActionsOf(actions, ports, proto).Some? && actions != []
    ensures
      var n, list := |actions| - 1, ActionsOf(actions, ports, proto).value;
      ActionsOf(actions[..n], ports, proto) == Some(list[..n]) && ActionOf(actions[n], ports, proto) == Some(list[n])
  {
    hide ActionOf;
  }

  /** What the actions of a JSON entry do is seen on the entry. */
  lemma ActionsSend(actions: seq<JsonFlowAction>, ports: PortMap, proto: Option<nat>, port: nat)
    requires ActionsOf(actions, ports, proto).Some?
    ensures SentActions(ActionsOf(actions, ports, proto).value) == [Wire(port)] <==> JustSendsTo(actions, ports, port)
  {
    hide ActionsOf, SentActions, WithoutDrops, SendsTo, Wire;
    SentOneByOne(actions, ports, proto, port);
    var sent := SentActions(ActionsOf(actions, ports, proto).value);
    if |sent| == 1 { assert sent == [sent[0]]; }
  }

  lemma NormalIsWire(actions: seq<JsonFlowAction>, ports: PortMap, proto: Option<nat>)
    requires ActionsOf(actions, ports, proto).Some?
    ensures IsNormal(SentActions(ActionsOf(actions, ports, proto).value)) <==> JsonIsNormal(actions, ports)
  {
    hide ActionsOf, SentActions, JustSendsTo;
    ActionsSend(actions, ports, proto, OFPP_NORMAL);
  }

  /** What a text that translates does to the table. */
  lemma AskEffect(a: Ask, ports: PortMap, hasher: Hasher, n: nat)
    requires JsonMod(a, ports, hasher, n).Some?
    ensures
      var e, m := PARSE_ENTRY(a.json).value, JsonMod(a, ports, hasher, n).value;
      if a.delete then m.DeleteStrict? && (m.key == FALLBACK_KEY <==> AtPlace(a)) && m.filter == e.cookie
      else
        m.Add? && (m.key == FALLBACK_KEY <==> AtPlace(a)) &&
        (IsNormal(m.entry.actions) <==> JsonIsNormal(e.actions, ports)) && m.entry.cookie == e.cookie.GetOr(0) &&
        m.entry.idleTimeout == e.idleTimeout && m.entry.hardTimeout == e.hardTimeout
  {
    hide MatchOf, ActionsOf, IsNormal, JsonIsNormal, AtFallbackPlace, IsOrder, KeyFor, MarkedProto, SentActions;
    var e := PARSE_ENTRY(a.json).value;
    var order := hasher(n, e.matchFields.Keys);
    KeyIsFallback(e, order, ports);
    if !a.delete { NormalIsWire(e.actions, ports, MarkedProto(e.matchFields)); }
  }

  /** From any table: every state from the first arrival on switches normally, exactly when
      each later change keeps it so. */
  lemma NormalFromTheFirst(
    c: Config, inbox: seq<RawMsg>, events: seq<Event>, hasher: Hasher, t: Table, changes: seq<Change>)
    requires During(c, inbox, events, hasher, changes)
    ensures (forall n | 1 <= n <= |changes| :: SwitchesNormally(Replay(t, changes[..n]))) <==>
            KeepsAll(FALLBACK_ENTRY, changes[1..])
  {
    hide SessionMods, Replay, Arrived, SwitchesNormally, Provider, KeepsAll;
    ArrivedFirst(changes);
    SessionStartsWithFallback(c, inbox, events, hasher);
    assert Arrived(changes)[0] == SessionMods(c, inbox, events, hasher)[0];
    var t1, later := Happens(t, changes[0]), changes[1..];
    FirstIsNormal(t);
    NormalRun(t1, later);
    forall n | 1 <= n <= |changes| ensures Replay(t, changes[..n]) == Replay(t1, later[..n - 1]) {
      ReplayFirst(t, changes[..n]);
      assert changes[..n][1..] == later[..n - 1];
    }
    assert forall n | 0 <= n <= |later| :: Replay(t1, later[..n]) == Replay(t, changes[..n + 1]);
  }

  lemma FirstIsNormal(t: Table)
    ensures SwitchesNormally(Apply(t, FALLBACK_ADD)) && Provider(Apply(t, FALLBACK_ADD)) == FALLBACK_ENTRY
  {
  }

  /** The in-band principle itself: normal switching is never interrupted, however much of
      the session arrives and whatever expires meanwhile, exactly when the modifications of
      the session are unbroken from the fallback entry on. */
  lemma NormalIffUnbroken(c: Config, inbox: seq<RawMsg>, events: seq<Event>, hasher: Hasher, t: Table)
    requires SessionMods(c, inbox, events, hasher) != []
    ensures (forall changes, n | During(c, inbox, events, hasher, changes) && 1 <= n <= |changes| ::
               SwitchesNormally(Replay(t, changes[..n]))) <==>
            Unbroken(FALLBACK_ENTRY, SessionMods(c, inbox, events, hasher)[1..])
  {
    hide SessionMods, Replay, Arrived, SwitchesNormally, KeepsAll, Unbroken;
    var mods := SessionMods(c, inbox, events, hasher);
    SessionStartsWithFallback(c, inbox, events, hasher);
    if Unbroken(FALLBACK_ENTRY, mods[1..]) {
      forall changes, n | During(c, inbox, events, hasher, changes) && 1 <= n <= |changes|
        ensures SwitchesNormally(Replay(t, changes[..n]))
      {
        UnbrokenIsNormal(c, inbox, events, hasher, t, changes);
      }
    } else {
      var later := BrokenShows(FALLBACK_ENTRY, mods[1..]);
      var changes := [Applied(FALLBACK_ADD)] + later;
      ArrivedFirst(changes);
      assert changes[1..] == later && mods == [FALLBACK_ADD] + mods[1..];
      NormalFromTheFirst(c, inbox, events, hasher, t, changes);
    }
  }

  lemma UnbrokenIsNormal(
    c: Config, inbox: seq<RawMsg>, events: seq<Event>, hasher: Hasher, t: Table, changes: seq<Change>)
    requires During(c, inbox, events, hasher, changes) && SessionMods(c, inbox, events, hasher) != []
    requires Unbroken(FALLBACK_ENTRY, SessionMods(c, inbox, events, hasher)[1..])
    ensures forall n | 1 <= n <= |changes| :: SwitchesNormally(Replay(t, changes[..n]))
  {
    hide SessionMods, Replay, Arrived, SwitchesNormally, KeepsAll, Unbroken;
    ArrivedFirst(changes);
    UnbrokenKeeps(FALLBACK_ENTRY, SessionMods(c, inbox, events, hasher)[1..], changes[1..]);
    NormalFromTheFirst(c, inbox, events, hasher, t, changes);
  }

  // ---------------------------------------------------------------- normal switching, from the texts

  /** A text at the place of the fallback that is translated. */
  predicate Lands(a: Ask, ports: PortMap) {
    AtPlace(a) && AskTranslates(a, ports)
  }

  /** The cookie of the entry at the fallback's place after these texts, if it is never
      taken away. */
  function CookieAfter(asks: seq<Ask>, ports: PortMap): nat {
    if asks == [] then FALLBACK_COOKIE else
      var a := asks[|asks| - 1];
      if Lands(a, ports) && !a.delete then PARSE_ENTRY(a.json).value.cookie.GetOr(0)
      else CookieAfter(asks[..|asks| - 1], ports)
  }

  /** What a text may do at that place: replace the entry by a lasting normal one, or delete
      one with another cookie. */
  predicate Allows(cookie: nat, a: Ask, ports: PortMap) {
    Lands(a, ports) ==>
      var e := PARSE_ENTRY(a.json).value;
      if a.delete then e.cookie.Some? && e.cookie.value != cookie
      else JsonIsNormal(e.actions, ports) && e.idleTimeout == 0 && e.hardTimeout == 0
  }

  predicate Survives(asks: seq<Ask>, ports: PortMap) {
    asks == [] ||
    (Survives(asks[..|asks| - 1], ports) && Allows(CookieAfter(asks[..|asks| - 1], ports), asks[|asks| - 1], ports))
  }

  lemma AllowsIff(e: Entry, a: Ask, ports: PortMap, hasher: Hasher, n: nat)
    requires JsonMod(a, ports, hasher, n).Some? && Lasting(e)
    ensures
      var m := JsonMod(a, ports, hasher, n).value;
      (Keeps(e, Applied(m)) && Lasting(Guard(e, Applied(m))) <==> Allows(e.cookie, a, ports)) &&
      Guard(e, Applied(m)).cookie ==
      if Lands(a, ports) && !a.delete then PARSE_ENTRY(a.json).value.cookie.GetOr(0) else e.cookie
  {
    hide JsonMod, IsNormal, JsonIsNormal, AtPlace, AskTranslates;
    AskTranslatesIff(a, ports, hasher, n);
    AskEffect(a, ports, hasher, n);
  }

  lemma UnbrokenSnoc(e: Entry, mods: seq<FlowMod>, m: FlowMod)
    ensures GuardOver(e, mods + [m]) == Guard(GuardOver(e, mods), Applied(m))
    ensures Unbroken(e, mods + [m]) <==>
            Unbroken(e, mods) && Keeps(GuardOver(e, mods), Applied(m)) && Lasting(GuardOver(e, mods + [m]))
  {
    assert (mods + [m])[..|mods|] == mods;
  }

  lemma UnbrokenLasts(e: Entry, mods: seq<FlowMod>)
    requires Unbroken(e, mods)
    ensures Lasting(GuardOver(e, mods))
  {
  }

  lemma {:induction false} AsksSurvive(base: seq<FlowMod>, asks: seq<Ask>, ports: PortMap, hasher: Hasher, first: nat)
    requires Unbroken(FALLBACK_ENTRY, base) && GuardOver(FALLBACK_ENTRY, base) == FALLBACK_ENTRY
    ensures
      var mods := base + AskMods(asks, ports, hasher, first);
      (Unbroken(FALLBACK_ENTRY, mods) <==> Survives(asks, ports)) &&
      (Survives(asks, ports) ==> GuardOver(FALLBACK_ENTRY, mods).cookie == CookieAfter(asks, ports))
    decreases |asks|
  {
    hide Unbroken, GuardOver, Keeps, Guard, Lasting, JsonMod, Allows, Lands, AskTranslates;
    if asks == [] {
      assert base + [] == base;
    } else {
      var n := |asks| - 1;
      var before, a := asks[..n], asks[n];
      var mods, m := base + AskMods(before, ports, hasher, first), JsonMod(a, ports, hasher, first + n);
      AsksSurvive(base, before, ports, hasher, first);
      AskTranslatesIff(a, ports, hasher, first + n);
      assert base + AskMods(asks, ports, hasher, first) == mods + ModsOf(m);
      if m.Some? {
        UnbrokenSnoc(FALLBACK_ENTRY, mods, m.value);
        if Unbroken(FALLBACK_ENTRY, mods) {
          UnbrokenLasts(FALLBACK_ENTRY, mods);
          AllowsIff(GuardOver(FALLBACK_ENTRY, mods), a, ports, hasher, first + n);
        }
      } else {
        assert mods + [] == mods;
        LandsTranslates(a, ports, CookieAfter(before, ports));
      }
    }
  }

  lemma LandsTranslates(a: Ask, ports: PortMap, cookie: nat)
    ensures Lands(a, ports) ==> AskTranslates(a, ports)
    ensures !AskTranslates(a, ports) ==> Allows(cookie, a, ports)
  {
    hide AtPlace, AskTranslates, JsonIsNormal;
  }

  lemma {:induction false} ElsewhereKeeps(base: seq<FlowMod>, mods: seq<FlowMod>)
    requires Unbroken(FALLBACK_ENTRY, base) && GuardOver(FALLBACK_ENTRY, base) == FALLBACK_ENTRY
    requires forall m | m in mods :: m.Add? && m.key != FALLBACK_KEY
    ensures Unbroken(FALLBACK_ENTRY, base + mods) && GuardOver(FALLBACK_ENTRY, base + mods) == FALLBACK_ENTRY
    decreases |mods|
  {
    hide Unbroken, GuardOver;
    if mods == [] {
      assert base + mods == base;
    } else {
      var before, last := mods[..|mods| - 1], mods[|mods| - 1];
      assert last in mods && base + mods == (base + before) + [last];
      ElsewhereKeeps(base, before);
      UnbrokenSnoc(FALLBACK_ENTRY, base + before, last);
    }
  }

  lemma HeadIsUnbroken()
    ensures Unbroken(FALLBACK_ENTRY, AFTER_FIRST) && GuardOver(FALLBACK_ENTRY, AFTER_FIRST) == FALLBACK_ENTRY
  {
    hide Unbroken, GuardOver;
    UnbrokenSnoc(FALLBACK_ENTRY, [], DeleteCookie(MANAGED_COOKIE));
    UnbrokenSnoc(FALLBACK_ENTRY, [DeleteCookie(MANAGED_COOKIE)], FALLBACK_ADD);
    NothingIsUnbroken();
    assert [] + [DeleteCookie(MANAGED_COOKIE)] == [DeleteCookie(MANAGED_COOKIE)];
    assert AFTER_FIRST == [DeleteCookie(MANAGED_COOKIE)] + [FALLBACK_ADD];
  }

  lemma NothingIsUnbroken()
    ensures Unbroken(FALLBACK_ENTRY, []) && GuardOver(FALLBACK_ENTRY, []) == FALLBACK_ENTRY
  {
  }

  lemma SessionSurvives(c: Config, inbox: seq<RawMsg>, events: seq<Event>, hasher: Hasher)
    requires Reached(inbox).Some?
    ensures SessionMods(c, inbox, events, hasher) != []
    ensures
      var (ports, left) := Reached(inbox).value;
      Unbroken(FALLBACK_ENTRY, SessionMods(c, inbox, events, hasher)[1..]) <==> Survives(Asks(c, left, events), ports)
  {
    hide SessionMods, Reached, PairMods, AskMods, Asks, Unbroken, GuardOver, Survives, AFTER_FIRST;
    var (ports, left) := Reached(inbox).value;
    SessionParts(c, inbox, events, hasher);
    HeadIsUnbroken();
    PairsAreElsewhere(c.flows, ports);
    ElsewhereKeeps(AFTER_FIRST, PairMods(c.flows, ports));
    AsksSurvive(AFTER_FIRST + PairMods(c.flows, ports), Asks(c, left, events), ports, hasher, 0);
  }

  /** The in-band principle of whole sessions, exactly and from the texts: packets no other
      entry matches are switched normally in every state of every history, from any table,
      if and only if each text that lands at the fallback's place replaces what is there by
      a lasting normal entry or deletes one with another cookie. */
  lemma InBandSwitchingIff(c: Config, inbox: seq<RawMsg>, events: seq<Event>, hasher: Hasher, t: Table)
    requires Reached(inbox).Some?
    ensures
      var (ports, left) := Reached(inbox).value;
      (forall changes, n | During(c, inbox, events, hasher, changes) && 1 <= n <= |changes| ::
         SwitchesNormally(Replay(t, changes[..n]))) <==>
      Survives(Asks(c, left, events), ports)
  {
    hide SessionMods, Reached, Asks, Unbroken, Survives, Replay, SwitchesNormally, During;
    SessionSurvives(c, inbox, events, hasher);
    NormalIffUnbroken(c, inbox, events, hasher, t);
  }

  // ---------------------------------------------------------------- a condition without the ports

  /** Drops apart, just NORMAL by its name. */
  predicate SaysNormal(actions: seq<JsonFlowAction>) {
    |WithoutDrops(actions)| == 1 &&
    var a := WithoutDrops(actions)[0];
    a == JsonNormal || (a.JsonOutput? && SameAscii(a.port, "NORMAL"))
  }

  lemma SaysNormalIsNormal(actions: seq<JsonFlowAction>, ports: PortMap)
    requires SaysNormal(actions)
    ensures JsonIsNormal(actions, ports)
  {
    hide WithoutDrops, ResolvePort;
    var a := WithoutDrops(actions)[0];
    if a.JsonOutput? {
      assert |UpperAscii(a.port)| == |UpperAscii("NORMAL")| == 6 && |UpperAscii("LOCAL")| == 5;
    }
  }

  /** Whatever the text does at the fallback's place, it adds a lasting normal entry with
      one of these cookies, or deletes entries with other cookies. */
  predicate KeepsNormal(a: Ask, cookies: set<nat>) {
    AtPlace(a) ==>
      var e := PARSE_ENTRY(a.json).value;
      if a.delete then e.cookie.Some? && e.cookie.value !in cookies
      else SaysNormal(e.actions) && e.idleTimeout == 0 && e.hardTimeout == 0 && e.cookie.GetOr(0) in cookies
  }

  predicate AllKeepNormal(c: Config, events: seq<Event>, cookies: set<nat>) {
    FALLBACK_COOKIE in cookies && (forall json | json in c.statics :: KeepsNormal(Ask(json, false), cookies)) &&
    forall e | e in events && e.Request? :: KeepsNormal(Ask(e.json, e.delete), cookies)
  }

  lemma {:induction false} KeepingSurvives(asks: seq<Ask>, ports: PortMap, cookies: set<nat>)
    requires FALLBACK_COOKIE in cookies && forall a | a in asks :: KeepsNormal(a, cookies)
    ensures Survives(asks, ports) && CookieAfter(asks, ports) in cookies
  {
    hide AtFallbackPlace, AskTranslates, SaysNormal, JsonIsNormal;
    if asks != [] {
      var a := asks[|asks| - 1];
      assert a in asks;
      KeepingSurvives(asks[..|asks| - 1], ports, cookies);
      if Lands(a, ports) && !a.delete { SaysNormalIsNormal(PARSE_ENTRY(a.json).value.actions, ports); }
    }
  }

  /** Flows may replace the fallback by lasting normal entries and requests may delete other
      cookies there: switching goes on, whatever ports the switch has. */
  lemma InBandSwitching(c: Config, inbox: seq<RawMsg>, events: seq<Event>, hasher: Hasher, cookies: set<nat>, t: Table,
                        changes: seq<Change>, n: nat)
    requires During(c, inbox, events, hasher, changes) && 1 <= n <= |changes| && AllKeepNormal(c, events, cookies)
    ensures SwitchesNormally(Replay(t, changes[..n]))
  {
    hide SessionMods, Replay, Arrived, SwitchesNormally, KeepsNormal, Asks, Reached, Survives;
    ArrivedFirst(changes);
    SessionStartsWithFallback(c, inbox, events, hasher);
    var (ports, left) := Reached(inbox).value;
    forall a | a in Asks(c, left, events) ensures KeepsNormal(a, cookies) { AskIsConfigured(c, left, events, a); }
    KeepingSurvives(Asks(c, left, events), ports, cookies);
    InBandSwitchingIff(c, inbox, events, hasher, t);
  }

  /** Without such conditions it fails: with a static flow that translates and names the
      fallback's place, some history has a state without the fallback entry; and if it is
      not a lasting normal flow, some history has a state that does not switch normally. */
  lemma StaticFlowCanClobber(c: Config, inbox: seq<RawMsg>, events: seq<Event>, hasher: Hasher, t: Table, json: string)
    requires Reached(inbox).Some? && json in c.statics && Lands(Ask(json, false), Reached(inbox).value.0)
    ensures exists changes, n :: During(c, inbox, events, hasher, changes) && 1 <= n <= |changes| &&
                                 !Safe(Replay(t, changes[..n]))
    ensures
      var e := PARSE_ENTRY(json).value;
      !(JsonIsNormal(e.actions, Reached(inbox).value.0) && e.idleTimeout == 0 && e.hardTimeout == 0) ==>
        exists changes, n :: During(c, inbox, events, hasher, changes) && 1 <= n <= |changes| &&
                             !SwitchesNormally(Replay(t, changes[..n]))
  {
    hide SessionMods, Replay, Arrived, Safe, SwitchesNormally, Reached, AskTranslates, JsonIsNormal, During,
         RequestAsks, AtFallbackPlace;
    var (ports, left) := Reached(inbox).value;
    var i :| 0 <= i < |c.statics| && c.statics[i] == json;
    var a := Ask(json, false);
    assert StaticAsks(c.statics)[i] == a && a in StaticAsks(c.statics) && a in Asks(c, left, events);
    InBandSafetyIff(c, inbox, events, hasher, t);
    InBandSwitchingIff(c, inbox, events, hasher, t);
    if Survives(Asks(c, left, events), ports) { SurvivorAllows(Asks(c, left, events), ports, i); }
  }

  lemma {:induction false} SurvivorAllows(asks: seq<Ask>, ports: PortMap, i: nat)
    requires Survives(asks, ports) && i < |asks|
    ensures Allows(CookieAfter(asks[..i], ports), asks[i], ports)
  {
    hide Allows, CookieAfter;
    var before := asks[..|asks| - 1];
    if i < |before| {
      SurvivorAllows(before, ports, i);
      assert before[..i] == asks[..i];
    }
  }

  /** TCP flags are not on the wire: a static flow of the lowest priority that drops packets
      with the SYN flag drops every packet no other entry matches. */
  lemma SynFlowTakesTheFallback(
    c: Config, inbox: seq<RawMsg>, events: seq<Event>, hasher: Hasher, t: Table, json: string)
    requires Reached(inbox).Some? && json in c.statics
    requires PARSE_ENTRY(json) == Some(JsonFlowEntry(0, 0, map[KeyName(KTcpFlags) := SYN], [JsonDrop], None, 0, 0))
    ensures exists changes, n :: During(c, inbox, events, hasher, changes) && 1 <= n <= |changes| &&
                                 !Safe(Replay(t, changes[..n])) && !SwitchesNormally(Replay(t, changes[..n]))
  {
    hide SessionMods, Replay, Safe, SwitchesNormally, Reached, During, KeyName, SYN, JsonIsNormal, Lands;
    var ports := Reached(inbox).value.0;
    SynFlowLands(json, ports);
    StaticFlowCanClobber(c, inbox, events, hasher, t, json);
    var changes, n :| During(c, inbox, events, hasher, changes) && 1 <= n <= |changes| &&
                      !SwitchesNormally(Replay(t, changes[..n]));
    SafeSwitches(Replay(t, changes[..n]));
  }

  lemma SafeSwitches(t: Table)
    ensures Safe(t) ==> SwitchesNormally(t)
  {
  }

  lemma SynFlowLands(json: string, ports: PortMap)
    requires PARSE_ENTRY(json) == Some(JsonFlowEntry(0, 0, map[KeyName(KTcpFlags) := SYN], [JsonDrop], None, 0, 0))
    ensures Lands(Ask(json, false), ports) && !JsonIsNormal([JsonDrop], ports)
  {
    hide KeyName, ParseTcpFlags, MarkedProto, SYN;
    SynFlag();
    KeyOfName(KTcpFlags);
    assert [JsonDrop][..0] == [];
    assert ActionOf(JsonDrop, ports, MarkedProto(PARSE_ENTRY(json).value.matchFields)) == Some(Drop);
  }
}
