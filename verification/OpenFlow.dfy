/** The flow table of an OpenFlow 1.3 switch and the flow modifications the controller
    sends, as in section 6.4 of the OpenFlow Switch Specification 1.3.0: entries are
    identified by table, priority and match; an add replaces the entry it identifies. */
module OpenFlow {
  import opened Text

  /** The fields of a match the controller can set. */
  datatype MatchField =
    | InPortField | EthType | VlanVid | EthSrc | IpProto | TcpFlags
    | TcpSrcField | UdpSrcField | TcpDstField | UdpDstField | Ipv4Src | Ipv4Dst | CtState

  datatype MatchValue =
    | Number(n: nat)
    | Mac(octets: seq<nat>)
    | Flags(flags: bv16)
    | Prefix(address: seq<nat>, length: nat)
    | Masked(value: bv32, mask: bv32)

  /** The fields set in a match; an absent one is a wildcard. */
  type Match = map<MatchField, MatchValue>

  const ANY: Match := map[]

  /** Port names as the switch reported them, with their numbers. */
  type PortMap = map<string, nat>

  datatype OutputPort = Local | NormalPort | Flood | All | InPort | ControllerPort | Port(number: nat)

  datatype Register = Reg0 | Reg1 | Reg2 | TcpSrc | TcpDst | UdpSrc | UdpDst

  datatype Action =
    | Output(to: OutputPort)
    | Drop
    | ToController(maxLen: nat)
    | Resubmit(table: nat)
    | Load(register: Register, bits: nat, value: nat)
    | SetEthDst(mac: seq<nat>)
    | SetEthSrc(mac: seq<nat>)
    | SetVlanVid(vid: nat)
    | SetTunnelId(id: nat)
    | ArpReply(mac: seq<nat>, address: seq<nat>)

  // ---------------------------------------------------------------- what is sent

  const OFPP_IN_PORT: nat := 0xffff_fff8
  const OFPP_NORMAL: nat := 0xffff_fffa
  const OFPP_FLOOD: nat := 0xffff_fffb
  const OFPP_ALL: nat := 0xffff_fffc
  const OFPP_CONTROLLER: nat := 0xffff_fffd
  const OFPP_LOCAL: nat := 0xffff_fffe

  /** A VLAN id with the bit that says a tag is present: `vid | 0x1000`. */
  function Tagged(vid: nat): nat {
    if vid / 0x1000 % 2 == 1 then vid else vid + 0x1000
  }

  /** What a field of a match says on the wire: the TCP flags are not encoded, a mask or
      prefix of no bits is the same as no field, and a prefix of 32 bits or more is the
      whole address. */
  function SentValue(f: MatchField, v: MatchValue): Option<MatchValue> {
    match f
    case TcpFlags => None
    case CtState => if v.Masked? && v.mask == 0 then None else Some(v)
    case VlanVid => Some(if v.Number? then Number(Tagged(v.n)) else v)
    case Ipv4Src | Ipv4Dst =>
      if v.Prefix? && v.length == 0 then None
      else if v.Prefix? && v.length > 32 then Some(Prefix(v.address, 32)) else Some(v)
    case _ => Some(v)
  }

  /** `Match::encode`, as the switch reads it. */
  function Sent(m: Match): Match {
    map f | f in m && SentValue(f, m[f]).Some? :: SentValue(f, m[f]).value
  }

  function WirePort(to: OutputPort): nat {
    match to
    case Local => OFPP_LOCAL case NormalPort => OFPP_NORMAL case Flood => OFPP_FLOOD case All => OFPP_ALL
    case InPort => OFPP_IN_PORT case ControllerPort => OFPP_CONTROLLER case Port(n) => n
  }

  /** One action on the wire: ports are numbers, the controller's has a length, and a drop
      is no action at all. */
  function SentAction(a: Action): seq<Action> {
    match a
    case Output(to) => if WirePort(to) == OFPP_CONTROLLER then [ToController(0xffff)] else [Output(Port(WirePort(to)))]
    case Drop => []
    case SetVlanVid(vid) => [SetVlanVid(Tagged(vid))]
    case _ => [a]
  }

  /** `ActionList::encode`. */
  function SentActions(actions: seq<Action>): seq<Action> {
    if actions == [] then [] else SentActions(actions[..|actions| - 1]) + SentAction(actions[|actions| - 1])
  }

  // ---------------------------------------------------------------- the table

  /** The fields and actions of keys and entries are those sent. */
  datatype Key = Key(table: nat, priority: nat, fields: Match)

  datatype Entry = Entry(cookie: nat, actions: seq<Action>, idleTimeout: nat, hardTimeout: nat, counted: bool)

  type Table = map<Key, Entry>

  datatype FlowMod =
    | Add(key: Key, entry: Entry)
    /** Non-strict, any match, every table, exactly this cookie. */
    | DeleteCookie(cookie: nat)
    /** The one entry so identified, if it has the cookie asked for. */
    | DeleteStrict(key: Key, filter: Option<nat>)

  function Apply(t: Table, m: FlowMod): Table {
    match m
    case Add(key, entry) => t[key := entry]
    case DeleteCookie(cookie) => map k | k in t && t[k].cookie != cookie :: t[k]
    case DeleteStrict(key, filter) =>
      if key in t && (filter == None || filter == Some(t[key].cookie)) then t - {key} else t
  }

  function ApplyAll(t: Table, mods: seq<FlowMod>): Table {
    if mods == [] then t else Apply(ApplyAll(t, mods[..|mods| - 1]), mods[|mods| - 1])
  }

  lemma {:induction false} ApplyAllConcat(t: Table, a: seq<FlowMod>, b: seq<FlowMod>)
    ensures ApplyAll(t, a + b) == ApplyAll(ApplyAll(t, a), b)
  {
    if b == [] {
      assert a + b == a;
    } else {
      assert (a + b)[..|a + b| - 1] == a + b[..|b| - 1];
      ApplyAllConcat(t, a, b[..|b| - 1]);
    }
  }

  // ---------------------------------------------------------------- a table over time

  /** What can happen to a table: a modification arrives, or an entry with a timeout
      expires. */
  datatype Change = Applied(m: FlowMod) | Expired(key: Key)

  function Happens(t: Table, c: Change): Table {
    match c
    case Applied(m) => Apply(t, m)
    case Expired(key) =>
      if key in t && (t[key].idleTimeout != 0 || t[key].hardTimeout != 0) then t - {key} else t
  }

  function Replay(t: Table, changes: seq<Change>): Table {
    if changes == [] then t else Happens(Replay(t, changes[..|changes| - 1]), changes[|changes| - 1])
  }

  /** The modifications among the changes, in order. */
  function Arrived(changes: seq<Change>): seq<FlowMod> {
    if changes == [] then [] else
      Arrived(changes[..|changes| - 1]) +
      (match changes[|changes| - 1] case Applied(m) => [m] case Expired(_) => [])
  }

  // ---------------------------------------------------------------- the NORMAL fallback

  const FALLBACK_COOKIE: nat := 0x3344_4348_0000_0001
  const MANAGED_COOKIE: nat := 0x3344_4348_0000_0002

  /** Table 0, priority 0, any packet. */
  const FALLBACK_KEY := Key(0, 0, ANY)

  const TO_NORMAL := Output(Port(OFPP_NORMAL))

  const FALLBACK_ENTRY := Entry(FALLBACK_COOKIE, [TO_NORMAL], 0, 0, false)

  /** The entry a session installs for packets no other entry matches is in place. */
  predicate Safe(t: Table) {
    FALLBACK_KEY in t && t[FALLBACK_KEY] == FALLBACK_ENTRY
  }

  predicate Harmless(m: FlowMod) {
    match m
    case Add(key, entry) => key == FALLBACK_KEY ==> entry == FALLBACK_ENTRY
    case DeleteCookie(cookie) => cookie != FALLBACK_COOKIE
    case DeleteStrict(key, filter) => key == FALLBACK_KEY ==> filter.Some? && filter.value != FALLBACK_COOKIE
  }

  /** One step: from a safe table, a modification leads to a safe table exactly when it is
      harmless; an expiry always does. */
  lemma SafeStep(t: Table, c: Change)
    requires Safe(t)
    ensures Safe(Happens(t, c)) <==> (c.Applied? ==> Harmless(c.m))
  {
  }

  /** Whole runs: every state is safe exactly when every modification that arrives is
      harmless. */
  lemma {:induction false} SafeRun(t: Table, changes: seq<Change>)
    requires Safe(t)
    ensures (forall n | 0 <= n <= |changes| :: Safe(Replay(t, changes[..n]))) <==>
            (forall m | m in Arrived(changes) :: Harmless(m))
  {
    hide Safe, Harmless;
    if changes == [] {
      assert changes[..0] == changes;
    } else {
      var before, last := changes[..|changes| - 1], changes[|changes| - 1];
      SafeRun(t, before);
      forall n | 0 <= n <= |before| ensures changes[..n] == before[..n] { }
      assert changes[..|changes|] == changes && before[..|before|] == before;
      if Safe(Replay(t, before)) { SafeStep(Replay(t, before), last); }
    }
  }

  // ---------------------------------------------------------------- normal switching

  /** Nothing but output to the reserved port NORMAL. */
  predicate IsNormal(actions: seq<Action>) {
    actions == [TO_NORMAL]
  }

  /** Packets no other entry matches are switched normally, by whatever entry. */
  predicate SwitchesNormally(t: Table) {
    FALLBACK_KEY in t && IsNormal(t[FALLBACK_KEY].actions)
  }

  /** The entry that does so. */
  function Provider(t: Table): Entry
    requires SwitchesNormally(t)
  {
    t[FALLBACK_KEY]
  }

  /** The entry at the fallback's place after a change that keeps one there. */
  function Guard(e: Entry, c: Change): Entry {
    if c.Applied? && c.m.Add? && c.m.key == FALLBACK_KEY then c.m.entry else e
  }

  function GuardAfter(e: Entry, changes: seq<Change>): Entry {
    if changes == [] then e else Guard(GuardAfter(e, changes[..|changes| - 1]), changes[|changes| - 1])
  }

  predicate Lasting(e: Entry) { e.idleTimeout == 0 && e.hardTimeout == 0 }

  /** A change that leaves normal switching in place, where `e` provides it so far: what
      replaces `e` switches normally too, no deletion names its cookie, and it only expires
      if it has a timeout. */
  predicate Keeps(e: Entry, c: Change) {
    match c
    case Applied(Add(key, entry)) => key == FALLBACK_KEY ==> IsNormal(entry.actions)
    case Applied(DeleteCookie(cookie)) => cookie != e.cookie
    case Applied(DeleteStrict(key, filter)) => key == FALLBACK_KEY ==> filter.Some? && filter.value != e.cookie
    case Expired(key) => key == FALLBACK_KEY ==> Lasting(e)
  }

  lemma NormalStep(t: Table, c: Change)
    requires SwitchesNormally(t)
    ensures SwitchesNormally(Happens(t, c)) <==> Keeps(Provider(t), c)
    ensures SwitchesNormally(Happens(t, c)) ==> Provider(Happens(t, c)) == Guard(Provider(t), c)
  {
  }

  predicate KeepsAll(e: Entry, changes: seq<Change>) {
    forall i | 0 <= i < |changes| :: Keeps(GuardAfter(e, changes[..i]), changes[i])
  }

  lemma KeepsAllSnoc(e: Entry, changes: seq<Change>)
    requires changes != []
    ensures
      var before, last := changes[..|changes| - 1], changes[|changes| - 1];
      KeepsAll(e, changes) <==> KeepsAll(e, before) && Keeps(GuardAfter(e, before), last)
  {
    hide Keeps, GuardAfter;
    var before, last := changes[..|changes| - 1], changes[|changes| - 1];
    forall i | 0 <= i < |before| ensures before[..i] == changes[..i] && before[i] == changes[i] { }
    if KeepsAll(e, before) && Keeps(GuardAfter(e, before), last) {
      forall i | 0 <= i < |changes| ensures Keeps(GuardAfter(e, changes[..i]), changes[i]) {
        if i < |before| { assert Keeps(GuardAfter(e, before[..i]), before[i]); }
      }
    }
    if KeepsAll(e, changes) {
      forall i | 0 <= i < |before| ensures Keeps(GuardAfter(e, before[..i]), before[i]) {
        assert Keeps(GuardAfter(e, changes[..i]), changes[i]);
      }
      assert Keeps(GuardAfter(e, changes[..|before|]), changes[|before|]);
    }
  }

  /** Whole runs: normal switching is never interrupted exactly when every change keeps it,
      given the entry that provides it at that point. */
  lemma {:induction false} NormalRun(t: Table, changes: seq<Change>)
    requires SwitchesNormally(t)
    ensures (forall n | 0 <= n <= |changes| :: SwitchesNormally(Replay(t, changes[..n]))) <==>
            KeepsAll(Provider(t), changes)
    ensures KeepsAll(Provider(t), changes) ==>
              SwitchesNormally(Replay(t, changes)) &&
              Provider(Replay(t, changes)) == GuardAfter(Provider(t), changes)
  {
    hide SwitchesNormally, Provider, Keeps, KeepsAll;
    if changes == [] {
      assert changes[..0] == changes;
      NothingToKeep(Provider(t));
    } else {
      var before, last := changes[..|changes| - 1], changes[|changes| - 1];
      NormalRun(t, before);
      KeepsAllSnoc(Provider(t), changes);
      forall n | 0 <= n <= |before| ensures changes[..n] == before[..n] { }
      assert changes[..|changes|] == changes && before[..|before|] == before;
      if KeepsAll(Provider(t), before) { NormalStep(Replay(t, before), last); }
    }
  }

  lemma NothingToKeep(e: Entry)
    ensures KeepsAll(e, [])
  {
  }

  // ---------------------------------------------------------------- whatever expires in between

  function GuardOver(e: Entry, mods: seq<FlowMod>): Entry {
    if mods == [] then e else Guard(GuardOver(e, mods[..|mods| - 1]), Applied(mods[|mods| - 1]))
  }

  /** No modification takes normal switching away, and no entry that provides it on the way
      has a timeout. */
  predicate Unbroken(e: Entry, mods: seq<FlowMod>) {
    Lasting(GuardOver(e, mods)) &&
    (mods == [] ||
     (Unbroken(e, mods[..|mods| - 1]) && Keeps(GuardOver(e, mods[..|mods| - 1]), Applied(mods[|mods| - 1]))))
  }

  lemma {:induction false} UnbrokenPrefix(e: Entry, mods: seq<FlowMod>, n: nat)
    requires Unbroken(e, mods) && n <= |mods|
    ensures Unbroken(e, mods[..n])
    decreases |mods|
  {
    if n == |mods| {
      assert mods[..n] == mods;
    } else {
      UnbrokenPrefix(e, mods[..|mods| - 1], n);
      assert mods[..|mods| - 1][..n] == mods[..n];
    }
  }

  /** Nothing that expires can interrupt normal switching where the modifications do not. */
  lemma {:induction false} UnbrokenKeeps(e: Entry, mods: seq<FlowMod>, changes: seq<Change>)
    requires Unbroken(e, mods) && Arrived(changes) <= mods
    ensures KeepsAll(e, changes) && GuardAfter(e, changes) == GuardOver(e, Arrived(changes))
    decreases |changes|
  {
    hide KeepsAll, Guard, Lasting;
    if changes == [] {
      NothingToKeep(e);
    } else {
      var before, last := changes[..|changes| - 1], changes[|changes| - 1];
      UnbrokenKeeps(e, mods, before);
      KeepsAllSnoc(e, changes);
      UnbrokenPrefix(e, mods, |Arrived(changes)|);
      assert mods[..|Arrived(changes)|] == Arrived(changes);
      if last.Applied? {
        assert Arrived(changes)[..|Arrived(changes)| - 1] == Arrived(before);
      } else {
        assert Arrived(changes) == Arrived(before);
        GuardExpires(GuardAfter(e, before), last);
      }
    }
  }

  lemma GuardExpires(e: Entry, c: Change)
    requires c.Expired?
    ensures Guard(e, c) == e
  {
  }

  /** The history in which everything arrives and nothing expires. */
  function Undisturbed(mods: seq<FlowMod>): (r: seq<Change>)
    ensures |r| == |mods|
  {
    if mods == [] then [] else Undisturbed(mods[..|mods| - 1]) + [Applied(mods[|mods| - 1])]
  }

  lemma {:induction false} UndisturbedArrives(e: Entry, mods: seq<FlowMod>)
    ensures Arrived(Undisturbed(mods)) == mods && GuardAfter(e, Undisturbed(mods)) == GuardOver(e, mods)
  {
    hide Guard;
    if mods != [] {
      var before := mods[..|mods| - 1];
      UndisturbedArrives(e, before);
      assert Undisturbed(mods)[..|mods| - 1] == Undisturbed(before);
    }
  }

  /** Where they are broken, some history shows it. */
  lemma {:induction false} BrokenShows(e: Entry, mods: seq<FlowMod>) returns (changes: seq<Change>)
    requires !Unbroken(e, mods)
    ensures Arrived(changes) <= mods && !KeepsAll(e, changes)
  {
    hide KeepsAll, Guard, Lasting, GuardAfter, GuardOver;
    UndisturbedArrives(e, mods);
    if !Lasting(GuardOver(e, mods)) {
      changes := Undisturbed(mods) + [Expired(FALLBACK_KEY)];
      assert changes[..|mods|] == Undisturbed(mods);
      KeepsAllSnoc(e, changes);
    } else if !Unbroken(e, mods[..|mods| - 1]) {
      changes := BrokenShows(e, mods[..|mods| - 1]);
    } else {
      changes := Undisturbed(mods);
      UndisturbedArrives(e, mods[..|mods| - 1]);
      assert changes[..|mods| - 1] == Undisturbed(mods[..|mods| - 1]);
      KeepsAllSnoc(e, changes);
    }
  }
}
