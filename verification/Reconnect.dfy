/** Programming a switch: which entries are managed afterwards, and what programming the
    same switch again, on a reconnect, changes. */
module Reconnect {
  import opened Text
  import opened Ordering
  import opened OpenFlow
  import opened PortDiscovery
  import opened FlowMatch
  import opened FlowTranslate
  import opened Session
  import opened Fallback

  // ---------------------------------------------------------------- reconnecting

  predicate AddsOnly(mods: seq<FlowMod>) {
    forall m | m in mods :: m.Add?
  }

  lemma {:induction false} PairsAdd(flows: seq<PairFlow>, ports: PortMap)
    ensures AddsOnly(PairMods(flows, ports))
  {
    if flows != [] { PairsAdd(flows[..|flows| - 1], ports); }
  }

  lemma {:induction false} AdditionsAdd(asks: seq<Ask>, ports: PortMap, hasher: Hasher, first: nat)
    requires forall a | a in asks :: !a.delete
    ensures AddsOnly(AskMods(asks, ports, hasher, first))
  {
    hide MatchOf, ActionsOf;
    if asks != [] {
      assert asks[|asks| - 1] in asks;
      AdditionsAdd(asks[..|asks| - 1], ports, hasher, first);
    }
  }

  lemma StaticsAdd(statics: seq<string>, ports: PortMap, hasher: Hasher)
    ensures AddsOnly(AskMods(StaticAsks(statics), ports, hasher, 0))
  {
    hide AskMods;
    AdditionsAdd(StaticAsks(statics), ports, hasher, 0);
  }

  /** Additions write over the table, whatever was in it. */
  lemma {:induction false} AddsWrite(t: Table, mods: seq<FlowMod>)
    requires AddsOnly(mods)
    ensures ApplyAll(t, mods) == t + ApplyAll(map[], mods)
  {
    if mods != [] {
      assert mods[|mods| - 1] in mods;
      AddsWrite(t, mods[..|mods| - 1]);
    }
  }

  function Unmanaged(t: Table): Table {
    map k | k in t && t[k].cookie != MANAGED_COOKIE :: t[k]
  }

  function Managed(t: Table): Table {
    map k | k in t && t[k].cookie == MANAGED_COOKIE :: t[k]
  }

  /** What the configuration writes after the head. */
  function Written(c: Config, ports: PortMap, hasher: Hasher): Table {
    ApplyAll(map[], PairMods(c.flows, ports) + AskMods(StaticAsks(c.statics), ports, hasher, 0))
  }

  lemma InstallWrites(c: Config, ports: PortMap, hasher: Hasher, t: Table)
    ensures ApplyAll(t, InstallMods(c, ports, hasher)) ==
            Unmanaged(t)[FALLBACK_KEY := FALLBACK_ENTRY] + Written(c, ports, hasher)
  {
    hide PairMods, AskMods, AddsOnly;
    var pairs, statics := PairMods(c.flows, ports), AskMods(StaticAsks(c.statics), ports, hasher, 0);
    PairsAdd(c.flows, ports);
    StaticsAdd(c.statics, ports, hasher);
    ApplyAllConcat(t, HEAD_MODS, pairs + statics);
    HeadWrites(t);
    assert AddsOnly(pairs + statics) by { BothAddOnly(pairs, statics); }
    AddsWrite(ApplyAll(t, HEAD_MODS), pairs + statics);
  }

  lemma BothAddOnly(a: seq<FlowMod>, b: seq<FlowMod>)
    requires AddsOnly(a) && AddsOnly(b)
    ensures AddsOnly(a + b)
  {
  }

  lemma HeadWrites(t: Table)
    ensures ApplyAll(t, HEAD_MODS) == Unmanaged(t)[FALLBACK_KEY := FALLBACK_ENTRY]
  {
    var one := [FALLBACK_ADD];
    var two := one + [DeleteCookie(MANAGED_COOKIE)];
    assert HEAD_MODS == two + [FALLBACK_ADD];
    assert HEAD_MODS[..2] == two && two[..1] == one && one[..0] == [];
    var t1 := t[FALLBACK_KEY := FALLBACK_ENTRY];
    assert ApplyAll(t, one) == t1;
    assert ApplyAll(t, two) == Apply(t1, DeleteCookie(MANAGED_COOKIE));
    assert ApplyAll(t, HEAD_MODS) == Apply(t1, DeleteCookie(MANAGED_COOKIE))[FALLBACK_KEY := FALLBACK_ENTRY];
  }

  /** The same configuration programmed twice; each time every text is translated anew, in
      an order of its own. */
  predicate SecondChangesNothing(c: Config, ports: PortMap, t: Table, first: Hasher, second: Hasher) {
    var once := ApplyAll(t, InstallMods(c, ports, first));
    ApplyAll(once, InstallMods(c, ports, second)) == once
  }

  /** What one installation makes of an empty table. */
  function Outcome(c: Config, ports: PortMap, hasher: Hasher): Table {
    ApplyAll(map[], InstallMods(c, ports, hasher))
  }

  lemma OutcomeIs(c: Config, ports: PortMap, hasher: Hasher)
    ensures Outcome(c, ports, hasher) == map[FALLBACK_KEY := FALLBACK_ENTRY] + Written(c, ports, hasher)
  {
    hide InstallMods, Written, ApplyAll;
    InstallWrites(c, ports, hasher, map[]);
  }

  lemma SameOutcomeChangesNothing(c: Config, ports: PortMap, t: Table, first: Hasher, second: Hasher)
    requires Outcome(c, ports, first) == Outcome(c, ports, second)
    ensures SecondChangesNothing(c, ports, t, first, second)
  {
    hide InstallMods, Written, ApplyAll, Outcome;
    OutcomeIs(c, ports, first);
    OutcomeIs(c, ports, second);
    InstallWrites(c, ports, first, t);
    InstallWrites(c, ports, second, ApplyAll(t, InstallMods(c, ports, first)));
    WriteTwice(Unmanaged(t), Written(c, ports, first), Written(c, ports, second));
  }

  lemma WriteTwice(base: Table, w1: Table, w2: Table)
    requires map[FALLBACK_KEY := FALLBACK_ENTRY] + w1 == map[FALLBACK_KEY := FALLBACK_ENTRY] + w2
    requires forall k | k in base :: base[k].cookie != MANAGED_COOKIE
    ensures
      var once := base[FALLBACK_KEY := FALLBACK_ENTRY] + w1;
      Unmanaged(once)[FALLBACK_KEY := FALLBACK_ENTRY] + w2 == once
  {
    var head := map[FALLBACK_KEY := FALLBACK_ENTRY];
    var once := base[FALLBACK_KEY := FALLBACK_ENTRY] + w1;
    var twice := Unmanaged(once)[FALLBACK_KEY := FALLBACK_ENTRY] + w2;
    assert once == base + (head + w1);
    assert twice == Unmanaged(once) + (head + w2);
    forall k ensures k in once <==> k in twice {
      if k in head + w1 { assert k in head + w2; }
    }
    forall k | k in once ensures twice[k] == once[k] {
      if k in head + w1 { assert (head + w1)[k] == (head + w2)[k]; }
    }
  }

  lemma DifferenceShows(c: Config, ports: PortMap, first: Hasher, second: Hasher)
    requires SecondChangesNothing(c, ports, map[], first, second)
    ensures forall k | k in Outcome(c, ports, second) ::
              k in Outcome(c, ports, first) && Outcome(c, ports, first)[k] == Outcome(c, ports, second)[k]
  {
    hide InstallMods, Written, ApplyAll;
    InstallWrites(c, ports, first, map[]);
    InstallWrites(c, ports, second, map[]);
    InstallWrites(c, ports, second, ApplyAll(map[], InstallMods(c, ports, first)));
  }

  lemma NothingChangesIffSame(c: Config, ports: PortMap)
    ensures (forall t, first, second :: SecondChangesNothing(c, ports, t, first, second)) <==>
            (forall first, second :: Outcome(c, ports, first) == Outcome(c, ports, second))
  {
    hide SecondChangesNothing, Outcome;
    if forall t, first, second :: SecondChangesNothing(c, ports, t, first, second) {
      forall first, second ensures Outcome(c, ports, first) == Outcome(c, ports, second) {
        assert SecondChangesNothing(c, ports, map[], first, second);
        DifferenceShows(c, ports, first, second);
        DifferenceShows(c, ports, second, first);
      }
    }
    if forall first, second :: Outcome(c, ports, first) == Outcome(c, ports, second) {
      forall t, first, second ensures SecondChangesNothing(c, ports, t, first, second) {
        SameOutcomeChangesNothing(c, ports, t, first, second);
      }
    }
  }

  /** The configured flows as table entries, later ones over earlier ones. */
  function PairTable(flows: seq<PairFlow>, ports: PortMap): Table {
    ApplyAll(map[], PairMods(flows, ports))
  }

  /** The last configured flow with both ports discovered that has this key. */
  predicate LastFor(flows: seq<PairFlow>, ports: PortMap, i: nat, k: Key) {
    i < |flows| && Discovered(flows[i], ports) && PairKey(flows[i], ports) == k &&
    forall j | i < j < |flows| :: Discovered(flows[j], ports) ==> PairKey(flows[j], ports) != k
  }

  lemma {:induction false} PairTableIsLast(flows: seq<PairFlow>, ports: PortMap, k: Key)
    ensures k in PairTable(flows, ports) <==> exists i: nat :: LastFor(flows, ports, i, k)
    ensures forall i: nat | LastFor(flows, ports, i, k) :: PairTable(flows, ports)[k] == PairEntry(flows[i], ports)
  {
    hide PairKey, PairEntry;
    if flows != [] {
      var n := |flows| - 1;
      var before, f := flows[..n], flows[n];
      PairTableIsLast(before, ports, k);
      if Discovered(f, ports) {
        var mods := PairMods(before, ports) + [Add(PairKey(f, ports), PairEntry(f, ports))];
        assert mods[..|mods| - 1] == PairMods(before, ports);
        assert PairTable(flows, ports) == PairTable(before, ports)[PairKey(f, ports) := PairEntry(f, ports)];
      } else {
        assert PairMods(flows, ports) == PairMods(before, ports);
      }
      if Discovered(f, ports) && PairKey(f, ports) == k {
        assert LastFor(flows, ports, n, k);
      } else {
        forall i: nat ensures LastFor(flows, ports, i, k) <==> LastFor(before, ports, i, k) { }
      }
    }
  }

  // ---------------------------------------------------------------- managed flows

  function StaticTable(statics: seq<string>, ports: PortMap, hasher: Hasher): Table {
    ApplyAll(map[], AskMods(StaticAsks(statics), ports, hasher, 0))
  }

  /** A static flow that uses the managed cookie, or takes the place of a configured flow,
      is that very flow. */
  predicate StaticsKeepApart(c: Config, ports: PortMap, hasher: Hasher) {
    var pairs, statics := PairTable(c.flows, ports), StaticTable(c.statics, ports, hasher);
    forall k | k in statics && (statics[k].cookie == MANAGED_COOKIE || k in pairs) ::
      k in pairs && statics[k] == pairs[k]
  }

  lemma {:induction false} PairsAreManaged(flows: seq<PairFlow>, ports: PortMap)
    ensures forall k | k in PairTable(flows, ports) ::
              PairTable(flows, ports)[k].cookie == MANAGED_COOKIE && k != FALLBACK_KEY
  {
    forall k | k in PairTable(flows, ports)
      ensures PairTable(flows, ports)[k].cookie == MANAGED_COOKIE && k != FALLBACK_KEY
    {
      PairTableIsLast(flows, ports, k);
      var i: nat :| LastFor(flows, ports, i, k);
      assert InPortField in PairKey(flows[i], ports).fields;
    }
  }

  /** After programming, from any table, the managed entries are exactly the configured
      flows whose two ports were discovered: if and only if the static flows keep apart. */
  lemma ManagedAreTheConfigured(c: Config, ports: PortMap, hasher: Hasher, t: Table)
    ensures Managed(ApplyAll(t, InstallMods(c, ports, hasher))) == PairTable(c.flows, ports) <==>
            StaticsKeepApart(c, ports, hasher)
  {
    hide InstallMods, ApplyAll, PairMods, AskMods, PairTable, StaticTable, Written;
    InstallWrites(c, ports, hasher, t);
    WrittenParts(c, ports, hasher);
    PairsAreManaged(c.flows, ports);
    var pairs, statics := PairTable(c.flows, ports), StaticTable(c.statics, ports, hasher);
    var managed := Managed(Unmanaged(t)[FALLBACK_KEY := FALLBACK_ENTRY] + (pairs + statics));
    if managed == pairs {
      forall k | k in statics && (statics[k].cookie == MANAGED_COOKIE || k in pairs)
        ensures k in pairs && statics[k] == pairs[k]
      {
        assert k in managed <==> k in pairs;
        assert k in managed ==> managed[k] == statics[k];
      }
    }
  }

  lemma WrittenParts(c: Config, ports: PortMap, hasher: Hasher)
    ensures Written(c, ports, hasher) == PairTable(c.flows, ports) + StaticTable(c.statics, ports, hasher)
  {
    hide PairMods, AskMods, AddsOnly;
    ApplyAllConcat(map[], PairMods(c.flows, ports), AskMods(StaticAsks(c.statics), ports, hasher, 0));
    StaticsAdd(c.statics, ports, hasher);
    AddsWrite(PairTable(c.flows, ports), AskMods(StaticAsks(c.statics), ports, hasher, 0));
  }

  // ---------------------------------------------------------------- managed flows, from the texts

  /** The static flow's addition, and the key it has. */
  function StaticMod(statics: seq<string>, ports: PortMap, hasher: Hasher, i: nat): Option<FlowMod>
    requires i < |statics|
  {
    JsonMod(Ask(statics[i], false), ports, hasher, i)
  }

  predicate HasKey(statics: seq<string>, ports: PortMap, hasher: Hasher, i: nat, k: Key)
    requires i < |statics|
  {
    var m := StaticMod(statics, ports, hasher, i);
    m.Some? && m.value.Add? && m.value.key == k
  }

  /** The last static flow that translates to this key. */
  predicate LastWith(statics: seq<string>, ports: PortMap, hasher: Hasher, i: nat, k: Key) {
    i < |statics| && HasKey(statics, ports, hasher, i, k) &&
    forall j | i < j < |statics| :: !HasKey(statics, ports, hasher, j, k)
  }

  lemma StaticTableGrows(statics: seq<string>, ports: PortMap, hasher: Hasher)
    requires statics != []
    ensures
      var n := |statics| - 1;
      var before, m := StaticTable(statics[..n], ports, hasher), StaticMod(statics, ports, hasher, n);
      StaticTable(statics, ports, hasher) == if m.Some? then Apply(before, m.value) else before
  {
    hide JsonMod, Apply;
    var n := |statics| - 1;
    var asks := StaticAsks(statics);
    assert asks[..n] == StaticAsks(statics[..n]);
    var before, m := AskMods(asks[..n], ports, hasher, 0), StaticMod(statics, ports, hasher, n);
    if m.Some? {
      assert (before + [m.value])[..|before|] == before;
    } else {
      assert before + [] == before;
    }
  }

  lemma StaticIsAdd(statics: seq<string>, ports: PortMap, hasher: Hasher, i: nat)
    requires i < |statics| && StaticMod(statics, ports, hasher, i).Some?
    ensures StaticMod(statics, ports, hasher, i).value.Add?
  {
    hide MatchOf, ActionsOf;
  }

  lemma {:induction false} StaticTableIsLast(statics: seq<string>, ports: PortMap, hasher: Hasher, k: Key)
    ensures k in StaticTable(statics, ports, hasher) <==> exists i: nat :: LastWith(statics, ports, hasher, i, k)
    ensures forall i: nat | LastWith(statics, ports, hasher, i, k) ::
              StaticTable(statics, ports, hasher)[k] == StaticMod(statics, ports, hasher, i).value.entry
  {
    hide JsonMod, StaticTable;
    if statics == [] {
      NoStatics(ports, hasher);
    } else {
      var n := |statics| - 1;
      var before := statics[..n];
      StaticTableIsLast(before, ports, hasher, k);
      StaticTableGrows(statics, ports, hasher);
      if StaticMod(statics, ports, hasher, n).Some? { StaticIsAdd(statics, ports, hasher, n); }
      forall i: nat | i < n
        ensures StaticMod(statics, ports, hasher, i) == StaticMod(before, ports, hasher, i)
      {
      }
      if HasKey(statics, ports, hasher, n, k) {
        assert LastWith(statics, ports, hasher, n, k);
      } else {
        forall i: nat ensures LastWith(statics, ports, hasher, i, k) <==> LastWith(before, ports, hasher, i, k) {
          LastStays(statics, ports, hasher, i, k);
        }
      }
    }
  }

  lemma NoStatics(ports: PortMap, hasher: Hasher)
    ensures StaticTable([], ports, hasher) == map[]
  {
  }

  lemma LastStays(statics: seq<string>, ports: PortMap, hasher: Hasher, i: nat, k: Key)
    requires statics != [] && !HasKey(statics, ports, hasher, |statics| - 1, k)
    ensures LastWith(statics, ports, hasher, i, k) <==> LastWith(statics[..|statics| - 1], ports, hasher, i, k)
  {
    hide JsonMod;
    var before := statics[..|statics| - 1];
    forall j: nat | j < |before|
      ensures HasKey(statics, ports, hasher, j, k) <==> HasKey(before, ports, hasher, j, k)
    {
    }
  }

  /** On the wire the entry has the key of the configured flow: its priority, its port and
      nothing else that a packet must match. */
  predicate TakesPlace(e: JsonFlowEntry, f: PairFlow, ports: PortMap) {
    Discovered(f, ports) && e.table == 0 && e.priority == f.priority && OnlyPort(e.matchFields, ports, ports[f.inName])
  }

  /** The entry does what the configured flow does. */
  predicate SameFlow(e: JsonFlowEntry, f: PairFlow, ports: PortMap) {
    Discovered(f, ports) && e.cookie == Some(MANAGED_COOKIE) && e.idleTimeout == 0 && e.hardTimeout == 0 &&
    JustSendsTo(e.actions, ports, ports[f.outName])
  }

  predicate LastFlow(flows: seq<PairFlow>, ports: PortMap, j: nat) {
    j < |flows| && Discovered(flows[j], ports) && LastFor(flows, ports, j, PairKey(flows[j], ports))
  }

  /** An entry that uses the managed cookie, or takes a configured flow's place, is the
      flow that is last there. */
  ghost predicate KeepsApart(e: JsonFlowEntry, flows: seq<PairFlow>, ports: PortMap) {
    e.cookie == Some(MANAGED_COOKIE) || (exists j: nat :: j < |flows| && TakesPlace(e, flows[j], ports)) ==>
      exists j: nat :: LastFlow(flows, ports, j) && TakesPlace(e, flows[j], ports) && SameFlow(e, flows[j], ports)
  }

  lemma SameKeyIff(e: JsonFlowEntry, f: PairFlow, order: seq<string>, ports: PortMap)
    requires FlowToAdd(e, order, ports).Some? && IsOrder(order, e.matchFields.Keys) && Discovered(f, ports)
    ensures FlowToAdd(e, order, ports).value.key == PairKey(f, ports) <==> TakesPlace(e, f, ports)
  {
    hide MatchOf, ActionsOf, IsOrder, OnlyPort;
    SentIsPortIff(e.matchFields, order, ports, ports[f.inName]);
  }

  lemma SameEntryIff(e: JsonFlowEntry, f: PairFlow, order: seq<string>, ports: PortMap)
    requires FlowToAdd(e, order, ports).Some? && Discovered(f, ports)
    ensures FlowToAdd(e, order, ports).value.entry == PairEntry(f, ports) <==> SameFlow(e, f, ports)
    ensures FlowToAdd(e, order, ports).value.entry.cookie == MANAGED_COOKIE <==> e.cookie == Some(MANAGED_COOKIE)
  {
    hide MatchOf, ActionsOf, JustSendsTo, SentActions, MarkedProto;
    ActionsSend(e.actions, ports, MarkedProto(e.matchFields), ports[f.outName]);
  }

  /** The flow that is last at a key of the configured table. */
  lemma PairAt(flows: seq<PairFlow>, ports: PortMap, k: Key) returns (j: nat)
    requires k in PairTable(flows, ports)
    ensures LastFlow(flows, ports, j) && PairKey(flows[j], ports) == k
    ensures PairTable(flows, ports)[k] == PairEntry(flows[j], ports)
  {
    hide PairTable, PairKey, PairEntry;
    PairTableIsLast(flows, ports, k);
    j :| LastFor(flows, ports, j, k);
  }

  lemma FlowIsInTable(flows: seq<PairFlow>, ports: PortMap, j: nat)
    requires j < |flows| && Discovered(flows[j], ports)
    ensures PairKey(flows[j], ports) in PairTable(flows, ports)
    ensures LastFlow(flows, ports, j) ==>
              PairTable(flows, ports)[PairKey(flows[j], ports)] == PairEntry(flows[j], ports)
  {
    hide PairTable, PairKey, PairEntry;
    var k := PairKey(flows[j], ports);
    PairTableIsLast(flows, ports, k);
    SomeLast(flows, ports, j, k);
  }

  lemma {:induction false} SomeLast(flows: seq<PairFlow>, ports: PortMap, j: nat, k: Key)
    requires j < |flows| && Discovered(flows[j], ports) && PairKey(flows[j], ports) == k
    ensures exists i: nat :: LastFor(flows, ports, i, k)
    decreases |flows| - j
  {
    hide PairKey;
    if i :| j < i < |flows| && Discovered(flows[i], ports) && PairKey(flows[i], ports) == k {
      SomeLast(flows, ports, i, k);
    } else {
      assert LastFor(flows, ports, j, k);
    }
  }

  /** One entry of the static table: apart from the configured flows exactly when its text
      is. */
  lemma EntryApartIff(c: Config, ports: PortMap, e: JsonFlowEntry, order: seq<string>)
    requires FlowToAdd(e, order, ports).Some? && IsOrder(order, e.matchFields.Keys)
    ensures
      var m, pairs := FlowToAdd(e, order, ports).value, PairTable(c.flows, ports);
      (m.entry.cookie == MANAGED_COOKIE || m.key in pairs ==> m.key in pairs && m.entry == pairs[m.key]) <==>
      KeepsApart(e, c.flows, ports)
  {
    hide FlowToAdd, PairTable, PairKey, PairEntry, TakesPlace, SameFlow, IsOrder, LastFlow;
    var m, pairs := FlowToAdd(e, order, ports).value, PairTable(c.flows, ports);
    ManagedIff(e, order, ports);
    forall j: nat | j < |c.flows| && Discovered(c.flows[j], ports)
      ensures m.key == PairKey(c.flows[j], ports) <==> TakesPlace(e, c.flows[j], ports)
      ensures m.entry == PairEntry(c.flows[j], ports) <==> SameFlow(e, c.flows[j], ports)
      ensures PairKey(c.flows[j], ports) in pairs
      ensures LastFlow(c.flows, ports, j) ==> pairs[PairKey(c.flows[j], ports)] == PairEntry(c.flows[j], ports)
    {
      SameKeyIff(e, c.flows[j], order, ports);
      SameEntryIff(e, c.flows[j], order, ports);
      FlowIsInTable(c.flows, ports, j);
    }
    TakenIsDiscovered(e, c.flows, ports);
    if m.key in pairs {
      var j := PairAt(c.flows, ports, m.key);
      LastIsDiscovered(c.flows, ports);
      assert TakesPlace(e, c.flows[j], ports);
    }
    LastIsDiscovered(c.flows, ports);
  }

  lemma ManagedIff(e: JsonFlowEntry, order: seq<string>, ports: PortMap)
    requires FlowToAdd(e, order, ports).Some?
    ensures FlowToAdd(e, order, ports).value.Add?
    ensures FlowToAdd(e, order, ports).value.entry.cookie == MANAGED_COOKIE <==> e.cookie == Some(MANAGED_COOKIE)
  {
    hide MatchOf, ActionsOf;
  }

  lemma TakenIsDiscovered(e: JsonFlowEntry, flows: seq<PairFlow>, ports: PortMap)
    ensures forall j: nat | j < |flows| && TakesPlace(e, flows[j], ports) :: Discovered(flows[j], ports)
  {
    hide OnlyPort;
  }

  lemma LastIsDiscovered(flows: seq<PairFlow>, ports: PortMap)
    ensures forall j: nat | LastFlow(flows, ports, j) :: j < |flows| && Discovered(flows[j], ports)
  {
    hide PairKey;
  }

  /** Which static flow a text is. */
  predicate LastStatic(statics: seq<string>, ports: PortMap, hasher: Hasher, i: nat) {
    i < |statics| && StaticMod(statics, ports, hasher, i).Some? && StaticMod(statics, ports, hasher, i).value.Add? &&
    LastWith(statics, ports, hasher, i, StaticMod(statics, ports, hasher, i).value.key)
  }

  /** The managed entries are the configured flows exactly when every static flow that no
      later one overwrites keeps apart by its text: priority, port, cookie, timeouts and
      actions. */
  lemma StaticsKeepApartIff(c: Config, ports: PortMap, hasher: Hasher)
    ensures StaticsKeepApart(c, ports, hasher) <==>
            forall i: nat | LastStatic(c.statics, ports, hasher, i) ::
              KeepsApart(PARSE_ENTRY(c.statics[i]).value, c.flows, ports)
  {
    hide FlowToAdd, PairTable, StaticTable, KeepsApart, IsOrder;
    var pairs, statics := PairTable(c.flows, ports), StaticTable(c.statics, ports, hasher);
    forall i: nat | LastStatic(c.statics, ports, hasher, i)
      ensures
        var m := StaticMod(c.statics, ports, hasher, i).value;
        m.key in statics && statics[m.key] == m.entry &&
        ((m.entry.cookie == MANAGED_COOKIE || m.key in pairs ==> m.key in pairs && m.entry == pairs[m.key]) <==>
         KeepsApart(PARSE_ENTRY(c.statics[i]).value, c.flows, ports))
    {
      var m, e := StaticMod(c.statics, ports, hasher, i).value, PARSE_ENTRY(c.statics[i]).value;
      StaticTableIsLast(c.statics, ports, hasher, m.key);
      EntryApartIff(c, ports, e, hasher(i, e.matchFields.Keys));
    }
    forall k | k in statics
      ensures exists i: nat :: LastStatic(c.statics, ports, hasher, i) && LastWith(c.statics, ports, hasher, i, k)
    {
      StaticTableIsLast(c.statics, ports, hasher, k);
      var i: nat :| LastWith(c.statics, ports, hasher, i, k);
      assert LastStatic(c.statics, ports, hasher, i);
    }
    if StaticsKeepApart(c, ports, hasher) {
      forall i: nat | LastStatic(c.statics, ports, hasher, i)
        ensures KeepsApart(PARSE_ENTRY(c.statics[i]).value, c.flows, ports)
      {
        assert StaticMod(c.statics, ports, hasher, i).value.key in statics;
      }
    }
  }

  // ---------------------------------------------------------------- reconnecting, from the texts

  predicate Translated(json: string, ports: PortMap) { AskTranslates(Ask(json, false), ports) }

  /** Some order gives the text's entry this key. */
  predicate MayHave(json: string, ports: PortMap, k: Key) {
    Translated(json, ports) && k in PossibleKeys(PARSE_ENTRY(json).value, ports)
  }

  /** Every order does. */
  predicate MustHave(json: string, ports: PortMap, k: Key) {
    Translated(json, ports) && PossibleKeys(PARSE_ENTRY(json).value, ports) == {k}
  }

  /** What the text writes, whatever its key. */
  function EntryOf(json: string, ports: PortMap): Entry
    requires Translated(json, ports)
  {
    var e := PARSE_ENTRY(json).value;
    EntryFor(e, ActionsOf(e.actions, ports, MarkedProto(e.matchFields)).value)
  }

  function EntryAt(t: Table, k: Key): Option<Entry> {
    if k in t then Some(t[k]) else None
  }

  /** What is at a key when no order matters there: the last text that must have it wins. */
  function Settled(start: Table, statics: seq<string>, ports: PortMap, k: Key): Option<Entry> {
    if statics == [] then EntryAt(start, k) else
      var n := |statics| - 1;
      if MustHave(statics[n], ports, k) then Some(EntryOf(statics[n], ports))
      else Settled(start, statics[..n], ports, k)
  }

  /** Any text after it that may have the key writes the same entry. */
  predicate Undisputed(start: Table, statics: seq<string>, ports: PortMap, k: Key) {
    statics == [] ||
    var n := |statics| - 1;
    MustHave(statics[n], ports, k) ||
    (Undisputed(start, statics[..n], ports, k) &&
     (MayHave(statics[n], ports, k) ==> Settled(start, statics[..n], ports, k) == Some(EntryOf(statics[n], ports))))
  }

  lemma ModOfText(json: string, ports: PortMap, hasher: Hasher, n: nat)
    ensures
      var m := JsonMod(Ask(json, false), ports, hasher, n);
      (m.Some? <==> Translated(json, ports)) &&
      (m.Some? ==> m.value.Add? && m.value.entry == EntryOf(json, ports) && MayHave(json, ports, m.value.key))
  {
    hide Assemble, AllTranslate, ActionOf, ActionsOf, IsOrder, KeyFor, MarkedProto, PossibleKeys;
    if PARSE_ENTRY(json).Some? {
      var e := PARSE_ENTRY(json).value;
      var order := hasher(n, e.matchFields.Keys);
      TranslatesIff(e, false, order, ports);
      if Translated(json, ports) { OrderGivesKey(e, order, ports); }
    }
  }

  /** A hasher that yields this order for the text at place `n`, and else what `base` does. */
  function Choosing(base: Hasher, n: nat, keys: set<string>, order: seq<string>): Hasher
    requires IsOrder(order, keys)
  {
    (m: nat, s: set<string>) => if m == n && s == keys then order else base(m, s)
  }

  /** Any possible key of the next text can come up. */
  lemma ChooseKey(json: string, ports: PortMap, k: Key, base: Hasher, n: nat) returns (hasher: Hasher)
    requires MayHave(json, ports, k)
    ensures forall i: nat, s: set<string> | i < n :: hasher(i, s) == base(i, s)
    ensures
      var m := JsonMod(Ask(json, false), ports, hasher, n);
      m.Some? && m.value.Add? && m.value.key == k && m.value.entry == EntryOf(json, ports)
  {
    hide Assemble, AllTranslate, ActionOf, ActionsOf, IsOrder, KeyFor, MarkedProto, PossibleKeys;
    var e := PARSE_ENTRY(json).value;
    var order := KeyHasOrder(e, ports, k);
    hasher := Choosing(base, n, e.matchFields.Keys, order);
    ModOfText(json, ports, hasher, n);
  }

  lemma {:induction false} EarlierSame(statics: seq<string>, ports: PortMap, one: Hasher, two: Hasher)
    requires forall i: nat, s: set<string> | i < |statics| :: one(i, s) == two(i, s)
    ensures StaticTable(statics, ports, one) == StaticTable(statics, ports, two)
  {
    hide StaticTable, FlowToMod;
    if statics == [] {
      NoStatics(ports, one);
      NoStatics(ports, two);
    } else {
      EarlierSame(statics[..|statics| - 1], ports, one, two);
      StaticTableGrows(statics, ports, one);
      StaticTableGrows(statics, ports, two);
    }
  }

  function ValueAt(start: Table, statics: seq<string>, ports: PortMap, hasher: Hasher, k: Key): Option<Entry> {
    EntryAt(start + StaticTable(statics, ports, hasher), k)
  }

  lemma ValueGrows(start: Table, statics: seq<string>, ports: PortMap, hasher: Hasher, k: Key)
    requires statics != []
    ensures
      var n := |statics| - 1;
      var m := JsonMod(Ask(statics[n], false), ports, hasher, n);
      ValueAt(start, statics, ports, hasher, k) ==
      if m.Some? && m.value.Add? && m.value.key == k then Some(m.value.entry)
      else ValueAt(start, statics[..n], ports, hasher, k)
  {
    hide StaticTable, JsonMod, EntryOf;
    var n := |statics| - 1;
    StaticTableGrows(statics, ports, hasher);
    ModOfText(statics[n], ports, hasher, n);
  }

  lemma {:induction false} UndisputedIsSettled(
    start: Table, statics: seq<string>, ports: PortMap, hasher: Hasher, k: Key)
    requires Undisputed(start, statics, ports, k)
    ensures ValueAt(start, statics, ports, hasher, k) == Settled(start, statics, ports, k)
  {
    hide StaticTable, JsonMod, EntryOf, PossibleKeys, Translated;
    if statics == [] {
      NoStatics(ports, hasher);
    } else {
      var n := |statics| - 1;
      ValueGrows(start, statics, ports, hasher, k);
      ModOfText(statics[n], ports, hasher, n);
      if !MustHave(statics[n], ports, k) { UndisputedIsSettled(start, statics[..n], ports, hasher, k); }
    }
  }

  /** A text that need not have the key can miss it. */
  lemma ChooseOther(json: string, ports: PortMap, k: Key, base: Hasher, n: nat) returns (hasher: Hasher)
    requires !MustHave(json, ports, k)
    ensures forall i: nat, s: set<string> | i < n :: hasher(i, s) == base(i, s)
    ensures
      var m := JsonMod(Ask(json, false), ports, hasher, n);
      !(m.Some? && m.value.Add? && m.value.key == k)
  {
    hide JsonMod, EntryOf, Translatable, Typed;
    hasher := base;
    ModOfText(json, ports, base, n);
    if Translated(json, ports) {
      var keys := PossibleKeys(PARSE_ENTRY(json).value, ports);
      assert keys != {k} && keys != {};
      var k' :| k' in keys && k' != k;
      hasher := ChooseKey(json, ports, k', base, n);
    }
  }

  /** Where a key is disputed, two sessions can differ. */
  lemma {:induction false} DisputeShows(start: Table, statics: seq<string>, ports: PortMap, k: Key)
    returns (one: Hasher, two: Hasher)
    requires !Undisputed(start, statics, ports, k)
    ensures ValueAt(start, statics, ports, one, k) != ValueAt(start, statics, ports, two, k)
  {
    hide StaticTable, JsonMod, EntryOf, PossibleKeys, Translated, MustHave, ValueAt;
    var n := |statics| - 1;
    var before, json := statics[..n], statics[n];
    if !Undisputed(start, before, ports, k) {
      var a, b := DisputeShows(start, before, ports, k);
      one := ChooseOther(json, ports, k, a, n);
      two := ChooseOther(json, ports, k, b, n);
      SameBefore(start, before, ports, a, one, k);
      SameBefore(start, before, ports, b, two, k);
    } else {
      var base: Hasher := (n: nat, keys: set<string>) => Keys(keys);
      one := ChooseKey(json, ports, k, base, n);
      two := ChooseOther(json, ports, k, base, n);
      UndisputedIsSettled(start, before, ports, two, k);
    }
    ValueGrows(start, statics, ports, one, k);
    ValueGrows(start, statics, ports, two, k);
  }

  lemma SameBefore(start: Table, statics: seq<string>, ports: PortMap, one: Hasher, two: Hasher, k: Key)
    requires forall i: nat, s: set<string> | i < |statics| :: two(i, s) == one(i, s)
    ensures ValueAt(start, statics, ports, one, k) == ValueAt(start, statics, ports, two, k)
  {
    hide StaticTable;
    EarlierSame(statics, ports, one, two);
  }

  /** The fallback and the configured flows, before the static flows. */
  function Start(c: Config, ports: PortMap): Table {
    map[FALLBACK_KEY := FALLBACK_ENTRY] + PairTable(c.flows, ports)
  }

  lemma OutcomeAt(c: Config, ports: PortMap, hasher: Hasher, k: Key)
    ensures EntryAt(Outcome(c, ports, hasher), k) == ValueAt(Start(c, ports), c.statics, ports, hasher, k)
  {
    hide Outcome, Written, PairTable, StaticTable;
    OutcomeIs(c, ports, hasher);
    WrittenParts(c, ports, hasher);
  }

  lemma SameOutcomeIff(c: Config, ports: PortMap)
    ensures (forall first, second :: Outcome(c, ports, first) == Outcome(c, ports, second)) <==>
            (forall k :: Undisputed(Start(c, ports), c.statics, ports, k))
  {
    hide Outcome, ValueAt, Undisputed, Settled, Start;
    forall first, k
      ensures EntryAt(Outcome(c, ports, first), k) == ValueAt(Start(c, ports), c.statics, ports, first, k)
    {
      OutcomeAt(c, ports, first, k);
    }
    if forall k :: Undisputed(Start(c, ports), c.statics, ports, k) {
      forall first, second ensures Outcome(c, ports, first) == Outcome(c, ports, second) {
        forall k ensures EntryAt(Outcome(c, ports, first), k) == EntryAt(Outcome(c, ports, second), k) {
          UndisputedIsSettled(Start(c, ports), c.statics, ports, first, k);
          UndisputedIsSettled(Start(c, ports), c.statics, ports, second, k);
        }
        SameTables(Outcome(c, ports, first), Outcome(c, ports, second));
      }
    } else {
      var k :| !Undisputed(Start(c, ports), c.statics, ports, k);
      var one, two := DisputeShows(Start(c, ports), c.statics, ports, k);
      assert Outcome(c, ports, one) != Outcome(c, ports, two);
    }
  }

  lemma SameTables(a: Table, b: Table)
    requires forall k :: EntryAt(a, k) == EntryAt(b, k)
    ensures a == b
  {
    assert forall k :: (k in a <==> EntryAt(a, k).Some?) && (k in b <==> EntryAt(b, k).Some?);
    assert forall k | k in a :: a[k] == EntryAt(a, k).value && b[k] == EntryAt(b, k).value;
  }

  /** Programming the switch again changes nothing, from any table and in whatever orders
      the two sessions translate, if and only if no key is disputed: behind the last static
      flow that must have it, every other that may have it writes the same entry. */
  lemma ReconnectChangesNothingIff(c: Config, ports: PortMap)
    ensures (forall t, first, second :: SecondChangesNothing(c, ports, t, first, second)) <==>
            (forall k :: Undisputed(Start(c, ports), c.statics, ports, k))
  {
    hide SecondChangesNothing, Outcome, Undisputed, Start;
    NothingChangesIffSame(c, ports);
    SameOutcomeIff(c, ports);
  }

  /** A text whose key depends on the order: another type than IPv4 beside an address. */
  predicate Clashes(json: string, ports: PortMap) {
    Translated(json, ports) && TypeClash(PARSE_ENTRY(json).value.matchFields)
  }

  lemma {:induction false} NoClashIsUndisputed(start: Table, statics: seq<string>, ports: PortMap, k: Key)
    requires forall json | json in statics :: !Clashes(json, ports)
    ensures Undisputed(start, statics, ports, k)
  {
    hide Translated, EntryOf, TypeClash, KeyFor, Assemble;
    if statics != [] {
      var n := |statics| - 1;
      assert statics[n] in statics;
      NoClashIsUndisputed(start, statics[..n], ports, k);
    }
  }

  /** So it changes nothing when no static flow has such a clash. */
  lemma ReconnectChangesNothing(c: Config, ports: PortMap, t: Table, first: Hasher, second: Hasher)
    requires forall json | json in c.statics :: !Clashes(json, ports)
    ensures SecondChangesNothing(c, ports, t, first, second)
  {
    hide SecondChangesNothing, Undisputed, Clashes, Start;
    forall k ensures Undisputed(Start(c, ports), c.statics, ports, k) {
      NoClashIsUndisputed(Start(c, ports), c.statics, ports, k);
    }
    ReconnectChangesNothingIff(c, ports);
  }

  /** And where the only static flow has one, some reconnect changes the table. */
  lemma ClashSpoilsReconnect(c: Config, ports: PortMap, json: string)
    requires c.statics == [json] && Clashes(json, ports)
    ensures exists t, first, second :: !SecondChangesNothing(c, ports, t, first, second)
  {
    hide SecondChangesNothing, Start, TypeClash, Typed, PairTable;
    var e := PARSE_ENTRY(json).value;
    var k := Typed(e, IP_TYPE, ports);
    TypedHasType(e, IP_TYPE, ports);
    StartHasNoType(c, ports);
    ClashKeys(e, ports);
    assert c.statics[..0] == [];
    assert !Undisputed(Start(c, ports), c.statics, ports, k);
    ReconnectChangesNothingIff(c, ports);
  }

  lemma ClashKeys(e: JsonFlowEntry, ports: PortMap)
    requires AllTranslate(e.matchFields, ports) && TypeClash(e.matchFields)
    ensures Typed(e, IP_TYPE, ports) in PossibleKeys(e, ports) && PossibleKeys(e, ports) != {Typed(e, IP_TYPE, ports)}
  {
    hide AllTranslate, Typed, KeyFor, KeyName, ParseEthType;
    DlTypeTranslates(e.matchFields, ports);
    KeysIff(e, ports);
    var a, b :| {a, b} <= PossibleKeys(e, ports) && a != b;
    assert a in {a, b} && b in {a, b};
  }

  lemma StartHasNoType(c: Config, ports: PortMap)
    ensures forall k | k in Start(c, ports) :: EthType !in k.fields
  {
    hide PairTable;
    forall k | k in PairTable(c.flows, ports) ensures EthType !in k.fields {
      var j := PairAt(c.flows, ports, k);
      LastIsDiscovered(c.flows, ports);
    }
  }

  // ---------------------------------------------------------------- managed flows, in every order

  /** In some orders the text is the last with this key: no later one must have it. */
  predicate CanBeLast(statics: seq<string>, ports: PortMap, i: nat, k: Key) {
    i < |statics| && MayHave(statics[i], ports, k) && forall j | i < j < |statics| :: !MustHave(statics[j], ports, k)
  }

  lemma LastCanBeLast(statics: seq<string>, ports: PortMap, hasher: Hasher, i: nat, k: Key)
    requires LastWith(statics, ports, hasher, i, k)
    ensures CanBeLast(statics, ports, i, k)
  {
    hide JsonMod, EntryOf, PossibleKeys, Translated;
    ModOfText(statics[i], ports, hasher, i);
    forall j | i < j < |statics| ensures !MustHave(statics[j], ports, k) {
      ModOfText(statics[j], ports, hasher, j);
      assert !HasKey(statics, ports, hasher, j, k);
    }
  }

  lemma {:induction false} ChooseLast(statics: seq<string>, ports: PortMap, i: nat, k: Key) returns (hasher: Hasher)
    requires CanBeLast(statics, ports, i, k)
    ensures LastWith(statics, ports, hasher, i, k)
    decreases |statics|
  {
    hide JsonMod, EntryOf, PossibleKeys, Translated, MustHave, MayHave;
    var n := |statics| - 1;
    if i == n {
      var base: Hasher := (n: nat, keys: set<string>) => Keys(keys);
      hasher := ChooseKey(statics[n], ports, k, base, n);
    } else {
      var before := ChooseLast(statics[..n], ports, i, k);
      hasher := ChooseOther(statics[n], ports, k, before, n);
      forall j: nat | j < n
        ensures HasKey(statics, ports, hasher, j, k) <==> HasKey(statics[..n], ports, before, j, k)
      {
        SameMod(statics[j], ports, hasher, before, j);
      }
    }
  }

  lemma LastIsStatic(statics: seq<string>, ports: PortMap, hasher: Hasher, i: nat, k: Key)
    requires LastWith(statics, ports, hasher, i, k)
    ensures LastStatic(statics, ports, hasher, i)
  {
    hide JsonMod;
  }

  lemma SameMod(json: string, ports: PortMap, one: Hasher, two: Hasher, n: nat)
    requires forall s: set<string> :: one(n, s) == two(n, s)
    ensures JsonMod(Ask(json, false), ports, one, n) == JsonMod(Ask(json, false), ports, two, n)
  {
    hide FlowToMod;
  }

  ghost predicate AllApart(c: Config, ports: PortMap, hasher: Hasher) {
    forall i: nat | LastStatic(c.statics, ports, hasher, i) ::
      KeepsApart(PARSE_ENTRY(c.statics[i]).value, c.flows, ports)
  }

  lemma ApartInEveryOrder(c: Config, ports: PortMap)
    ensures
      (forall hasher :: AllApart(c, ports, hasher)) <==>
      (forall i: nat, k | CanBeLast(c.statics, ports, i, k) ::
         KeepsApart(PARSE_ENTRY(c.statics[i]).value, c.flows, ports))
  {
    hide KeepsApart, FlowToMod, Translatable, PossibleKeys, LastWith;
    forall hasher: Hasher, i: nat | LastStatic(c.statics, ports, hasher, i)
      ensures exists k :: CanBeLast(c.statics, ports, i, k)
    {
      LastCanBeLast(c.statics, ports, hasher, i, StaticMod(c.statics, ports, hasher, i).value.key);
    }
    if forall hasher :: AllApart(c, ports, hasher) {
      forall i: nat, k | CanBeLast(c.statics, ports, i, k)
        ensures KeepsApart(PARSE_ENTRY(c.statics[i]).value, c.flows, ports)
      {
        var hasher := ChooseLast(c.statics, ports, i, k);
        LastIsStatic(c.statics, ports, hasher, i, k);
        assert AllApart(c, ports, hasher);
      }
    }
  }

  predicate ManagedAsConfigured(c: Config, ports: PortMap, hasher: Hasher, t: Table) {
    Managed(ApplyAll(t, InstallMods(c, ports, hasher))) == PairTable(c.flows, ports)
  }

  /** From any table and in whatever orders the static flows are translated, the managed
      entries are exactly the configured flows whose two ports were discovered: if and only
      if every static flow that can be the last with its key keeps apart, by its priority,
      port, cookie, timeouts and actions. */
  lemma ManagedInEveryOrderIff(c: Config, ports: PortMap)
    ensures
      (forall hasher, t :: ManagedAsConfigured(c, ports, hasher, t)) <==>
      (forall i: nat, k | CanBeLast(c.statics, ports, i, k) ::
         KeepsApart(PARSE_ENTRY(c.statics[i]).value, c.flows, ports))
  {
    hide ManagedAsConfigured, KeepsApart, CanBeLast, AllApart;
    ApartInEveryOrder(c, ports);
    forall hasher: Hasher, t ensures ManagedAsConfigured(c, ports, hasher, t) <==> AllApart(c, ports, hasher) {
      ManagedIsApart(c, ports, hasher, t);
    }
    if forall hasher, t :: ManagedAsConfigured(c, ports, hasher, t) {
      forall hasher ensures AllApart(c, ports, hasher) { assert ManagedAsConfigured(c, ports, hasher, map[]); }
    }
  }

  lemma ManagedIsApart(c: Config, ports: PortMap, hasher: Hasher, t: Table)
    ensures ManagedAsConfigured(c, ports, hasher, t) <==> AllApart(c, ports, hasher)
  {
    hide StaticsKeepApart, KeepsApart, FlowToMod, LastWith;
    ManagedAreTheConfigured(c, ports, hasher, t);
    StaticsKeepApartIff(c, ports, hasher);
  }

  /** TCP flags are not on the wire: a static flow with the port and priority of a
      configured flow, and TCP flags beside, always takes its place. */
  lemma TcpFlagsTakeManagedPlace(
    f: PairFlow, port: string, flags: string, json: string, ports: PortMap, hasher: Hasher, t: Table)
    requires Discovered(f, ports) && ResolvePort(port, ports) == Some(ports[f.inName]) && ParseTcpFlags(flags).Some?
    requires PARSE_ENTRY(json) == Some(JsonFlowEntry(
      0, f.priority, map[KeyName(KInPort) := port, KeyName(KTcpFlags) := flags], [], None, 0, 0))
    ensures !ManagedAsConfigured(Config([f], [json]), ports, hasher, t)
  {
    hide ManagedAsConfigured, JsonMod, KeyName, ResolvePort, ParseTcpFlags, EntryOf, PossibleKeys, SameFlow;
    var e := PARSE_ENTRY(json).value;
    FlagsBesidePort(f, port, flags, ports);
    ModOfText(json, ports, hasher, 0);
    var k := StaticMod([json], ports, hasher, 0).value.key;
    assert HasKey([json], ports, hasher, 0, k) && LastWith([json], ports, hasher, 0, k);
    assert LastStatic([json], ports, hasher, 0);
    ManagedIsApart(Config([f], [json]), ports, hasher, t);
  }

  lemma FlagsBesidePort(f: PairFlow, port: string, flags: string, ports: PortMap)
    requires Discovered(f, ports) && ResolvePort(port, ports) == Some(ports[f.inName]) && ParseTcpFlags(flags).Some?
    ensures
      var e := JsonFlowEntry(0, f.priority, map[KeyName(KInPort) := port, KeyName(KTcpFlags) := flags], [], None, 0, 0);
      Translatable(e, false, ports) && TakesPlace(e, f, ports) && !KeepsApart(e, [f], ports)
  {
    hide KeyName, ResolvePort, ParseTcpFlags, MarkedProto;
    KeyOfName(KInPort);
    KeyOfName(KTcpFlags);
    var e := JsonFlowEntry(0, f.priority, map[KeyName(KInPort) := port, KeyName(KTcpFlags) := flags], [], None, 0, 0);
    assert TakesPlace(e, [f][0], ports);
  }
}
