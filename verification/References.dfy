/** The recursion of `descriptor.rs` and `adapter.rs` over a schema and its definitions: who
    calls whom with which node, and when that ends. Both follow `$ref`, so it ends only if
    the references that are followed do not lead back. */
module References {
  import opened Text
  import opened Graphs
  import opened JsonSchema

  /** The recursive functions: `resolve`; `field_type` with `field_schema`, and the loop of
      `plugin_schema_from_json` above them; `proto_type_of`, the loop body of
      `build_message`, that loop, and `message_from_json_schema` above them. */
  datatype Role = Resolves | ReadsType | ReadsRoot | FindsType | AddsProperty | BuildsMessage | BuildsRoot

  datatype Call = Call(role: Role, node: Json)

  predicate IsReference(node: Json, defs: Object) {
    RefKey(node).Some? && RefKey(node).value in defs
  }

  function Target(node: Json, defs: Object): Json
    requires IsReference(node, defs)
  {
    defs[RefKey(node).value]
  }

  ghost function Properties(node: Json): set<Json> {
    match GetObject(node, Name(KProperties)) case Some(props) => props.Values case None => {}
  }

  ghost function Items(node: Json): set<Json> {
    match Get(node, Name(KItems)) case Some(items) => {items} case None => {}
  }

  ghost function PlainParts(node: Json): set<Json> {
    if GetArray(node, Name(KEnum)).Some? then {}
    else if TypeOf(node) == Some(Name(KArray)) then Items(node)
    else if TypeOf(node) == Some(Name(KObject)) then Properties(node)
    else {}
  }

  /** The subterms `field_type` goes into. */
  ghost function TypeParts(node: Json): set<Json> {
    if Alternatives(node).Some? && NonNull(Alternatives(node).value) != [] then
      set a | a in NonNull(Alternatives(node).value)
    else PlainParts(node)
  }

  /** The single branch `Option<T>` collapses to. */
  function OnlyBranch(node: Json): (r: Option<Json>)
    requires Alternatives(node).Some?
    ensures r.Some? ==> r.value in Alternatives(node).value
  {
    var branches := NonNull(Alternatives(node).value);
    if |branches| == 1 then Some(branches[0]) else None
  }

  predicate HasMessage(node: Json) {
    TypeOf(node) == Some(Name(KObject)) && Get(node, Name(KProperties)).Some?
  }

  ghost function Calls(role: Role, nodes: set<Json>): set<Call> {
    set a | a in nodes :: Call(role, a)
  }

  /** The calls made for a node that is no reference. */
  ghost function Inner(c: Call): set<Call> {
    match c.role
    case Resolves => {}
    case ReadsType => Calls(ReadsType, TypeParts(c.node))
    case ReadsRoot => Calls(ReadsType, Properties(c.node))
    case FindsType =>
      if Alternatives(c.node).Some? then
        match OnlyBranch(c.node) case Some(branch) => {Call(FindsType, branch)} case None => {}
      else if HasMessage(c.node) then {Call(BuildsMessage, c.node)} else {}
    case AddsProperty =>
      if TypeOf(c.node) != Some(Name(KArray)) then {Call(FindsType, c.node)}
      else if Items(c.node) == {} then {Call(FindsType, EMPTY)}
      else Calls(FindsType, Items(c.node))
    case BuildsMessage => Calls(AddsProperty, Properties(c.node))
    case BuildsRoot => {Call(BuildsMessage, c.node)}
  }

  /** The calls one call makes: all but `build_message` resolve their node first. */
  ghost function Next(c: Call, defs: Object): set<Call> {
    if c.role != BuildsMessage && IsReference(c.node, defs) then {Call(c.role, Target(c.node, defs))} else Inner(c)
  }

  // ---------------------------------------------------------------- when it ends

  /** No chain of calls from `c` is longer than `n`. */
  ghost predicate Within(c: Call, n: nat, defs: Object)
    decreases n
  {
    n > 0 && forall d | d in Next(c, defs) :: Within(d, n - 1, defs)
  }

  ghost predicate Ends(c: Call, defs: Object) {
    exists n: nat :: Within(c, n, defs)
  }

  lemma {:induction false} WithinMore(c: Call, k: nat, n: nat, defs: Object)
    requires k <= n && Within(c, k, defs)
    ensures Within(c, n, defs)
    decreases n
  {
    hide Next;
    forall d | d in Next(c, defs) ensures Within(d, n - 1, defs) { WithinMore(d, k - 1, n - 1, defs); }
  }

  ghost function Least(c: Call, n: nat, defs: Object): (m: nat)
    requires Within(c, n, defs)
    ensures Within(c, m, defs) && forall k: nat | k < m :: !Within(c, k, defs)
    decreases n
  {
    if Within(c, n - 1, defs) then Least(c, n - 1, defs) else
      assert forall k: nat | k < n :: !Within(c, k, defs) by {
        forall k: nat | k < n ensures !Within(c, k, defs) { if Within(c, k, defs) { WithinMore(c, k, n - 1, defs); } }
      }
      n
  }

  /** The length of the longest chain of calls. */
  ghost function Depth(c: Call, defs: Object): (n: nat)
    requires Ends(c, defs)
    ensures Within(c, n, defs) && forall k: nat | k < n :: !Within(c, k, defs)
  {
    var n: nat :| Within(c, n, defs);
    Least(c, n, defs)
  }

  lemma NextEnds(c: Call, d: Call, defs: Object)
    requires Ends(c, defs) && d in Next(c, defs)
    ensures Ends(d, defs) && Depth(d, defs) < Depth(c, defs)
  {
    hide Next, Depth;
    assert Within(d, Depth(c, defs) - 1, defs);
  }

  /** A bound for all of a finite set of calls. */
  lemma {:induction false} CommonBound(calls: set<Call>, defs: Object) returns (n: nat)
    requires forall d | d in calls :: Ends(d, defs)
    ensures forall d | d in calls :: Within(d, n, defs)
  {
    hide Within;
    if calls == {} {
      n := 0;
    } else {
      var c :| c in calls;
      var rest := CommonBound(calls - {c}, defs);
      var k: nat :| Within(c, k, defs);
      n := if rest > k then rest else k;
      forall d | d in calls ensures Within(d, n, defs) {
        if d == c { WithinMore(d, k, n, defs); } else { WithinMore(d, rest, n, defs); }
      }
    }
  }

  lemma EndsIfNextEnd(c: Call, defs: Object)
    requires forall d | d in Next(c, defs) :: Ends(d, defs)
    ensures Ends(c, defs)
  {
    hide Next;
    var n := CommonBound(Next(c, defs), defs);
    assert Within(c, n + 1, defs);
  }

  // ---------------------------------------------------------------- following references

  /** Follow `$ref` into the definitions until a node is no reference. A reference whose
      last segment names no definition stays as it is. */
  function Resolve(node: Json, defs: Object): (r: Json)
    requires Ends(Call(Resolves, node), defs)
    ensures !IsReference(r, defs)
    ensures !IsReference(node, defs) ==> r == node
    decreases Depth(Call(Resolves, node), defs)
  {
    if IsReference(node, defs) then
      NextEnds(Call(Resolves, node), Call(Resolves, Target(node, defs)), defs);
      Resolve(Target(node, defs), defs)
    else node
  }

  lemma ResolvedResolves(node: Json, defs: Object)
    requires !IsReference(node, defs)
    ensures Ends(Call(Resolves, node), defs)
  {
    assert Within(Call(Resolves, node), 1, defs);
  }

  lemma ResolveIsIdempotent(node: Json, defs: Object)
    requires Ends(Call(Resolves, node), defs)
    ensures Ends(Call(Resolves, Resolve(node, defs)), defs)
    ensures Resolve(Resolve(node, defs), defs) == Resolve(node, defs)
  {
    hide Ends, Depth;
    ResolvedResolves(Resolve(node, defs), defs);
  }

  /** Every walk that resolves its node can: following the references is a part of it. */
  lemma {:induction false} CallResolves(c: Call, defs: Object)
    requires Ends(c, defs) && c.role != BuildsMessage
    ensures Ends(Call(Resolves, c.node), defs)
    decreases Depth(c, defs)
  {
    hide Depth, Ends, Inner;
    var r := Call(Resolves, c.node);
    if IsReference(c.node, defs) {
      var d := Call(c.role, Target(c.node, defs));
      NextEnds(c, d, defs);
      CallResolves(d, defs);
      assert Next(r, defs) == {Call(Resolves, d.node)};
      EndsIfNextEnd(r, defs);
    } else {
      ResolvedResolves(c.node, defs);
    }
  }

  lemma {:induction false} ResolvedCall(c: Call, defs: Object)
    requires Ends(c, defs) && c.role != BuildsMessage && Ends(Call(Resolves, c.node), defs)
    ensures
      var r := Call(c.role, Resolve(c.node, defs));
      Ends(r, defs) && Depth(r, defs) <= Depth(c, defs) && Next(r, defs) == Inner(r)
    decreases Depth(c, defs)
  {
    hide Depth, Ends, Inner;
    if IsReference(c.node, defs) {
      var d := Call(c.role, Target(c.node, defs));
      NextEnds(c, d, defs);
      NextEnds(Call(Resolves, c.node), Call(Resolves, d.node), defs);
      ResolvedCall(d, defs);
    }
  }

  /** What is called for the resolved node ends, and sooner. */
  lemma InnerEnds(c: Call, d: Call, defs: Object)
    requires Ends(c, defs) && c.role != BuildsMessage && Ends(Call(Resolves, c.node), defs)
    requires d in Inner(Call(c.role, Resolve(c.node, defs)))
    ensures Ends(d, defs) && Depth(d, defs) < Depth(c, defs)
  {
    hide Depth, Ends, Inner, Next, Resolve;
    ResolvedCall(c, defs);
    NextEnds(Call(c.role, Resolve(c.node, defs)), d, defs);
  }

  // ---------------------------------------------------------------- when it does not end

  /** Calls each made by the one before. */
  ghost predicate Trail(w: seq<Call>, defs: Object) {
    w != [] && forall i | 0 <= i < |w| - 1 :: w[i + 1] in Next(w[i], defs)
  }

  ghost predicate Returns(w: seq<Call>) {
    exists i, j :: 0 <= i < j < |w| && w[i] == w[j]
  }

  lemma TrailSegment(w: seq<Call>, i: nat, j: nat, defs: Object)
    requires Trail(w, defs) && i < j <= |w|
    ensures Trail(w[i..j], defs)
  {
    hide Next;
    var v := w[i..j];
    forall k | 0 <= k < |v| - 1 ensures v[k + 1] in Next(v[k], defs) {
      assert w[i + k + 1] in Next(w[i + k], defs);
    }
  }

  lemma {:induction false} TrailFalls(w: seq<Call>, defs: Object)
    requires Trail(w, defs) && Ends(w[0], defs)
    ensures Ends(w[|w| - 1], defs) && (|w| > 1 ==> Depth(w[|w| - 1], defs) < Depth(w[0], defs))
  {
    hide Next, Ends, Depth;
    if |w| > 1 {
      NextEnds(w[0], w[1], defs);
      TrailSegment(w, 1, |w|, defs);
      TrailFalls(w[1..], defs);
    }
  }

  lemma EndingDoesNotReturn(w: seq<Call>, defs: Object)
    requires Trail(w, defs) && Ends(w[0], defs)
    ensures !Returns(w)
  {
    hide Next, Ends, Depth;
    forall i, j | 0 <= i < j < |w| ensures w[i] != w[j] {
      TrailSegment(w, 0, i + 1, defs);
      TrailSegment(w, i, j + 1, defs);
      TrailFalls(w[0..i + 1], defs);
      TrailFalls(w[i..j + 1], defs);
    }
  }

  /** What does not end goes on for any number of calls. */
  lemma {:induction false} LongTrail(c: Call, n: nat, defs: Object) returns (w: seq<Call>)
    requires !Ends(c, defs)
    ensures Trail(w, defs) && w[0] == c && |w| == n + 1
    decreases n
  {
    hide Next, Ends;
    if n == 0 {
      w := [c];
    } else {
      if forall d | d in Next(c, defs) :: Ends(d, defs) { EndsIfNextEnd(c, defs); }
      var d :| d in Next(c, defs) && !Ends(d, defs);
      var rest := LongTrail(d, n - 1, defs);
      w := [c] + rest;
      forall i | 0 <= i < |w| - 1 ensures w[i + 1] in Next(w[i], defs) {
        if i > 0 { assert rest[i] in Next(rest[i - 1], defs); }
      }
    }
  }

  ghost function Subterms(j: Json): set<Json> {
    {j} +
    match j
    case Obj(m) => set k, x | k in m && x in Subterms(m[k]) :: x
    case Arr(a) => set i, x | 0 <= i < |a| && x in Subterms(a[i]) :: x
    case _ => {}
  }

  /** Everything a walk from `node` can come to. */
  ghost function Reachable(node: Json, defs: Object): set<Json> {
    Subterms(node) + (set k, x | k in defs && x in Subterms(defs[k]) :: x) + {EMPTY}
  }

  lemma {:induction false} SubtermsNest(a: Json, b: Json)
    requires a in Subterms(b)
    ensures Subterms(a) <= Subterms(b)
  {
    if a != b {
      match b
      case Obj(m) =>
        var k :| k in m && a in Subterms(m[k]);
        SubtermsNest(a, m[k]);
      case Arr(s) =>
        var i :| 0 <= i < |s| && a in Subterms(s[i]);
        SubtermsNest(a, s[i]);
    }
  }

  ghost predicate IsChild(a: Json, b: Json) {
    match b
    case Obj(m) => exists k :: k in m && m[k] == a
    case Arr(s) => exists i :: 0 <= i < |s| && s[i] == a
    case _ => false
  }

  ghost predicate IsPart(a: Json, b: Json) {
    IsChild(a, b) || exists m :: IsChild(a, m) && IsChild(m, b)
  }

  lemma MemberIsChild(node: Json, key: string)
    requires Get(node, key).Some?
    ensures IsChild(Get(node, key).value, node)
  {
  }

  lemma PropertyIsPart(a: Json, node: Json)
    requires a in Properties(node)
    ensures IsPart(a, node)
  {
    hide Name;
    var props := Get(node, Name(KProperties)).value;
    MemberIsChild(node, Name(KProperties));
    assert IsChild(a, props);
  }

  lemma AlternativeIsPart(a: Json, node: Json)
    requires Alternatives(node).Some? && a in Alternatives(node).value
    ensures IsPart(a, node)
  {
    hide Name;
    var key := if Get(node, Name(KAnyOf)).Some? then Name(KAnyOf) else Name(KOneOf);
    MemberIsChild(node, key);
    assert IsChild(a, Get(node, key).value);
  }

  function RoleRank(role: Role): nat {
    match role case BuildsMessage => 0 case AddsProperty => 2 case _ => 1
  }

  /** A call stays with its node, goes into it, or takes an array without items to hold
      anything. */
  lemma InnerIsInside(c: Call, d: Call)
    requires d in Inner(c)
    ensures (d.node == c.node && RoleRank(d.role) < RoleRank(c.role)) || d == Call(FindsType, EMPTY) ||
            IsPart(d.node, c.node)
  {
    hide Name, TypeOf, NonNull, IsPart, Properties, Alternatives;
    if d.node in Properties(c.node) {
      PropertyIsPart(d.node, c.node);
    } else if Alternatives(c.node).Some? && d.node in Alternatives(c.node).value {
      AlternativeIsPart(d.node, c.node);
    } else if d.node in Items(c.node) {
      MemberIsChild(c.node, Name(KItems));
      ChildIsPart(d.node, c.node);
    }
  }

  lemma ChildIsPart(a: Json, b: Json)
    requires IsChild(a, b)
    ensures IsPart(a, b)
  {
  }

  lemma ChildIsSubterm(a: Json, b: Json)
    requires IsChild(a, b)
    ensures a in Subterms(b)
  {
    assert a in Subterms(a);
  }

  lemma PartIsSubterm(a: Json, b: Json)
    requires IsPart(a, b)
    ensures a in Subterms(b)
  {
    hide Subterms, IsChild;
    if IsChild(a, b) {
      ChildIsSubterm(a, b);
    } else {
      var m :| IsChild(a, m) && IsChild(m, b);
      ChildIsSubterm(a, m);
      ChildIsSubterm(m, b);
      SubtermsNest(m, b);
    }
  }

  lemma SelfIsSubterm(j: Json)
    ensures j in Subterms(j)
  {
  }

  lemma NextIsReachable(c: Call, d: Call, node: Json, defs: Object)
    requires d in Next(c, defs) && c.node in Reachable(node, defs)
    ensures d.node in Reachable(node, defs)
  {
    hide Subterms, Inner, IsPart;
    if c.role != BuildsMessage && IsReference(c.node, defs) {
      SelfIsSubterm(d.node);
    } else {
      InnerIsInside(c, d);
      if IsPart(d.node, c.node) {
        PartIsSubterm(d.node, c.node);
        ReachableIsClosed(d.node, c.node, node, defs);
      }
    }
  }

  lemma ReachableIsClosed(a: Json, b: Json, node: Json, defs: Object)
    requires b in Reachable(node, defs) && a in Subterms(b)
    ensures a in Reachable(node, defs)
  {
    if b in Subterms(node) {
      SubtermsNest(b, node);
    } else if b != EMPTY {
      var k :| k in defs && b in Subterms(defs[k]);
      SubtermsNest(b, defs[k]);
    }
  }

  lemma {:induction false} TrailIsReachable(w: seq<Call>, node: Json, defs: Object, i: nat)
    requires Trail(w, defs) && w[0].node in Reachable(node, defs) && i < |w|
    ensures w[i].node in Reachable(node, defs)
  {
    hide Next, Reachable;
    if i > 0 {
      TrailIsReachable(w, node, defs, i - 1);
      assert w[i - 1 + 1] in Next(w[i - 1], defs);
      NextIsReachable(w[i - 1], w[i], node, defs);
    }
  }

  ghost function ReachableCalls(node: Json, defs: Object): set<Call> {
    set r: Role, a | a in Reachable(node, defs) :: Call(r, a)
  }

  lemma FirstIsReachable(node: Json, defs: Object)
    ensures node in Reachable(node, defs)
  {
    SelfIsSubterm(node);
  }

  lemma TrailStays(w: seq<Call>, defs: Object)
    requires Trail(w, defs)
    ensures forall d | d in w :: d in ReachableCalls(w[0].node, defs)
  {
    hide Next, Reachable;
    FirstIsReachable(w[0].node, defs);
    forall d | d in w ensures d in ReachableCalls(w[0].node, defs) {
      var i :| 0 <= i < |w| && w[i] == d;
      TrailIsReachable(w, w[0].node, defs, i);
    }
  }

  lemma LongTrailReturns(w: seq<Call>, defs: Object)
    requires Trail(w, defs) && |w| > |ReachableCalls(w[0].node, defs)|
    ensures Returns(w)
  {
    hide Trail, Reachable;
    if !Returns(w) {
      TrailStays(w, defs);
      DistinctFits(w, ReachableCalls(w[0].node, defs));
    }
  }

  /** A call ends exactly when no chain of calls from it comes back to a call it made: a
      condition on finitely many calls, since every node is the argument, a subterm of it or
      of a definition, or the empty schema. */
  lemma EndsIffNoReturn(c: Call, defs: Object)
    ensures Ends(c, defs) <==> forall w | Trail(w, defs) && w[0] == c :: !Returns(w)
    ensures forall w | Trail(w, defs) && w[0] == c :: forall d | d in w :: d in ReachableCalls(c.node, defs)
  {
    hide Ends, Next, Returns, Reachable;
    forall w | Trail(w, defs) && w[0] == c ensures forall d | d in w :: d in ReachableCalls(c.node, defs) {
      TrailStays(w, defs);
    }
    if Ends(c, defs) {
      forall w | Trail(w, defs) && w[0] == c ensures !Returns(w) { EndingDoesNotReturn(w, defs); }
    } else {
      var w := LongTrail(c, |ReachableCalls(c.node, defs)|, defs);
      LongTrailReturns(w, defs);
    }
  }

  // ---------------------------------------------------------------- acyclic definitions

  /** Every definition name referred to anywhere inside `j`. */
  ghost function Refs(j: Json): set<string> {
    (match RefKey(j) case Some(k) => {k} case None => {}) +
    match j
    case Obj(m) => set k, x | k in m && x in Refs(m[k]) :: x
    case Arr(a) => set i, x | 0 <= i < |a| && x in Refs(a[i]) :: x
    case _ => {}
  }

  ghost function RefGraph(defs: Object): Graph {
    map k | k in defs :: Refs(defs[k])
  }

  /** The `$ref` graph of the definitions has no closed walk, followed or not. */
  ghost predicate AcyclicRefs(defs: Object) {
    Acyclic(RefGraph(defs))
  }

  lemma ChildRefs(a: Json, b: Json)
    requires IsChild(a, b)
    ensures Refs(a) <= Refs(b)
  {
  }

  ghost predicate RefsBelow(j: Json, defs: Object, rank: map<string, nat>, bound: nat) {
    forall k | k in Refs(j) && k in defs && k in rank :: rank[k] < bound
  }

  lemma EmptyEnds(defs: Object)
    ensures Ends(Call(FindsType, EMPTY), defs)
  {
    assert Within(Call(FindsType, EMPTY), 1, defs);
  }

  lemma {:induction false} EndsByRank(c: Call, defs: Object, rank: map<string, nat>, bound: nat)
    requires Ranks(RefGraph(defs), rank) && RefsBelow(c.node, defs, rank, bound)
    ensures Ends(c, defs)
    decreases bound, c.node, RoleRank(c.role)
  {
    hide Ends, Inner, Refs;
    forall d | d in Next(c, defs) ensures Ends(d, defs) {
      if c.role != BuildsMessage && IsReference(c.node, defs) {
        var k := RefKey(c.node).value;
        TargetIsBelow(c.node, k, defs, rank, bound);
        EndsByRank(d, defs, rank, rank[k]);
      } else {
        InnerIsInside(c, d);
        if d == Call(FindsType, EMPTY) {
          EmptyEnds(defs);
        } else {
          if d.node != c.node { PartRefs(d.node, c.node); }
          EndsByRank(d, defs, rank, bound);
        }
      }
    }
    EndsIfNextEnd(c, defs);
  }

  lemma TargetIsBelow(node: Json, k: string, defs: Object, rank: map<string, nat>, bound: nat)
    requires Ranks(RefGraph(defs), rank) && RefsBelow(node, defs, rank, bound)
    requires RefKey(node) == Some(k) && k in defs
    ensures k in rank && rank[k] < bound && RefsBelow(defs[k], defs, rank, rank[k])
  {
    hide RefKey;
    assert k in Refs(node);
    forall x | x in Refs(defs[k]) && x in defs ensures rank[x] < rank[k] { assert Edge(RefGraph(defs), k, x); }
  }

  lemma PartRefs(a: Json, b: Json)
    requires IsPart(a, b)
    ensures Refs(a) <= Refs(b)
  {
    hide Refs, IsChild;
    if IsChild(a, b) {
      ChildRefs(a, b);
    } else {
      var m :| IsChild(a, m) && IsChild(m, b);
      ChildRefs(a, m);
      ChildRefs(m, b);
    }
  }

  ghost function Top(rank: map<string, nat>): (n: nat)
    ensures forall k | k in rank :: rank[k] < n
  {
    if |rank| == 0 then 0 else
      var k :| k in rank;
      var rest := Top(rank - {k});
      assert forall x | x in rank && x != k :: x in rank - {k};
      if rest > rank[k] then rest else rank[k] + 1
  }

  /** With acyclic references everything ends. */
  lemma AcyclicEnds(c: Call, defs: Object)
    requires AcyclicRefs(defs)
    ensures Ends(c, defs)
  {
    hide Ends;
    AcyclicIsRanked(RefGraph(defs));
    var rank :| Ranks(RefGraph(defs), rank);
    EndsByRank(c, defs, rank, Top(rank));
  }

  /** A document without definitions has no reference to follow. */
  lemma NoDefsEnd()
    ensures forall c :: Ends(c, map[])
  {
    hide Ends;
    forall c ensures Ends(c, map[]) { EndsByRank(c, map[], map[], 0); }
  }

  const TO_LIST := Obj(map[Name(KRef) := Str("List")])
  const TEXT := Obj(map[Name(KType) := Str(Name(KString))])
  const LIST := Obj(map[Name(KAnyOf) := Arr([TO_LIST, TEXT])])

  lemma LastOfList()
    ensures LastSegment("List") == "List"
  {
    assert "List"[..3] == "Lis" && "Lis"[..2] == "Li" && "Li"[..1] == "L" && "L"[..0] == "";
  }

  lemma ListMembers()
    ensures RefKey(TO_LIST) == Some("List") && RefKey(LIST) == None && Alternatives(LIST) == Some([TO_LIST, TEXT])
    ensures TypeOf(TO_LIST) == None && TypeOf(TEXT) == Some(Name(KString))
  {
    LastOfList();
    NamesDiffer();
    hide Name, LastSegment;
  }

  lemma BothBranches()
    ensures NonNull([TO_LIST, TEXT]) == [TO_LIST, TEXT]
  {
    hide Name, TypeOf, NonNull, TO_LIST, TEXT;
    ListMembers();
    NamesDiffer();
    AllNonNull([TO_LIST, TEXT]);
  }

  /** Acyclic references are not necessary, and what ends for one walk need not for another:
      a union that refers to itself has a protobuf type, since a union of two branches
      travels as text, but no field type. */
  lemma RecursiveUnion()
    ensures
      var defs := map["List" := LIST];
      !AcyclicRefs(defs) && Ends(Call(FindsType, TO_LIST), defs) && !Ends(Call(ReadsType, TO_LIST), defs)
  {
    ListMembers();
    BothBranches();
    hide Name, RefKey, Alternatives, NonNull, TypeOf, TO_LIST, TEXT, LIST;
    var defs := map["List" := LIST];
    assert Next(Call(FindsType, LIST), defs) == {};
    assert Within(Call(FindsType, LIST), 1, defs);
    assert Within(Call(FindsType, TO_LIST), 2, defs);
    var w := [Call(ReadsType, TO_LIST), Call(ReadsType, LIST), Call(ReadsType, TO_LIST)];
    assert Call(ReadsType, LIST) in Next(w[0], defs);
    assert TO_LIST in TypeParts(LIST);
    assert Call(ReadsType, TO_LIST) in Next(w[1], defs);
    assert Trail(w, defs) && w[0] == w[2];
    if Ends(w[0], defs) { EndingDoesNotReturn(w, defs); }
    if AcyclicRefs(defs) { AcyclicEnds(w[0], defs); }
  }
}
