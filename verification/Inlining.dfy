/** What a `$ref` means: the definition called by what stands behind its last slash. Writing
    the definition in place of the reference, anywhere in a schema, does not change what the
    schema is read or synthesized as. */
module Inlining {
  import opened Text
  import opened Ordering
  import opened JsonSchema
  import opened References
  import opened Messages
  import opened Schema
  import opened SchemaText

  // ---------------------------------------------------------------- what a reference names

  /** The node's `$ref` ends in this name. */
  ghost predicate Refers(node: Json, k: string) {
    node.Obj? && "$ref" in node.members && node.members["$ref"].Str? && EndsIn(node.members["$ref"].s, k)
  }

  lemma RefersIff(node: Json, k: string)
    ensures Refers(node, k) <==> RefKey(node) == Some(k)
  {
    hide LastSegment, EndsIn;
    if GetString(node, "$ref").Some? { LastSegmentIff(GetString(node, "$ref").value, k); }
  }

  /** The node refers to this definition. */
  ghost predicate StandsFor(node: Json, definition: Json, defs: Object) {
    exists k :: k in defs && Refers(node, k) && definition == defs[k]
  }

  lemma StandsForIff(node: Json, definition: Json, defs: Object)
    ensures StandsFor(node, definition, defs) <==> IsReference(node, defs) && definition == Target(node, defs)
  {
    hide RefKey, Refers;
    forall k ensures Refers(node, k) <==> RefKey(node) == Some(k) { RefersIff(node, k); }
  }

  /** Definition after definition, each referred to by the one before; the last one refers to
      none. */
  ghost predicate Chain(c: seq<Json>, defs: Object) {
    c != [] && (forall i | 0 <= i < |c| - 1 :: StandsFor(c[i], c[i + 1], defs)) && Stays(c[|c| - 1], defs)
  }

  ghost predicate Stays(node: Json, defs: Object) {
    forall d :: !StandsFor(node, d, defs)
  }

  ghost predicate Leads(node: Json, r: Json, c: seq<Json>, defs: Object) {
    Chain(c, defs) && c[0] == node && c[|c| - 1] == r
  }

  lemma {:induction false} ChainResolves(c: seq<Json>, defs: Object)
    requires Chain(c, defs)
    ensures Ends(Call(Resolves, c[0]), defs) && Resolve(c[0], defs) == c[|c| - 1]
  {
    hide Ends, Depth, StandsFor, IsReference, Target;
    if |c| == 1 {
      if IsReference(c[0], defs) { StandsForIff(c[0], Target(c[0], defs), defs); }
      ResolvedResolves(c[0], defs);
    } else {
      assert StandsFor(c[0], c[1], defs);
      StandsForIff(c[0], c[1], defs);
      forall i | 0 <= i < |c[1..]| - 1 ensures StandsFor(c[1..][i], c[1..][i + 1], defs) {
        assert StandsFor(c[i + 1], c[i + 1 + 1], defs);
      }
      ChainResolves(c[1..], defs);
      StepResolves(c[0], defs);
    }
  }

  lemma StepResolves(node: Json, defs: Object)
    requires IsReference(node, defs) && Ends(Call(Resolves, Target(node, defs)), defs)
    ensures Ends(Call(Resolves, node), defs) && Resolve(node, defs) == Resolve(Target(node, defs), defs)
  {
    hide Ends, Depth, RefKey;
    assert Next(Call(Resolves, node), defs) == {Call(Resolves, Target(node, defs))};
    EndsIfNextEnd(Call(Resolves, node), defs);
  }

  lemma {:induction false} ResolveLeads(node: Json, defs: Object) returns (c: seq<Json>)
    requires Ends(Call(Resolves, node), defs)
    ensures Leads(node, Resolve(node, defs), c, defs)
    decreases Depth(Call(Resolves, node), defs)
  {
    hide Ends, Depth, StandsFor, RefKey;
    if IsReference(node, defs) {
      var d := Target(node, defs);
      NextEnds(Call(Resolves, node), Call(Resolves, d), defs);
      var rest := ResolveLeads(d, defs);
      StandsForIff(node, d, defs);
      c := [node] + rest;
      forall i | 0 <= i < |c| - 1 ensures StandsFor(c[i], c[i + 1], defs) {
        if i > 0 { assert StandsFor(rest[i - 1], rest[i - 1 + 1], defs); }
      }
    } else {
      c := [node];
      forall d ensures !StandsFor(node, d, defs) { StandsForIff(node, d, defs); }
    }
  }

  /** Resolving a node ends exactly when its references lead, one after the other, to a node
      that refers to no definition; and that is what it gives. */
  lemma ResolveIff(node: Json, r: Json, defs: Object)
    ensures (exists c :: Leads(node, r, c, defs)) <==>
            Ends(Call(Resolves, node), defs) && Resolve(node, defs) == r
  {
    hide Ends, Depth, Chain, Resolve;
    if c :| Leads(node, r, c, defs) { ChainResolves(c, defs); }
    if Ends(Call(Resolves, node), defs) { var c := ResolveLeads(node, defs); }
  }

  /** Whatever stands before the last slash, the definition behind it is meant; a reference
      to no definition stays. */
  lemma NamedDefinition(node: Json, k: string, defs: Object)
    requires Refers(node, k) && Ends(Call(Resolves, node), defs)
    ensures k in defs ==> Ends(Call(Resolves, defs[k]), defs) && Resolve(node, defs) == Resolve(defs[k], defs)
    ensures k !in defs ==> Resolve(node, defs) == node
  {
    hide Ends, Depth, RefKey, Refers;
    RefersIff(node, k);
    if k in defs { NextEnds(Call(Resolves, node), Call(Resolves, defs[k]), defs); }
  }

  /** Where a document keeps its definitions: under `$defs`, and only without it under
      `definitions`. */
  lemma DefinitionsOf(m: Object)
    ensures DefsOf(Obj(m)) ==
            if "$defs" in m then (if m["$defs"].Obj? then m["$defs"].members else map[])
            else if "definitions" in m && m["definitions"].Obj? then m["definitions"].members
            else map[]
  {
  }

  // ---------------------------------------------------------------- definitions written in place

  /** What a property says beside its type, as it is read. */
  function NotesOf(node: Json): (string, Option<Json>, Option<Json>, seq<Constraint>, bool) {
    (AsString(Member(node, KDescription)).GetOr(""), Member(node, KDefault),
     ExampleFrom(Member(node, KExamples), Member(node, KExample)),
     ConstraintsFrom(Member(node, KMinimum), Member(node, KMaximum), Member(node, KPattern)),
     Member(node, KReadOnly) == Some(Bool(true)))
  }

  predicate SaysNull(node: Json) { TypeOf(node) == Some("null") }

  /** `b` is `a` with references replaced by their definitions at some places where schemas
      stand: as items, as properties, as alternatives. An alternative keeps saying `null` or
      not; where types are read, a property keeps its notes. */
  ghost predicate Inlined(a: Json, b: Json, defs: Object, reading: bool)
    decreases b, 2
  {
    a == b || StandsFor(a, b, defs) || Alike(a, b, defs, reading)
  }

  /** The same members, with replacements inside some of them. */
  ghost predicate Alike(a: Json, b: Json, defs: Object, reading: bool)
    decreases b, 1
  {
    a.Obj? && b.Obj? && a.members.Keys == b.members.Keys &&
    forall m | m in a.members :: AlikeMember(m, a.members[m], b.members[m], defs, reading)
  }

  ghost predicate AlikeMember(m: string, x: Json, y: Json, defs: Object, reading: bool)
    decreases y, 3
  {
    x == y || (m == "items" && Inlined(x, y, defs, reading)) ||
    (m == "properties" && x.Obj? && y.Obj? && AlikeProperties(x, y, defs, reading)) ||
    (m in {"anyOf", "oneOf"} && x.Arr? && y.Arr? && AlikeBranches(x, y, defs, reading))
  }

  ghost predicate AlikeProperties(x: Json, y: Json, defs: Object, reading: bool)
    requires x.Obj? && y.Obj?
    decreases y, 2
  {
    x.members.Keys == y.members.Keys &&
    forall k | k in x.members ::
      Inlined(x.members[k], y.members[k], defs, reading) && (reading ==> NotesOf(x.members[k]) == NotesOf(y.members[k]))
  }

  ghost predicate AlikeBranches(x: Json, y: Json, defs: Object, reading: bool)
    requires x.Arr? && y.Arr?
    decreases y, 2
  {
    |x.items| == |y.items| &&
    forall i | 0 <= i < |x.items| ::
      Inlined(x.items[i], y.items[i], defs, reading) && (SaysNull(x.items[i]) <==> SaysNull(y.items[i]))
  }

  lemma NoReferenceResolves(node: Json, defs: Object)
    requires !IsReference(node, defs)
    ensures Ends(Call(Resolves, node), defs) && Resolve(node, defs) == node
  {
    hide Ends, Depth;
    ResolvedResolves(node, defs);
  }

  lemma AlikeRefers(a: Json, b: Json, defs: Object, reading: bool)
    requires Alike(a, b, defs, reading)
    ensures RefKey(a) == RefKey(b)
  {
    hide Inlined, AlikeProperties, AlikeBranches, LastSegment;
    if "$ref" in a.members { assert AlikeMember("$ref", a.members["$ref"], b.members["$ref"], defs, reading); }
  }

  /** Resolved, the two are the same or alike. */
  lemma ResolvedInlined(a: Json, b: Json, defs: Object, reading: bool)
    requires Inlined(a, b, defs, reading) && Ends(Call(Resolves, a), defs)
    ensures Ends(Call(Resolves, b), defs)
    ensures Resolve(a, defs) == Resolve(b, defs) || Alike(Resolve(a, defs), Resolve(b, defs), defs, reading)
  {
    hide Ends, Depth, RefKey, Alike, StandsFor;
    if StandsFor(a, b, defs) {
      StandsForIff(a, b, defs);
      NextEnds(Call(Resolves, a), Call(Resolves, b), defs);
    } else if a != b {
      AlikeRefers(a, b, defs, reading);
      if IsReference(a, defs) {
        NextEnds(Call(Resolves, a), Call(Resolves, Target(a, defs)), defs);
        StepResolves(b, defs);
      } else {
        NoReferenceResolves(a, defs);
        NoReferenceResolves(b, defs);
      }
    }
  }

  /** A walk ends if it ends for the resolved node. */
  lemma {:induction false} EndsBehind(role: Role, node: Json, defs: Object)
    requires Ends(Call(Resolves, node), defs) && Ends(Call(role, Resolve(node, defs)), defs) && role != BuildsMessage
    ensures Ends(Call(role, node), defs)
    decreases Depth(Call(Resolves, node), defs)
  {
    hide Ends, Depth, RefKey, Inner;
    if IsReference(node, defs) {
      NextEnds(Call(Resolves, node), Call(Resolves, Target(node, defs)), defs);
      EndsBehind(role, Target(node, defs), defs);
      assert Next(Call(role, node), defs) == {Call(role, Target(node, defs))};
      EndsIfNextEnd(Call(role, node), defs);
    }
  }

  // ---------------------------------------------------------------- reading types

  ghost predicate AlikeShapes(s: Shape, s': Shape, defs: Object) {
    match s
    case Scalar(_) => s == s'
    case One(x) => s'.One? && Inlined(x, s'.branch, defs, true)
    case Many(xs) => s'.Many? && AllInlined(xs, s'.branches, defs, true)
    case ArrayOf(items) =>
      s'.ArrayOf? && (items.Some? <==> s'.items.Some?) &&
      (items.Some? ==> Inlined(items.value, s'.items.value, defs, true))
    case ObjectOf(props, required) =>
      s'.ObjectOf? && required == s'.required && AlikeProperties(Obj(props), Obj(s'.props), defs, true)
  }

  ghost predicate AllInlined(xs: seq<Json>, ys: seq<Json>, defs: Object, reading: bool) {
    |xs| == |ys| && forall i | 0 <= i < |xs| :: Inlined(xs[i], ys[i], defs, reading)
  }

  lemma SameIsAlike(s: Shape, defs: Object)
    ensures AlikeShapes(s, s, defs)
  {
    hide Inlined, AlikeProperties;
    match s
    case One(x) => SameIsInlined(x, defs, true);
    case Many(xs) => SameAllInlined(xs, defs, true);
    case ArrayOf(items) => if items.Some? { SameIsInlined(items.value, defs, true); }
    case ObjectOf(props, _) => SamePropertiesAreAlike(props, defs, true);
    case _ =>
  }

  lemma SameAllInlined(xs: seq<Json>, defs: Object, reading: bool)
    ensures AllInlined(xs, xs, defs, reading)
  {
    hide Inlined;
    forall i | 0 <= i < |xs| ensures Inlined(xs[i], xs[i], defs, reading) { SameIsInlined(xs[i], defs, reading); }
  }

  lemma SameAreAlike(xs: seq<Json>, defs: Object, reading: bool)
    ensures AlikeBranches(Arr(xs), Arr(xs), defs, reading)
  {
    hide Alike, StandsFor, TypeOf;
    forall a ensures Inlined(a, a, defs, reading) { }
  }

  lemma NonNullStep(xs: seq<Json>)
    requires xs != []
    ensures NonNull(xs) == (if SaysNull(xs[0]) then [] else [xs[0]]) + NonNull(xs[1..])
  {
    hide Name, TypeOf, SaysNull;
    NullIs(xs[0]);
    assert [] + NonNull(xs[1..]) == NonNull(xs[1..]);
  }

  lemma NullIs(x: Json)
    ensures SaysNull(x) <==> TypeOf(x) == Some(Name(KNull))
  {
    hide TypeOf;
  }

  lemma {:induction false} NonNullAlike(xs: seq<Json>, ys: seq<Json>, defs: Object, reading: bool)
    requires AllInlined(xs, ys, defs, reading) && forall i | 0 <= i < |xs| :: SaysNull(xs[i]) <==> SaysNull(ys[i])
    ensures AllInlined(NonNull(xs), NonNull(ys), defs, reading)
  {
    hide Inlined, SaysNull, NonNull;
    if xs == [] {
      NothingNonNull();
    } else {
      NonNullStep(xs);
      NonNullStep(ys);
      assert SaysNull(xs[0]) <==> SaysNull(ys[0]);
      forall i | 0 <= i < |xs[1..]| ensures Inlined(xs[1..][i], ys[1..][i], defs, reading) {
        assert Inlined(xs[i + 1], ys[i + 1], defs, reading);
      }
      forall i | 0 <= i < |xs[1..]| ensures SaysNull(xs[1..][i]) <==> SaysNull(ys[1..][i]) {
        assert SaysNull(xs[i + 1]) <==> SaysNull(ys[i + 1]);
      }
      NonNullAlike(xs[1..], ys[1..], defs, reading);
    }
  }

  lemma BranchesInlined(xs: seq<Json>, ys: seq<Json>, defs: Object, reading: bool)
    requires AlikeBranches(Arr(xs), Arr(ys), defs, reading)
    ensures AllInlined(NonNull(xs), NonNull(ys), defs, reading)
  {
    hide Inlined, SaysNull, NonNull;
    forall i | 0 <= i < |xs| ensures Inlined(xs[i], ys[i], defs, reading) && (SaysNull(xs[i]) <==> SaysNull(ys[i])) {
      assert Inlined(Arr(xs).items[i], Arr(ys).items[i], defs, reading);
    }
    NonNullAlike(xs, ys, defs, reading);
  }

  lemma NothingNonNull()
    ensures NonNull([]) == []
  {
  }

  /** The members a type is read from. */
  lemma AlikeGet(a: Json, b: Json, defs: Object, reading: bool, m: string)
    requires Alike(a, b, defs, reading)
    ensures Get(a, m).Some? <==> Get(b, m).Some?
    ensures Get(a, m).Some? ==> AlikeMember(m, Get(a, m).value, Get(b, m).value, defs, reading)
  {
    hide AlikeMember;
  }

  lemma AlikePlain(a: Json, b: Json, defs: Object, reading: bool, m: string)
    requires Alike(a, b, defs, reading) && m !in {"items", "properties", "anyOf", "oneOf"}
    ensures Get(a, m) == Get(b, m)
  {
    hide Alike, Inlined, AlikeProperties, AlikeBranches;
    AlikeGet(a, b, defs, reading, m);
  }

  lemma AlikeAlternatives(a: Json, b: Json, defs: Object, reading: bool)
    requires Alike(a, b, defs, reading)
    ensures Alternatives(a).Some? <==> Alternatives(b).Some?
    ensures Alternatives(a).Some? ==>
              AlikeBranches(Arr(Alternatives(a).value), Arr(Alternatives(b).value), defs, reading)
  {
    hide Alike, Inlined, AlikeProperties, AlikeBranches;
    AlikeGet(a, b, defs, reading, "anyOf");
    AlikeGet(a, b, defs, reading, "oneOf");
    if Alternatives(a).Some? { SameAreAlike(Alternatives(a).value, defs, reading); }
  }

  lemma AlikeTypes(a: Json, b: Json, defs: Object, reading: bool)
    requires Alike(a, b, defs, reading)
    ensures TypeOf(a) == TypeOf(b) && Member(a, KEnum) == Member(b, KEnum)
    ensures Member(a, KRequired) == Member(b, KRequired)
  {
    hide Alike, FirstNonNull;
    AlikePlain(a, b, defs, reading, "type");
    AlikePlain(a, b, defs, reading, "enum");
    AlikePlain(a, b, defs, reading, "required");
  }

  /** A plain shape depends on the enum, the type, the items, the properties and what is
      required. */
  lemma PlainShapes(a: Json, b: Json)
    requires Member(a, KEnum) == Member(b, KEnum) && TypeOf(a) == TypeOf(b)
    requires Member(a, KRequired) == Member(b, KRequired)
    ensures
      var s, s' := PlainShape(a), PlainShape(b);
      match s
      case ArrayOf(items) => items == Member(a, KItems) && s' == ArrayOf(Member(b, KItems))
      case ObjectOf(props, required) =>
        props == AsObject(Member(a, KProperties)) && s' == ObjectOf(AsObject(Member(b, KProperties)), required)
      case _ => s == s' && s.Scalar?
  {
    hide Name, TypeOf, StringsIn, RequiredSet, AsObject, Member;
  }

  lemma AlikePlainShapes(a: Json, b: Json, defs: Object)
    requires Alike(a, b, defs, true)
    ensures AlikeShapes(PlainShape(a), PlainShape(b), defs)
  {
    hide Alike, Inlined, TypeOf, PlainShape, AlikeProperties, AlikeBranches;
    AlikeTypes(a, b, defs, true);
    PlainShapes(a, b);
    AlikeGet(a, b, defs, true, "items");
    AlikeGet(a, b, defs, true, "properties");
    if Get(a, "items").Some? { SameIsInlined(Get(a, "items").value, defs, true); }
    SamePropertiesAreAlike(AsObject(Get(a, "properties")), defs, true);
  }

  lemma SameIsInlined(a: Json, defs: Object, reading: bool)
    ensures Inlined(a, a, defs, reading)
  {
  }

  lemma SamePropertiesAreAlike(props: Object, defs: Object, reading: bool)
    ensures AlikeProperties(Obj(props), Obj(props), defs, reading)
  {
    hide Alike, StandsFor, NotesOf;
    forall a ensures Inlined(a, a, defs, reading) { }
  }

  lemma AlikeShapesOf(a: Json, b: Json, defs: Object)
    requires Alike(a, b, defs, true)
    ensures AlikeShapes(ShapeOf(a), ShapeOf(b), defs)
  {
    hide Alike, Inlined, PlainShape, NonNull, AlikeBranches, Alternatives;
    AlikeAlternatives(a, b, defs, true);
    AlikePlainShapes(a, b, defs);
    if Alternatives(a).Some? { BranchesInlined(Alternatives(a).value, Alternatives(b).value, defs, true); }
  }

  lemma PartBehind(s: Shape, s': Shape, p': Json, defs: Object) returns (p: Json)
    requires AlikeShapes(s, s', defs) && Holds(s', p')
    ensures Holds(s, p) && Inlined(p, p', defs, true)
  {
    hide Inlined;
    match s
    case One(x) => p := x;
    case Many(xs) =>
      var i :| 0 <= i < |xs| && s'.branches[i] == p';
      p := xs[i];
    case ArrayOf(items) => p := items.value;
    case ObjectOf(props, _) =>
      var k :| k in s'.props && s'.props[k] == p';
      p := props[k];
      assert Inlined(Obj(props).members[k], Obj(s'.props).members[k], defs, true);
    case _ =>
      assert false;
  }

  lemma EndsFromParts(node: Json, defs: Object)
    requires Ends(Call(Resolves, node), defs)
    requires forall p | PartOf(p, Resolve(node, defs)) :: Ends(Call(ReadsType, p), defs)
    ensures Ends(Call(ReadsType, node), defs)
  {
    hide Ends, Depth, IsReference, TypeParts, PartOf, Resolve;
    var n := Resolve(node, defs);
    forall d | d in Next(Call(ReadsType, n), defs) ensures Ends(d, defs) {
      PartIsTypePart(d.node, n);
    }
    EndsIfNextEnd(Call(ReadsType, n), defs);
    EndsBehind(ReadsType, node, defs);
  }

  ghost predicate SameRead(p: Json, p': Json, defs: Object) {
    Ends(Call(ReadsType, p), defs) && Ends(Call(ReadsType, p'), defs) ==> FieldTypeOf(p, defs) == FieldTypeOf(p', defs)
  }

  ghost predicate PartsReadAlike(s: Shape, s': Shape, defs: Object) {
    forall p, p' | Holds(s, p) && Holds(s', p') && Inlined(p, p', defs, true) :: SameRead(p, p', defs)
  }

  lemma UnionOf(node: Json, xs: seq<Json>, defs: Object)
    requires Ends(Call(ReadsType, node), defs) && Ends(Call(Resolves, node), defs)
    requires ShapeOf(Resolve(node, defs)) == Many(xs)
    ensures forall i | 0 <= i < |xs| :: Ends(Call(ReadsType, xs[i]), defs)
    ensures
      var t := FieldTypeOf(node, defs);
      t.OneOfType? && |t.branches| == |xs| && forall i | 0 <= i < |xs| :: t.branches[i] == FieldTypeOf(xs[i], defs)
  {
    hide Ends, Depth, ShapeOf, Resolve;
    forall i | 0 <= i < |xs| ensures Ends(Call(ReadsType, xs[i]), defs) { PartEnds(xs[i], node, defs); }
  }

  lemma ObjectOfFields(node: Json, props: Object, required: set<string>, defs: Object)
    requires Ends(Call(ReadsType, node), defs) && Ends(Call(Resolves, node), defs)
    requires ShapeOf(Resolve(node, defs)) == ObjectOf(props, required)
    ensures forall k | k in props :: Ends(Call(ReadsType, props[k]), defs)
    ensures
      var t := FieldTypeOf(node, defs);
      t.ObjectType? && t.fields.Keys == props.Keys &&
      forall k | k in props :: t.fields[k] == FieldSchemaOf(props[k], defs, k in required)
  {
    hide Ends, Depth, ShapeOf, Resolve, FieldSchemaOf;
    forall k | k in props ensures Ends(Call(ReadsType, props[k]), defs) { PartEnds(props[k], node, defs); }
  }

  lemma SameFieldRead(p: Json, p': Json, defs: Object, required: bool)
    requires Ends(Call(ReadsType, p), defs) && Ends(Call(ReadsType, p'), defs)
    requires FieldTypeOf(p, defs) == FieldTypeOf(p', defs)
    ensures FieldSchemaOf(p, defs, required) == FieldSchemaOf(p', defs, required) <==> NotesOf(p) == NotesOf(p')
  {
    hide Ends, Depth, FieldTypeOf;
  }

  lemma SameUnionRead(a: Json, b: Json, xs: seq<Json>, ys: seq<Json>, defs: Object)
    requires Ends(Call(ReadsType, a), defs) && Ends(Call(ReadsType, b), defs)
    requires Ends(Call(Resolves, a), defs) && Ends(Call(Resolves, b), defs)
    requires ShapeOf(Resolve(a, defs)) == Many(xs) && ShapeOf(Resolve(b, defs)) == Many(ys)
    requires AllInlined(xs, ys, defs, true) && PartsReadAlike(Many(xs), Many(ys), defs)
    ensures FieldTypeOf(a, defs) == FieldTypeOf(b, defs)
  {
    hide Ends, Depth, ShapeOf, Inlined, Resolve, FieldTypeOf;
    UnionOf(a, xs, defs);
    UnionOf(b, ys, defs);
    forall i | 0 <= i < |xs| ensures FieldTypeOf(xs[i], defs) == FieldTypeOf(ys[i], defs) {
      assert SameRead(xs[i], ys[i], defs);
    }
    assert FieldTypeOf(a, defs).branches == FieldTypeOf(b, defs).branches;
  }

  lemma SameObjectRead(a: Json, b: Json, x: Object, y: Object, required: set<string>, defs: Object)
    requires Ends(Call(ReadsType, a), defs) && Ends(Call(ReadsType, b), defs)
    requires Ends(Call(Resolves, a), defs) && Ends(Call(Resolves, b), defs)
    requires ShapeOf(Resolve(a, defs)) == ObjectOf(x, required) && ShapeOf(Resolve(b, defs)) == ObjectOf(y, required)
    requires AlikeProperties(Obj(x), Obj(y), defs, true)
    requires PartsReadAlike(ObjectOf(x, required), ObjectOf(y, required), defs)
    ensures FieldTypeOf(a, defs) == FieldTypeOf(b, defs)
  {
    hide Ends, Depth, ShapeOf, Inlined, Resolve, FieldTypeOf, FieldSchemaOf, NotesOf, PartsReadAlike;
    ObjectOfFields(a, x, required, defs);
    ObjectOfFields(b, y, required, defs);
    forall k | k in x ensures FieldSchemaOf(x[k], defs, k in required) == FieldSchemaOf(y[k], defs, k in required) {
      SamePropertyRead(x, y, required, k, defs);
    }
    assert FieldTypeOf(a, defs).fields == FieldTypeOf(b, defs).fields;
  }

  lemma SamePropertyRead(x: Object, y: Object, required: set<string>, k: string, defs: Object)
    requires AlikeProperties(Obj(x), Obj(y), defs, true) && k in x
    requires PartsReadAlike(ObjectOf(x, required), ObjectOf(y, required), defs)
    requires Ends(Call(ReadsType, x[k]), defs) && Ends(Call(ReadsType, y[k]), defs)
    ensures FieldSchemaOf(x[k], defs, k in required) == FieldSchemaOf(y[k], defs, k in required)
  {
    hide Ends, Depth, Inlined, FieldTypeOf, FieldSchemaOf, NotesOf;
    assert Inlined(Obj(x).members[k], Obj(y).members[k], defs, true);
    assert SameRead(x[k], y[k], defs);
    SameFieldRead(x[k], y[k], defs, k in required);
  }

  lemma SameTypeRead(a: Json, b: Json, defs: Object)
    requires Ends(Call(ReadsType, a), defs) && Ends(Call(ReadsType, b), defs)
    requires Ends(Call(Resolves, a), defs) && Ends(Call(Resolves, b), defs)
    requires AlikeShapes(ShapeOf(Resolve(a, defs)), ShapeOf(Resolve(b, defs)), defs)
    requires PartsReadAlike(ShapeOf(Resolve(a, defs)), ShapeOf(Resolve(b, defs)), defs)
    ensures FieldTypeOf(a, defs) == FieldTypeOf(b, defs)
  {
    hide Ends, Depth, ShapeOf, Inlined, Resolve, AlikeProperties, AllInlined;
    var s, s' := ShapeOf(Resolve(a, defs)), ShapeOf(Resolve(b, defs));
    if s.Many? {
      SameUnionRead(a, b, s.branches, s'.branches, defs);
    } else if s.ObjectOf? {
      SameObjectRead(a, b, s.props, s'.props, s.required, defs);
    } else if s.One? {
      PartEnds(s.branch, a, defs);
      PartEnds(s'.branch, b, defs);
      assert SameRead(s.branch, s'.branch, defs);
    } else if s.ArrayOf? && s.items.Some? {
      PartEnds(s.items.value, a, defs);
      PartEnds(s'.items.value, b, defs);
      assert SameRead(s.items.value, s'.items.value, defs);
    }
  }

  /** Definitions written in place of references, at any depth and any number of places, read
      as the same type; and where the one ends, so does the other. */
  lemma {:induction false} InliningKeepsType(a: Json, b: Json, defs: Object)
    requires Inlined(a, b, defs, true) && Ends(Call(ReadsType, a), defs)
    ensures Ends(Call(ReadsType, b), defs) && FieldTypeOf(a, defs) == FieldTypeOf(b, defs)
    decreases Depth(Call(ReadsType, a), defs)
  {
    hide Ends, Depth, ShapeOf, Inlined, Resolve, FieldTypeOf, AlikeShapes, Holds;
    CallResolves(Call(ReadsType, a), defs);
    ResolvedInlined(a, b, defs, true);
    var s, s' := ShapeOf(Resolve(a, defs)), ShapeOf(Resolve(b, defs));
    SameIsAlike(s, defs);
    if Resolve(a, defs) != Resolve(b, defs) { AlikeShapesOf(Resolve(a, defs), Resolve(b, defs), defs); }
    forall p, p' | Holds(s, p) && Holds(s', p') && Inlined(p, p', defs, true)
      ensures SameRead(p, p', defs) && Ends(Call(ReadsType, p'), defs)
    {
      PartEnds(p, a, defs);
      InliningKeepsType(p, p', defs);
    }
    forall p' | PartOf(p', Resolve(b, defs)) ensures Ends(Call(ReadsType, p'), defs) {
      var p := PartBehind(s, s', p', defs);
    }
    EndsFromParts(b, defs);
    SameTypeRead(a, b, defs);
  }

  // ---------------------------------------------------------------- synthesizing messages

  lemma AlikeOnlyBranch(a: Json, b: Json, defs: Object)
    requires Alike(a, b, defs, false) && Alternatives(a).Some?
    ensures Alternatives(b).Some? && (OnlyBranch(a).Some? <==> OnlyBranch(b).Some?)
    ensures OnlyBranch(a).Some? ==> Inlined(OnlyBranch(a).value, OnlyBranch(b).value, defs, false)
  {
    hide Alike, Inlined, NonNull, Alternatives, AlikeBranches;
    AlikeAlternatives(a, b, defs, false);
    BranchesInlined(Alternatives(a).value, Alternatives(b).value, defs, false);
  }

  lemma AlikeMessage(a: Json, b: Json, defs: Object)
    requires Alike(a, b, defs, false)
    ensures HasMessage(a) == HasMessage(b) && TypeOf(a) == TypeOf(b)
    ensures Alternatives(a).Some? <==> Alternatives(b).Some?
  {
    hide Alike, TypeOf, Alternatives, AlikeMember;
    AlikeTypes(a, b, defs, false);
    AlikeAlternatives(a, b, defs, false);
    AlikeGet(a, b, defs, false, "properties");
  }

  lemma AlikeGetObject(a: Json, b: Json, defs: Object)
    requires Alike(a, b, defs, false)
    ensures
      var x, y := GetObject(a, "properties"), GetObject(b, "properties");
      (x.Some? <==> y.Some?) && (x.Some? ==> AlikeProperties(Obj(x.value), Obj(y.value), defs, false))
  {
    hide Alike, Inlined, AlikeBranches, AlikeProperties;
    AlikeGet(a, b, defs, false, "properties");
    if GetObject(a, "properties").Some? { SamePropertiesAreAlike(GetObject(a, "properties").value, defs, false); }
  }

  lemma AlikeFieldNames(a: Json, b: Json, defs: Object)
    requires Alike(a, b, defs, false)
    ensures FieldNames(a) == FieldNames(b)
  {
    hide Alike, Inlined, GetObject, Keys;
    AlikeGetObject(a, b, defs);
  }

  lemma PropertiesAre(node: Json)
    ensures GetObject(node, Name(KProperties)) == GetObject(node, "properties")
  {
  }

  function Property(node: Json, k: string): Json
    requires k in FieldNames(node)
  {
    hide Name;
    PropertiesAre(node);
    GetObject(node, "properties").value[k]
  }

  lemma AlikeProperty(a: Json, b: Json, defs: Object, k: string)
    requires Alike(a, b, defs, false) && k in FieldNames(a) && k in FieldNames(b)
    ensures Inlined(Property(a, k), Property(b, k), defs, false)
  {
    hide Alike, Inlined, Keys;
    AlikeGetObject(a, b, defs);
    var x, y := GetObject(a, "properties").value, GetObject(b, "properties").value;
    assert Inlined(Obj(x).members[k], Obj(y).members[k], defs, false);
  }

  /** Whether a property is repeated, and its item. */
  function ItemOf(fnode: Json, defs: Object): (r: (bool, Json))
    requires Ends(Call(AddsProperty, fnode), defs)
    ensures Ends(Call(FindsType, r.1), defs)
    ensures Depth(Call(FindsType, r.1), defs) < Depth(Call(AddsProperty, fnode), defs)
  {
    match UnwrapArray(fnode, defs)
    case Some(item) => (true, item)
    case None =>
      PlainProperty(fnode, defs);
      (false, Resolve(fnode, defs))
  }

  lemma ItemOfProperty(node: Json, name: string, defs: Object)
    requires Ends(Call(BuildsMessage, node), defs) && name in FieldNames(node)
    ensures
      var fnode := Property(node, name);
      Ends(Call(AddsProperty, fnode), defs) && PropertyItem(node, name, defs) == ItemOf(fnode, defs) &&
      Depth(Call(AddsProperty, fnode), defs) < Depth(Call(BuildsMessage, node), defs)
  {
    hide Name, Ends, Depth, UnwrapArray, Resolve, Properties;
    PropertiesAre(node);
    FieldIsProperty(node, name);
    PropertyEnds(node, Property(node, name), defs);
  }

  /** What follows from a node that resolves to the same or something alike. */
  ghost predicate Follows(a: Json, b: Json, defs: Object) {
    a == b || Alike(a, b, defs, false)
  }

  ghost predicate SameProto(a: Json, b: Json, defs: Object) {
    Ends(Call(FindsType, a), defs) && Ends(Call(FindsType, b), defs) &&
    forall fieldName :: ProtoTypeOf(a, defs, fieldName) == ProtoTypeOf(b, defs, fieldName)
  }

  lemma ResolvedProto(node: Json, defs: Object)
    requires Ends(Call(FindsType, node), defs)
    ensures Ends(Call(Resolves, node), defs) && SameProto(node, Resolve(node, defs), defs)
  {
    hide Ends, Depth, Alternatives, BuildMessage, HasMessage, TypeOf, OnlyBranch;
    CallResolves(Call(FindsType, node), defs);
    ResolvedCall(Call(FindsType, node), defs);
    NoReferenceResolves(Resolve(node, defs), defs);
  }

  lemma UnionEnds(n: Json, defs: Object)
    requires !IsReference(n, defs) && Alternatives(n).Some?
    requires OnlyBranch(n).Some? ==> Ends(Call(FindsType, OnlyBranch(n).value), defs)
    ensures Ends(Call(FindsType, n), defs)
  {
    hide Ends, OnlyBranch, Alternatives;
    EndsIfNextEnd(Call(FindsType, n), defs);
  }

  lemma MessageEnds(n: Json, defs: Object)
    requires !IsReference(n, defs) && Alternatives(n).None? && HasMessage(n) && Ends(Call(BuildsMessage, n), defs)
    ensures Ends(Call(FindsType, n), defs)
  {
    hide Ends, HasMessage, Alternatives;
    EndsIfNextEnd(Call(FindsType, n), defs);
  }

  /** References written out anywhere inside give the same protobuf type, nested messages
      included; and where the one ends, so does the other. */
  lemma {:induction false} InliningKeepsProto(a: Json, b: Json, defs: Object)
    requires Inlined(a, b, defs, false) && Ends(Call(FindsType, a), defs)
    ensures SameProto(a, b, defs)
    decreases Depth(Call(FindsType, a), defs), 3, 0
  {
    hide Ends, Depth, Inlined, Resolve, SameProto, Alike;
    CallResolves(Call(FindsType, a), defs);
    ResolvedInlined(a, b, defs, false);
    var n, n' := Resolve(a, defs), Resolve(b, defs);
    ResolvedCall(Call(FindsType, a), defs);
    FollowProto(n, n', defs);
    ProtoEnds(n, n', defs);
    EndsBehind(FindsType, b, defs);
    ResolvedProto(a, defs);
    ResolvedProto(b, defs);
    ProtoTransitive(a, n, n', b, defs);
  }

  lemma ProtoEnds(a: Json, b: Json, defs: Object)
    requires SameProto(a, b, defs)
    ensures Ends(Call(FindsType, b), defs)
  {
  }

  lemma ProtoTransitive(a: Json, n: Json, n': Json, b: Json, defs: Object)
    requires SameProto(a, n, defs) && SameProto(n, n', defs) && SameProto(b, n', defs)
    ensures SameProto(a, b, defs)
  {
    hide Ends, ProtoTypeOf;
    forall fieldName ensures ProtoTypeOf(a, defs, fieldName) == ProtoTypeOf(b, defs, fieldName) {
      assert ProtoTypeOf(a, defs, fieldName) == ProtoTypeOf(n, defs, fieldName);
      assert ProtoTypeOf(n, defs, fieldName) == ProtoTypeOf(n', defs, fieldName);
      assert ProtoTypeOf(b, defs, fieldName) == ProtoTypeOf(n', defs, fieldName);
    }
  }

  ghost predicate SameMessage(n: Json, n': Json, defs: Object) {
    Ends(Call(BuildsMessage, n), defs) && Ends(Call(BuildsMessage, n'), defs) &&
    forall name :: BuildMessage(name, n, defs) == BuildMessage(name, n', defs)
  }

  lemma {:induction false} FollowProto(n: Json, n': Json, defs: Object)
    requires Follows(n, n', defs) && !IsReference(n, defs) && !IsReference(n', defs) && Ends(Call(FindsType, n), defs)
    ensures SameProto(n, n', defs)
    decreases Depth(Call(FindsType, n), defs), 2, 0
  {
    hide Ends, Depth, Inlined, Resolve, Alike, ProtoTypeOf, BuildMessage, OnlyBranch, Alternatives, HasMessage, TypeOf,
         IsReference, MessageName;
    if n != n' {
      AlikeMessage(n, n', defs);
      if Alternatives(n).Some? {
        ProtoOfUnion(n, defs);
        AlikeOnlyBranch(n, n', defs);
        if OnlyBranch(n).Some? { InliningKeepsProto(OnlyBranch(n).value, OnlyBranch(n').value, defs); }
        UnionEnds(n', defs);
        ProtoOfUnion(n', defs);
      } else if HasMessage(n) {
        ProtoOfMessage(n, defs);
        InliningKeepsMessage(n, n', defs);
        MessageEnds(n', defs);
        ProtoOfMessage(n', defs);
      } else {
        ProtoOfScalar(n, defs);
        ProtoOfScalar(n', defs);
      }
    }
  }

  /** And the same message. */
  lemma {:induction false} InliningKeepsMessage(n: Json, n': Json, defs: Object)
    requires Follows(n, n', defs) && Ends(Call(BuildsMessage, n), defs)
    ensures SameMessage(n, n', defs)
    decreases Depth(Call(BuildsMessage, n), defs), 1, 0
  {
    hide Ends, Depth, Inlined, Alike, BuildMessage, FieldNames, PropertiesAlike, SameProto, Property;
    if n != n' {
      AlikeFieldNames(n, n', defs);
      forall k | k in FieldNames(n) ensures PropertiesAlike(n, n', k, defs) {
        ItemOfProperty(n, k, defs);
        AlikeProperty(n, n', defs, k);
        InliningKeepsProperty(Property(n, k), Property(n', k), defs);
        AlikeAsProperties(n, n', k, defs);
      }
      MessageEndsFromProperties(n, n', defs);
      forall name ensures BuildMessage(name, n, defs) == BuildMessage(name, n', defs) {
        SameParts(n, n', |FieldNames(n)|, defs);
        MessageFromParts(name, n, n', defs);
      }
    }
  }

  /** The property called `k` ends for both, and gives the same. */
  ghost predicate PropertiesAlike(n: Json, n': Json, k: string, defs: Object) {
    k in FieldNames(n) && k in FieldNames(n') &&
    Ends(Call(AddsProperty, Property(n, k)), defs) && Ends(Call(AddsProperty, Property(n', k)), defs) &&
    ItemOf(Property(n, k), defs).0 == ItemOf(Property(n', k), defs).0 &&
    SameProto(ItemOf(Property(n, k), defs).1, ItemOf(Property(n', k), defs).1, defs)
  }

  lemma AlikeAsProperties(n: Json, n': Json, k: string, defs: Object)
    requires k in FieldNames(n) && k in FieldNames(n')
    requires Ends(Call(AddsProperty, Property(n, k)), defs) && Ends(Call(AddsProperty, Property(n', k)), defs)
    requires ItemOf(Property(n, k), defs).0 == ItemOf(Property(n', k), defs).0
    requires SameProto(ItemOf(Property(n, k), defs).1, ItemOf(Property(n', k), defs).1, defs)
    ensures PropertiesAlike(n, n', k, defs)
  {
    hide Ends, Depth, SameProto, ItemOf, Property, FieldNames;
  }

  lemma NextOfMessage(n: Json, d: Call, defs: Object) returns (k: string)
    requires d in Next(Call(BuildsMessage, n), defs)
    ensures k in FieldNames(n) && d == Call(AddsProperty, Property(n, k))
  {
    hide Keys;
    var props := GetObject(n, "properties").value;
    k :| k in props && props[k] == d.node;
  }

  lemma MessageEndsFromProperties(n: Json, n': Json, defs: Object)
    requires FieldNames(n) == FieldNames(n') && forall k | k in FieldNames(n) :: PropertiesAlike(n, n', k, defs)
    ensures Ends(Call(BuildsMessage, n'), defs)
  {
    hide Ends, Depth, SameProto, ItemOf, Next, FieldNames, Property;
    forall d | d in Next(Call(BuildsMessage, n'), defs) ensures Ends(d, defs) {
      var k := NextOfMessage(n', d, defs);
      assert PropertiesAlike(n, n', k, defs);
    }
    EndsIfNextEnd(Call(BuildsMessage, n'), defs);
  }

  lemma {:induction false} SameParts(n: Json, n': Json, i: nat, defs: Object)
    requires Ends(Call(BuildsMessage, n), defs) && Ends(Call(BuildsMessage, n'), defs)
    requires FieldNames(n) == FieldNames(n') && i <= |FieldNames(n)|
    requires forall k | k in FieldNames(n) :: PropertiesAlike(n, n', k, defs)
    ensures PartsUpTo(n, i, defs) == PartsUpTo(n', i, defs)
    decreases i
  {
    hide Ends, Depth, FieldNames, AddProperty, PropertiesAlike;
    if i > 0 {
      SameParts(n, n', i - 1, defs);
      var k := FieldNames(n)[i - 1];
      assert PropertiesAlike(n, n', k, defs);
      SameAdded(PartsUpTo(n, i - 1, defs), n, n', k, defs);
    }
  }

  lemma SameAdded(before: Parts, n: Json, n': Json, k: string, defs: Object)
    requires Ends(Call(BuildsMessage, n), defs) && Ends(Call(BuildsMessage, n'), defs)
    requires PropertiesAlike(n, n', k, defs)
    ensures AddProperty(before, n, k, defs) == AddProperty(before, n', k, defs)
  {
    hide Ends, Depth, FieldNames, ItemOf, ProtoTypeOf, PropertyItem, Property;
    ItemOfProperty(n, k, defs);
    ItemOfProperty(n', k, defs);
    assert ProtoTypeOf(ItemOf(Property(n, k), defs).1, defs, k) ==
           ProtoTypeOf(ItemOf(Property(n', k), defs).1, defs, k);
  }

  lemma MessageFromParts(name: string, n: Json, n': Json, defs: Object)
    requires Ends(Call(BuildsMessage, n), defs) && Ends(Call(BuildsMessage, n'), defs)
    requires FieldNames(n) == FieldNames(n')
    requires PartsUpTo(n, |FieldNames(n)|, defs) == PartsUpTo(n', |FieldNames(n)|, defs)
    ensures BuildMessage(name, n, defs) == BuildMessage(name, n', defs)
  {
    hide Ends, Depth, FieldNames, PartsUpTo;
  }

  lemma ItemOfArray(a: Json, defs: Object)
    requires Ends(Call(AddsProperty, a), defs) && Ends(Call(Resolves, a), defs)
    requires TypeOf(Resolve(a, defs)) == Some("array")
    ensures
      match Get(Resolve(a, defs), "items")
      case Some(x) =>
        Ends(Call(FindsType, x), defs) && Depth(Call(FindsType, x), defs) < Depth(Call(AddsProperty, a), defs) &&
        Ends(Call(Resolves, x), defs) && ItemOf(a, defs) == (true, Resolve(x, defs))
      case None => ItemOf(a, defs) == (true, EMPTY)
  {
    hide Ends, Depth, TypeOf, Resolve;
    var n := Resolve(a, defs);
    if Get(n, "items").Some? {
      InnerEnds(Call(AddsProperty, a), Call(FindsType, Get(n, "items").value), defs);
      CallResolves(Call(FindsType, Get(n, "items").value), defs);
    }
  }

  lemma ItemOfPlain(a: Json, defs: Object)
    requires Ends(Call(AddsProperty, a), defs) && Ends(Call(Resolves, a), defs)
    requires TypeOf(Resolve(a, defs)) != Some("array")
    ensures
      var n := Resolve(a, defs);
      Ends(Call(FindsType, n), defs) && Depth(Call(FindsType, n), defs) < Depth(Call(AddsProperty, a), defs) &&
      ItemOf(a, defs) == (false, n)
  {
    hide Ends, Depth, TypeOf, Resolve;
    InnerEnds(Call(AddsProperty, a), Call(FindsType, Resolve(a, defs)), defs);
  }

  lemma PropertyEndsIf(b: Json, defs: Object)
    requires Ends(Call(Resolves, b), defs)
    requires
      var n := Resolve(b, defs);
      if TypeOf(n) == Some("array") then Get(n, "items").Some? ==> Ends(Call(FindsType, Get(n, "items").value), defs)
      else Ends(Call(FindsType, n), defs)
    ensures Ends(Call(AddsProperty, b), defs)
  {
    hide Ends, TypeOf, Resolve;
    var n := Resolve(b, defs);
    EmptyEnds(defs);
    EndsIfNextEnd(Call(AddsProperty, n), defs);
    EndsBehind(AddsProperty, b, defs);
  }

  lemma ItemsAlike(n: Json, n': Json, defs: Object)
    requires Follows(n, n', defs)
    ensures TypeOf(n) == TypeOf(n') && (Get(n, "items").Some? <==> Get(n', "items").Some?)
    ensures Get(n, "items").Some? ==> Inlined(Get(n, "items").value, Get(n', "items").value, defs, false)
  {
    hide Inlined, TypeOf, Alike, AlikeProperties, AlikeBranches;
    if n != n' {
      AlikeTypes(n, n', defs, false);
      AlikeGet(n, n', defs, false, "items");
    }
    if Get(n, "items").Some? { SameIsInlined(Get(n, "items").value, defs, false); }
  }

  lemma FollowsIsInlined(n: Json, n': Json, defs: Object)
    requires Follows(n, n', defs)
    ensures Inlined(n, n', defs, false)
  {
    hide Alike;
  }

  lemma SameItems(x: Json, x': Json, defs: Object)
    requires SameProto(x, x', defs)
    ensures Ends(Call(Resolves, x), defs) && Ends(Call(Resolves, x'), defs)
    ensures SameProto(Resolve(x, defs), Resolve(x', defs), defs)
  {
    hide Ends, ProtoTypeOf, Resolve, Depth;
    ResolvedProto(x, defs);
    ResolvedProto(x', defs);
    forall name
      ensures ProtoTypeOf(Resolve(x, defs), defs, name) == ProtoTypeOf(Resolve(x', defs), defs, name)
    {
      assert ProtoTypeOf(x, defs, name) == ProtoTypeOf(x', defs, name);
    }
  }

  lemma {:induction false} InliningKeepsProperty(a: Json, b: Json, defs: Object)
    requires Inlined(a, b, defs, false) && Ends(Call(AddsProperty, a), defs)
    ensures Ends(Call(AddsProperty, b), defs) && ItemOf(a, defs).0 == ItemOf(b, defs).0
    ensures SameProto(ItemOf(a, defs).1, ItemOf(b, defs).1, defs)
    decreases Depth(Call(AddsProperty, a), defs), 0, 0
  {
    hide Ends, Depth, Inlined, Resolve, SameProto, Alike, TypeOf, ItemOf;
    CallResolves(Call(AddsProperty, a), defs);
    ResolvedInlined(a, b, defs, false);
    var n, n' := Resolve(a, defs), Resolve(b, defs);
    ItemsAlike(n, n', defs);
    if TypeOf(n) == Some("array") {
      ItemOfArray(a, defs);
      if Get(n, "items").Some? {
        var x, x' := Get(n, "items").value, Get(n', "items").value;
        InliningKeepsProto(x, x', defs);
        ProtoEnds(x, x', defs);
        SameItems(x, x', defs);
      } else {
        SameEmpty(defs);
      }
      PropertyEndsIf(b, defs);
      ItemOfArray(b, defs);
    } else {
      ItemOfPlain(a, defs);
      FollowsIsInlined(n, n', defs);
      InliningKeepsProto(n, n', defs);
      ProtoEnds(n, n', defs);
      PropertyEndsIf(b, defs);
      ItemOfPlain(b, defs);
    }
  }

  lemma SameEmpty(defs: Object)
    ensures SameProto(EMPTY, EMPTY, defs)
  {
    hide Ends, ProtoTypeOf;
    EmptyEnds(defs);
  }

  // ---------------------------------------------------------------- whole documents

  lemma AlikeDefs(a: Json, b: Json, defs: Object, reading: bool)
    requires Alike(a, b, defs, reading)
    ensures DefsOf(a) == DefsOf(b)
  {
    hide Alike;
    AlikePlain(a, b, defs, reading, "$defs");
    AlikePlain(a, b, defs, reading, "definitions");
  }

  /** A method's schema with references written out, the root's properties included, is
      synthesized as the same message. */
  lemma InliningKeepsSchema(a: Json, b: Json, name: string)
    requires Alike(a, b, DefsOf(a), false) && SchemaEnds(a)
    ensures SchemaEnds(b) && MessageFromSchema(name, a) == MessageFromSchema(name, b)
  {
    hide Ends, Depth, DefsOf, Alike, Resolve, BuildMessage, SameMessage;
    var defs := DefsOf(a);
    AlikeDefs(a, b, defs, false);
    RootBuilds(a);
    ResolvedInlined(a, b, defs, false);
    InliningKeepsMessage(Resolve(a, defs), Resolve(b, defs), defs);
    SameMessageEnds(Resolve(a, defs), Resolve(b, defs), defs, name);
    RootEndsIf(b, defs);
    RootBuilds(b);
  }

  lemma SameMessageEnds(n: Json, n': Json, defs: Object, name: string)
    requires SameMessage(n, n', defs)
    ensures Ends(Call(BuildsMessage, n), defs) && Ends(Call(BuildsMessage, n'), defs)
    ensures BuildMessage(name, n, defs) == BuildMessage(name, n', defs)
  {
    hide Ends, BuildMessage;
  }

  lemma RootEndsIf(b: Json, defs: Object)
    requires Ends(Call(Resolves, b), defs) && Ends(Call(BuildsMessage, Resolve(b, defs)), defs)
    ensures Ends(Call(BuildsRoot, b), defs)
  {
    hide Ends, Resolve;
    EndsIfNextEnd(Call(BuildsRoot, Resolve(b, defs)), defs);
    EndsBehind(BuildsRoot, b, defs);
  }

  // ---------------------------------------------------------------- where writing out is seen

  /** A property read through a reference is the one its definition gives exactly when it
      says the same beside its type: the reader looks for that at the reference. */
  lemma InlinedPropertyIff(node: Json, d: Json, defs: Object, required: bool)
    requires StandsFor(node, d, defs) && Ends(Call(ReadsType, node), defs)
    ensures Ends(Call(ReadsType, d), defs)
    ensures FieldSchemaOf(node, defs, required) == FieldSchemaOf(d, defs, required) <==> NotesOf(node) == NotesOf(d)
  {
    hide Ends, Depth, FieldTypeOf, FieldSchemaOf, NotesOf, StandsFor;
    StandsIsInlined(node, d, defs);
    InliningKeepsType(node, d, defs);
    SameFieldRead(node, d, defs, required);
  }

  lemma StandsIsInlined(node: Json, d: Json, defs: Object)
    requires StandsFor(node, d, defs)
    ensures Inlined(node, d, defs, true)
  {
    hide StandsFor, Alike;
  }

  lemma {:induction false} NonNullConcat(xs: seq<Json>, ys: seq<Json>)
    ensures NonNull(xs + ys) == NonNull(xs) + NonNull(ys)
  {
    hide SaysNull, NonNull;
    NothingNonNull();
    if xs == [] {
      assert xs + ys == ys;
    } else {
      NonNullStep(xs);
      NonNullStep(xs + ys);
      assert (xs + ys)[1..] == xs[1..] + ys;
      NonNullConcat(xs[1..], ys);
    }
  }

  lemma NonNullOne(x: Json)
    ensures NonNull([x]) == if SaysNull(x) then [] else [x]
  {
    hide SaysNull, NonNull;
    NonNullStep([x]);
    NothingNonNull();
    assert [x][1..] == [];
  }

  lemma NonNullUpdated(xs: seq<Json>, i: nat, d: Json)
    requires i < |xs|
    ensures
      var before, after := NonNull(xs[..i]), NonNull(xs[i + 1..]);
      NonNull(xs) == before + (if SaysNull(xs[i]) then [] else [xs[i]]) + after &&
      NonNull(xs[i := d]) == before + (if SaysNull(d) then [] else [d]) + after
  {
    hide SaysNull, NonNull;
    var ys := xs[i := d];
    assert xs == xs[..i] + [xs[i]] + xs[i + 1..] && ys == xs[..i] + [d] + xs[i + 1..];
    NonNullConcat(xs[..i] + [xs[i]], xs[i + 1..]);
    NonNullConcat(xs[..i], [xs[i]]);
    NonNullConcat(xs[..i] + [d], xs[i + 1..]);
    NonNullConcat(xs[..i], [d]);
    NonNullOne(xs[i]);
    NonNullOne(d);
  }

  function UnionOfAll(xs: seq<Json>): Json { Obj(map["anyOf" := Arr(xs)]) }

  lemma UnionShape(xs: seq<Json>, defs: Object)
    ensures !IsReference(UnionOfAll(xs), defs)
    ensures
      var branches := NonNull(xs);
      ShapeOf(UnionOfAll(xs)) ==
      if |branches| == 0 then Scalar(AnyType) else if |branches| == 1 then One(branches[0]) else Many(branches)
  {
    hide NonNull;
    assert Get(UnionOfAll(xs), "type") == None && Get(UnionOfAll(xs), "enum") == None;
  }

  lemma UnionsAlike(xs: seq<Json>, i: nat, d: Json, defs: Object)
    requires i < |xs| && StandsFor(xs[i], d, defs) && (SaysNull(xs[i]) <==> SaysNull(d))
    ensures Inlined(UnionOfAll(xs), UnionOfAll(xs[i := d]), defs, true)
  {
    hide StandsFor, SaysNull;
    var ys := xs[i := d];
    forall j | 0 <= j < |xs| ensures Inlined(xs[j], ys[j], defs, true) && (SaysNull(xs[j]) <==> SaysNull(ys[j])) {
      if j == i { StandsIsInlined(xs[i], d, defs); } else { SameIsInlined(xs[j], defs, true); }
    }
    hide Inlined;
    assert AlikeBranches(Arr(xs), Arr(ys), defs, true);
    assert AlikeMember("anyOf", Arr(xs), Arr(ys), defs, true);
    AlikeIsInlined(UnionOfAll(xs), UnionOfAll(ys), defs);
  }

  lemma AlikeIsInlined(a: Json, b: Json, defs: Object)
    requires Alike(a, b, defs, true)
    ensures Inlined(a, b, defs, true)
  {
    hide Alike, StandsFor;
  }

  lemma UnionReads(xs: seq<Json>, defs: Object)
    requires Ends(Call(ReadsType, UnionOfAll(xs)), defs)
    ensures
      var t, branches := FieldTypeOf(UnionOfAll(xs), defs), NonNull(xs);
      (forall x | x in branches :: Ends(Call(ReadsType, x), defs)) &&
      (|branches| == 1 ==> t == FieldTypeOf(branches[0], defs)) &&
      (|branches| > 1 ==>
         t.OneOfType? && |t.branches| == |branches| &&
         forall j | 0 <= j < |branches| :: t.branches[j] == FieldTypeOf(branches[j], defs))
  {
    hide Ends, Depth, NonNull, ShapeOf, Resolve, IsReference;
    var node, branches := UnionOfAll(xs), NonNull(xs);
    UnionShape(xs, defs);
    NoReferenceResolves(node, defs);
    forall x | x in branches ensures Ends(Call(ReadsType, x), defs) { PartEnds(x, node, defs); }
    if |branches| > 1 { UnionOf(node, branches, defs); }
  }

  /** A union of two or more alternatives reads the same with a definition written out for
      its `i`-th exactly when that says `null` as the reference did: the filter for `null`
      does not follow references. */
  lemma InlinedBranchIff(xs: seq<Json>, i: nat, d: Json, defs: Object)
    requires i < |xs| && StandsFor(xs[i], d, defs) && |NonNull(xs)| >= 2
    requires Ends(Call(ReadsType, UnionOfAll(xs)), defs) && Ends(Call(ReadsType, UnionOfAll(xs[i := d])), defs)
    ensures FieldTypeOf(UnionOfAll(xs), defs) == FieldTypeOf(UnionOfAll(xs[i := d]), defs) <==>
            (SaysNull(xs[i]) <==> SaysNull(d))
  {
    hide Ends, Depth, NonNull, StandsFor, SaysNull, FieldTypeOf, UnionOfAll, Inlined;
    var ys := xs[i := d];
    if SaysNull(xs[i]) <==> SaysNull(d) {
      UnionsAlike(xs, i, d, defs);
      InliningKeepsType(UnionOfAll(xs), UnionOfAll(ys), defs);
    } else {
      NonNullUpdated(xs, i, d);
      UnionReads(xs, defs);
      UnionReads(ys, defs);
      if |NonNull(ys)| == 1 {
        var y := NonNull(ys)[0];
        var j :| 0 <= j < |NonNull(xs)| && NonNull(xs)[j] == y;
        assert FieldTypeOf(UnionOfAll(xs), defs).branches[j] == FieldTypeOf(y, defs);
      }
    }
  }
}
