/** Which protobuf type a JSON type gets: on documents as they come, on the nullable forms of
    `Option<T>`, and on the printed form of every type of `schema.rs`. The type numbers are
    those of google/protobuf/descriptor.proto. */
module ProtoTypes {
  import opened Text
  import opened Ordering
  import opened JsonSchema
  import opened References
  import opened Messages
  import opened Schema
  import opened SchemaText
  import opened SchemaRoundTrip
  import opened Inlining

  // ---------------------------------------------------------------- types as documents name them

  /** `"type": t`, or an array whose first entry that is a string other than `"null"` is `t`. */
  ghost predicate SaysType(node: Json, t: string) {
    node.Obj? && "type" in node.members &&
    match node.members["type"]
    case Str(s) => s == t
    case Arr(a) => exists i :: FirstType(a, i, t)
    case _ => false
  }

  predicate FirstType(a: seq<Json>, i: nat, t: string) {
    i < |a| && a[i] == Str(t) && t != "null" && forall j | 0 <= j < i :: !a[j].Str? || a[j].s == "null"
  }

  lemma {:induction false} FirstNonNullIff(a: seq<Json>, t: string)
    ensures FirstNonNull(a) == Some(t) <==> exists i :: FirstType(a, i, t)
  {
    if a != [] {
      FirstNonNullIff(a[1..], t);
      if a[0].Str? && a[0].s != "null" {
        if a[0].s == t { assert FirstType(a, 0, t); }
        forall i | FirstType(a, i, t) ensures i == 0 { }
      } else {
        forall i: nat | FirstType(a[1..], i, t) ensures FirstType(a, i + 1, t) {
          forall j | 0 <= j < i + 1 ensures !a[j].Str? || a[j].s == "null" {
            if j > 0 { assert !a[1..][j - 1].Str? || a[1..][j - 1].s == "null"; }
          }
        }
        forall i: nat | FirstType(a, i, t) ensures i > 0 && FirstType(a[1..], i - 1, t) {
          forall j | 0 <= j < i - 1 ensures !a[1..][j].Str? || a[1..][j].s == "null" {
            assert !a[j + 1].Str? || a[j + 1].s == "null";
          }
        }
      }
    }
  }

  lemma SaysTypeIff(node: Json, t: string)
    ensures SaysType(node, t) <==> TypeOf(node) == Some(t)
  {
    hide FirstNonNull, FirstType;
    if node.Obj? && "type" in node.members && node.members["type"].Arr? {
      FirstNonNullIff(node.members["type"].items, t);
    }
  }

  /** No union: neither `anyOf` nor `oneOf`. */
  predicate NoUnion(node: Json) {
    node.Obj? ==> "anyOf" !in node.members && "oneOf" !in node.members
  }

  ghost predicate IsObjectWithProperties(node: Json) {
    SaysType(node, "object") && node.Obj? && "properties" in node.members
  }

  /** The type of a node that refers to no definition and is no union: 3 for integers, 1 for
      numbers, 8 for booleans, 11 and a nested message for objects with properties, and 9,
      text, for all the rest. */
  lemma TypeOfDocument(node: Json, defs: Object, fieldName: string)
    requires !IsReference(node, defs) && NoUnion(node) && Ends(Call(FindsType, node), defs)
    ensures
      var t := ProtoTypeOf(node, defs, fieldName);
      if IsObjectWithProperties(node) then
        Ends(Call(BuildsMessage, node), defs) &&
        var name := PascalCase(fieldName) + "Msg";
        t == ProtoType(11, Some(name), [BuildMessage(name, node, defs)])
      else
        t.typeName == None && t.nested == [] &&
        (SaysType(node, "integer") ==> t.number == 3) && (SaysType(node, "number") ==> t.number == 1) &&
        (SaysType(node, "boolean") ==> t.number == 8) &&
        (!SaysType(node, "integer") && !SaysType(node, "number") && !SaysType(node, "boolean") ==> t.number == 9)
  {
    hide Ends, Depth, BuildMessage, TypeOf, IsReference, PascalCase, SaysType, HasMessage, ScalarNumber;
    NoUnionIsPlain(node);
    HasMessageIff(node);
    NumberOfType(TypeOf(node));
    SaysTypeIff(node, "integer");
    SaysTypeIff(node, "number");
    SaysTypeIff(node, "boolean");
    if HasMessage(node) { ProtoOfMessage(node, defs); } else { ProtoOfScalar(node, defs); }
  }

  lemma NoUnionIsPlain(node: Json)
    requires NoUnion(node)
    ensures Alternatives(node) == None
  {
  }

  lemma HasMessageIff(node: Json)
    ensures HasMessage(node) <==> IsObjectWithProperties(node)
  {
    hide TypeOf, SaysType;
    SaysTypeIff(node, "object");
  }

  lemma NumberOfType(jsonType: Option<string>)
    ensures ScalarNumber(jsonType) ==
            match jsonType
            case Some("integer") => 3 case Some("number") => 1 case Some("boolean") => 8 case _ => 9
  {
  }

  // ---------------------------------------------------------------- unions

  /** The alternatives of a node: under `anyOf`, and only without it under `oneOf`. */
  predicate HasAlternatives(node: Json, xs: seq<Json>) {
    node.Obj? &&
    if "anyOf" in node.members then node.members["anyOf"] == Arr(xs)
    else "oneOf" in node.members && node.members["oneOf"] == Arr(xs)
  }

  /** All alternatives but the `i`-th are `null`. */
  ghost predicate OnlyOne(xs: seq<Json>, i: nat) {
    i < |xs| && forall j | 0 <= j < |xs| :: SaysType(xs[j], "null") <==> j != i
  }

  lemma NullIff(x: Json)
    ensures SaysType(x, "null") <==> SaysNull(x)
  {
    hide TypeOf, SaysType;
    SaysTypeIff(x, "null");
  }

  lemma {:induction false} AllNull(xs: seq<Json>)
    ensures NonNull(xs) == [] <==> forall j | 0 <= j < |xs| :: SaysNull(xs[j])
  {
    hide SaysNull, NonNull;
    if xs == [] {
      NothingNonNull();
    } else {
      NonNullStep(xs);
      AllNull(xs[1..]);
      if forall j | 0 <= j < |xs[1..]| :: SaysNull(xs[1..][j]) {
        forall j | 1 <= j < |xs| ensures SaysNull(xs[j]) { assert SaysNull(xs[1..][j - 1]); }
      }
      if forall j | 0 <= j < |xs| :: SaysNull(xs[j]) {
        forall j | 0 <= j < |xs[1..]| ensures SaysNull(xs[1..][j]) { assert SaysNull(xs[j + 1]); }
      }
    }
  }

  lemma OneNonNull(xs: seq<Json>, i: nat)
    requires i < |xs| && forall j | 0 <= j < |xs| :: SaysNull(xs[j]) <==> j != i
    ensures NonNull(xs) == [xs[i]]
  {
    hide SaysNull, NonNull;
    NonNullUpdated(xs, i, xs[i]);
    AllNull(xs[..i]);
    var after := xs[i + 1..];
    forall j | 0 <= j < |after| ensures SaysNull(after[j]) { assert SaysNull(xs[i + 1 + j]); }
    AllNull(after);
  }

  lemma {:induction false} FindOnly(xs: seq<Json>) returns (i: nat)
    requires |NonNull(xs)| == 1
    ensures i < |xs| && forall j | 0 <= j < |xs| :: SaysNull(xs[j]) <==> j != i
  {
    hide SaysNull, NonNull;
    if xs == [] { NothingNonNull(); }
    NonNullStep(xs);
    if SaysNull(xs[0]) {
      i := FindOnly(xs[1..]);
      forall j | 1 <= j < |xs| ensures SaysNull(xs[j]) <==> j != i + 1 { assert xs[1..][j - 1] == xs[j]; }
      i := i + 1;
    } else {
      i := 0;
      AllNull(xs[1..]);
      forall j | 1 <= j < |xs| ensures SaysNull(xs[j]) { assert SaysNull(xs[1..][j - 1]); }
    }
  }

  lemma OnlyOneIff(xs: seq<Json>)
    ensures |NonNull(xs)| == 1 <==> exists i: nat :: OnlyOne(xs, i)
    ensures forall i: nat | OnlyOne(xs, i) :: NonNull(xs) == [xs[i]]
  {
    hide SaysNull, NonNull, SaysType;
    forall x ensures SaysType(x, "null") <==> SaysNull(x) { NullIff(x); }
    forall i: nat | OnlyOne(xs, i) ensures NonNull(xs) == [xs[i]] {
      forall j | 0 <= j < |xs| ensures SaysNull(xs[j]) <==> j != i { assert SaysType(xs[j], "null") <==> j != i; }
      OneNonNull(xs, i);
    }
    if |NonNull(xs)| == 1 {
      var i := FindOnly(xs);
      assert OnlyOne(xs, i);
    }
  }

  /** A union is what its only alternative beside `null` is, as a protobuf type and as a field
      type; with more alternatives, or none, it travels as text. */
  lemma UnionOfDocument(node: Json, xs: seq<Json>, defs: Object, fieldName: string)
    requires !IsReference(node, defs) && HasAlternatives(node, xs) && Ends(Call(FindsType, node), defs)
    ensures forall i: nat | OnlyOne(xs, i) ::
              Ends(Call(FindsType, xs[i]), defs) &&
              ProtoTypeOf(node, defs, fieldName) == ProtoTypeOf(xs[i], defs, fieldName)
    ensures !(exists i: nat :: OnlyOne(xs, i)) ==> ProtoTypeOf(node, defs, fieldName) == ProtoType(9, None, [])
  {
    hide Ends, Depth, NonNull, IsReference, OnlyOne, ProtoTypeOf;
    AlternativesAre(node, xs);
    OnlyOneIff(xs);
    ProtoOfUnion(node, defs);
  }

  lemma AlternativesAre(node: Json, xs: seq<Json>)
    requires HasAlternatives(node, xs)
    ensures Alternatives(node) == Some(xs)
  {
  }

  lemma UnionReadsAsOnly(node: Json, xs: seq<Json>, i: nat, defs: Object)
    requires !IsReference(node, defs) && HasAlternatives(node, xs) && OnlyOne(xs, i)
    requires Ends(Call(ReadsType, node), defs)
    ensures Ends(Call(ReadsType, xs[i]), defs) && FieldTypeOf(node, defs) == FieldTypeOf(xs[i], defs)
  {
    hide Ends, Depth, NonNull, IsReference, SaysType, Alternatives, PlainShape, Resolve;
    AlternativesAre(node, xs);
    OnlyOneIff(xs);
    NoReferenceResolves(node, defs);
    PartEnds(xs[i], node, defs);
  }

  // ---------------------------------------------------------------- nullable types

  /** The two are read through the same members. */
  lemma LooksTheSame(a: Json, b: Json, defs: Object)
    requires SchemaText.SameType(a, b)
    ensures IsReference(a, defs) <==> IsReference(b, defs)
    ensures IsReference(a, defs) ==> Target(a, defs) == Target(b, defs)
    ensures HasMessage(a) == HasMessage(b) && GetObject(a, "properties") == GetObject(b, "properties")
    ensures Alternatives(a).Some? ==> OnlyBranch(a) == OnlyBranch(b)
  {
    hide TypeOf, RefKey, Alternatives, NonNull;
    assert Member(a, KProperties) == Get(a, "properties") && Member(b, KProperties) == Get(b, "properties");
  }

  lemma SameProperties(a: Json, b: Json)
    requires GetObject(a, "properties") == GetObject(b, "properties")
    ensures FieldNames(a) == FieldNames(b)
    ensures forall k | k in FieldNames(a) :: Property(a, k) == Property(b, k)
  {
    hide GetObject, Sort;
  }

  lemma SameShape(a: Json, b: Json)
    requires SchemaText.SameType(a, b)
    ensures ShapeOf(a) == ShapeOf(b)
  {
    hide TypeOf, RefKey, Alternatives, NonNull, RequiredSet, StringsIn, Member, Name;
  }

  lemma SameMessageBuilt(a: Json, b: Json, defs: Object)
    requires SchemaText.SameType(a, b) && Ends(Call(BuildsMessage, a), defs)
    ensures SameMessage(a, b, defs)
  {
    hide Ends, Depth, FieldNames, Property, SchemaText.SameType, BuildMessage, SameProto, ItemOf, PropertiesAlike,
         GetObject, HasMessage, OnlyBranch, IsReference;
    LooksTheSame(a, b, defs);
    SameProperties(a, b);
    forall k | k in FieldNames(a) ensures PropertiesAlike(a, b, k, defs) {
      ItemOfProperty(a, k, defs);
      SameIsSame(ItemOf(Property(a, k), defs).1, defs);
      AlikeAsProperties(a, b, k, defs);
    }
    MessageEndsFromProperties(a, b, defs);
    forall name ensures BuildMessage(name, a, defs) == BuildMessage(name, b, defs) {
      SameParts(a, b, |FieldNames(a)|, defs);
      MessageFromParts(name, a, b, defs);
    }
  }

  lemma SameIsSame(x: Json, defs: Object)
    requires Ends(Call(FindsType, x), defs)
    ensures SameProto(x, x, defs)
  {
    hide Ends, ProtoTypeOf;
  }

  /** So they are the same protobuf type. */
  lemma SameProtoFound(a: Json, b: Json, defs: Object)
    requires SchemaText.SameType(a, b) && Ends(Call(FindsType, a), defs)
    ensures SameProto(a, b, defs)
  {
    hide Ends, Depth, SchemaText.SameType, ProtoTypeOf, BuildMessage, HasMessage, OnlyBranch, SameMessage, TypeOf,
         Alternatives, RefKey, GetObject;
    LooksTheSame(a, b, defs);
    if IsReference(a, defs) {
      NextEnds(Call(FindsType, a), Call(FindsType, Target(a, defs)), defs);
      ReferenceProto(a, defs);
      EndsThroughReference(FindsType, b, defs);
      ReferenceProto(b, defs);
    } else {
      AlternativesSame(a, b);
      if Alternatives(a).Some? {
        ProtoOfUnion(a, defs);
        UnionEnds(b, defs);
        ProtoOfUnion(b, defs);
      } else if HasMessage(a) {
        ProtoOfMessage(a, defs);
        SameMessageBuilt(a, b, defs);
        SameMessageHolds(a, b, defs);
        MessageEnds(b, defs);
        ProtoOfMessage(b, defs);
      } else {
        ProtoOfScalar(a, defs);
        ProtoOfScalar(b, defs);
      }
    }
  }

  lemma AlternativesSame(a: Json, b: Json)
    requires SchemaText.SameType(a, b)
    ensures Alternatives(a) == Alternatives(b) && TypeOf(a) == TypeOf(b)
  {
    hide TypeOf, Alternatives, RefKey;
  }

  lemma SameMessageHolds(a: Json, b: Json, defs: Object)
    requires SameMessage(a, b, defs)
    ensures Ends(Call(BuildsMessage, a), defs) && Ends(Call(BuildsMessage, b), defs)
    ensures forall name :: BuildMessage(name, a, defs) == BuildMessage(name, b, defs)
  {
    hide Ends, BuildMessage;
  }

  lemma ReferenceProto(node: Json, defs: Object)
    requires IsReference(node, defs) && Ends(Call(FindsType, node), defs)
    ensures Ends(Call(FindsType, Target(node, defs)), defs)
    ensures forall name :: ProtoTypeOf(node, defs, name) == ProtoTypeOf(Target(node, defs), defs, name)
  {
    hide Ends, Depth, RefKey, Alternatives, BuildMessage, HasMessage, TypeOf, OnlyBranch;
    NextEnds(Call(FindsType, node), Call(FindsType, Target(node, defs)), defs);
    CallResolves(Call(FindsType, node), defs);
    CallResolves(Call(FindsType, Target(node, defs)), defs);
    StepResolves(node, defs);
  }

  lemma EndsThroughReference(role: Role, node: Json, defs: Object)
    requires role != BuildsMessage && IsReference(node, defs) && Ends(Call(role, Target(node, defs)), defs)
    ensures Ends(Call(role, node), defs)
  {
    hide Ends, RefKey;
    EndsIfNextEnd(Call(role, node), defs);
  }

  /** And the same field type. */
  lemma SameTypeFound(a: Json, b: Json, defs: Object)
    requires SchemaText.SameType(a, b) && Ends(Call(ReadsType, a), defs)
    ensures Ends(Call(ReadsType, b), defs) && FieldTypeOf(a, defs) == FieldTypeOf(b, defs)
  {
    hide Ends, Depth, SchemaText.SameType, FieldTypeOf, ShapeOf, RefKey, Resolve, Inlined, AlikeShapes, Holds;
    hide StandsFor;
    LooksTheSame(a, b, defs);
    if IsReference(a, defs) {
      var d := Target(a, defs);
      NextEnds(Call(ReadsType, a), Call(ReadsType, d), defs);
      EndsThroughReference(ReadsType, b, defs);
      StandsForIff(a, d, defs);
      StandsForIff(b, d, defs);
      StandsIsInlined(a, d, defs);
      StandsIsInlined(b, d, defs);
      InliningKeepsType(a, d, defs);
      InliningKeepsType(b, d, defs);
    } else {
      NoReferenceResolves(a, defs);
      NoReferenceResolves(b, defs);
      SameShape(a, b);
      var s := ShapeOf(a);
      SameIsAlike(s, defs);
      forall p, p' | Holds(s, p) && Holds(s, p') && Inlined(p, p', defs, true) ensures SameRead(p, p', defs) {
        PartEnds(p, a, defs);
        InliningKeepsType(p, p', defs);
      }
      forall p | PartOf(p, Resolve(b, defs)) ensures Ends(Call(ReadsType, p), defs) { PartEnds(p, a, defs); }
      EndsFromParts(b, defs);
      SameTypeRead(a, b, defs);
    }
  }

  /** And added as the same property. */
  lemma SamePropertyFound(a: Json, b: Json, defs: Object)
    requires SchemaText.SameType(a, b) && Ends(Call(AddsProperty, a), defs)
    ensures Ends(Call(AddsProperty, b), defs) && ItemOf(a, defs).0 == ItemOf(b, defs).0
    ensures SameProto(ItemOf(a, defs).1, ItemOf(b, defs).1, defs)
  {
    hide Ends, Depth, SchemaText.SameType, RefKey, Resolve, ItemOf, SameProto, TypeOf, StandsFor;
    LooksTheSame(a, b, defs);
    if IsReference(a, defs) {
      var d := Target(a, defs);
      NextEnds(Call(AddsProperty, a), Call(AddsProperty, d), defs);
      EndsThroughReference(AddsProperty, b, defs);
      StandsForIff(a, d, defs);
      StandsForIff(b, d, defs);
      ReferenceProperty(a, d, defs);
      ReferenceProperty(b, d, defs);
      SameProtoBetween(ItemOf(a, defs).1, ItemOf(d, defs).1, ItemOf(b, defs).1, defs);
    } else {
      PlainPropertyFound(a, b, defs);
    }
  }

  lemma SameProtoBetween(a: Json, d: Json, b: Json, defs: Object)
    requires SameProto(a, d, defs) && SameProto(b, d, defs)
    ensures SameProto(a, b, defs)
  {
    hide Ends, ProtoTypeOf;
    forall name ensures ProtoTypeOf(a, defs, name) == ProtoTypeOf(b, defs, name) {
      assert ProtoTypeOf(a, defs, name) == ProtoTypeOf(d, defs, name);
      assert ProtoTypeOf(b, defs, name) == ProtoTypeOf(d, defs, name);
    }
  }

  lemma ReferenceProperty(node: Json, d: Json, defs: Object)
    requires StandsFor(node, d, defs) && Ends(Call(AddsProperty, node), defs)
    ensures Ends(Call(AddsProperty, d), defs) && ItemOf(node, defs).0 == ItemOf(d, defs).0
    ensures SameProto(ItemOf(node, defs).1, ItemOf(d, defs).1, defs)
  {
    hide Ends, Depth, StandsFor, ItemOf, SameProto, Alike;
    assert Inlined(node, d, defs, false);
    InliningKeepsProperty(node, d, defs);
  }

  lemma PlainPropertyFound(a: Json, b: Json, defs: Object)
    requires SchemaText.SameType(a, b) && Ends(Call(AddsProperty, a), defs)
    requires !IsReference(a, defs) && !IsReference(b, defs)
    ensures Ends(Call(AddsProperty, b), defs) && ItemOf(a, defs).0 == ItemOf(b, defs).0
    ensures SameProto(ItemOf(a, defs).1, ItemOf(b, defs).1, defs)
  {
    hide Ends, Depth, SchemaText.SameType, RefKey, Resolve, ItemOf, SameProto, TypeOf;
    NoReferenceResolves(a, defs);
    NoReferenceResolves(b, defs);
    ItemsSame(a, b);
    if TypeOf(a) == Some("array") {
      ItemOfArray(a, defs);
      PropertyEndsIf(b, defs);
      ItemOfArray(b, defs);
      SameIsSame(ItemOf(a, defs).1, defs);
    } else {
      ItemOfPlain(a, defs);
      SameProtoFound(a, b, defs);
      ProtoEnds(a, b, defs);
      PropertyEndsIf(b, defs);
      ItemOfPlain(b, defs);
    }
  }

  lemma ItemsSame(a: Json, b: Json)
    requires SchemaText.SameType(a, b)
    ensures TypeOf(a) == TypeOf(b) && Get(a, "items") == Get(b, "items")
  {
    hide TypeOf, RefKey, Alternatives;
    assert Member(a, KItems) == Get(a, "items") && Member(b, KItems) == Get(b, "items");
  }

  /** A type made nullable by naming `null` behind it, or before it. */
  predicate Nullable(types: seq<Json>, x: string) {
    x != "null" && (types == [Str(x), Str("null")] || types == [Str("null"), Str(x)])
  }

  lemma NullableLooksTheSame(m: Object, x: string, types: seq<Json>)
    requires Nullable(types, x)
    ensures SchemaText.SameType(Obj(m["type" := Str(x)]), Obj(m["type" := Arr(types)]))
  {
    hide TypeOf, LastSegment;
    var a, b := Obj(m["type" := Str(x)]), Obj(m["type" := Arr(types)]);
    assert FirstType(types, if types[0] == Str(x) then 0 else 1, x);
    SaysTypeIff(a, x);
    SaysTypeIff(b, x);
    OtherMembersStay(m, Str(x), Arr(types));
  }

  lemma OtherMembersStay(m: Object, x: Json, y: Json)
    ensures
      var a, b := Obj(m["type" := x]), Obj(m["type" := y]);
      RefKey(a) == RefKey(b) && Alternatives(a) == Alternatives(b) && Member(a, KEnum) == Member(b, KEnum) &&
      Member(a, KItems) == Member(b, KItems) && Member(a, KProperties) == Member(b, KProperties) &&
      Member(a, KRequired) == Member(b, KRequired)
  {
    hide LastSegment;
  }

  /** Whatever else the schema says: `type: [x, "null"]` is synthesized and read as `x` is, as
      a type and as a property. */
  lemma NullableTypeIsType(m: Object, x: string, types: seq<Json>, defs: Object)
    requires Nullable(types, x)
    ensures
      var a, b := Obj(m["type" := Str(x)]), Obj(m["type" := Arr(types)]);
      (Ends(Call(FindsType, a), defs) ==> SameProto(a, b, defs)) &&
      (Ends(Call(ReadsType, a), defs) ==>
         Ends(Call(ReadsType, b), defs) && FieldTypeOf(a, defs) == FieldTypeOf(b, defs)) &&
      (Ends(Call(AddsProperty, a), defs) ==>
         Ends(Call(AddsProperty, b), defs) && ItemOf(a, defs).0 == ItemOf(b, defs).0 &&
         SameProto(ItemOf(a, defs).1, ItemOf(b, defs).1, defs))
  {
    hide Ends, Depth, SchemaText.SameType, FieldTypeOf, ItemOf, SameProto, Nullable;
    var a, b := Obj(m["type" := Str(x)]), Obj(m["type" := Arr(types)]);
    NullableLooksTheSame(m, x, types);
    if Ends(Call(FindsType, a), defs) { SameProtoFound(a, b, defs); }
    if Ends(Call(ReadsType, a), defs) { SameTypeFound(a, b, defs); }
    if Ends(Call(AddsProperty, a), defs) { SamePropertyFound(a, b, defs); }
  }

  /** `Option<T>` as a union: as a property it is the type of the one alternative, never
      repeated; so it is the same property exactly when the alternative is no array. */
  lemma OptionalProperty(node: Json, xs: seq<Json>, i: nat, defs: Object)
    requires !IsReference(node, defs) && HasAlternatives(node, xs) && OnlyOne(xs, i) && "type" !in node.members
    requires Ends(Call(AddsProperty, node), defs) && Ends(Call(AddsProperty, xs[i]), defs)
    ensures !ItemOf(node, defs).0 && SameProto(ItemOf(node, defs).1, xs[i], defs)
    ensures Ends(Call(Resolves, xs[i]), defs)
    ensures ItemOf(xs[i], defs).0 <==> SaysType(Resolve(xs[i], defs), "array")
  {
    hide Ends, Depth, IsReference, Resolve, ProtoTypeOf, OnlyOne, SaysType, ItemOf, HasAlternatives, TypeOf;
    OnlyIsInside(xs, i);
    var x := xs[i];
    NoReferenceResolves(node, defs);
    HasNoType(node, xs);
    ItemOfPlain(node, defs);
    UnionOfDocument(node, xs, defs, "");
    forall name
      ensures Ends(Call(FindsType, x), defs) && ProtoTypeOf(node, defs, name) == ProtoTypeOf(x, defs, name)
    {
      UnionOfDocument(node, xs, defs, name);
    }
    CallResolves(Call(AddsProperty, x), defs);
    SaysTypeIff(Resolve(x, defs), "array");
    if TypeOf(Resolve(x, defs)) == Some("array") { ItemOfArray(x, defs); } else { ItemOfPlain(x, defs); }
  }

  lemma OnlyIsInside(xs: seq<Json>, i: nat)
    requires OnlyOne(xs, i)
    ensures i < |xs|
  {
  }

  lemma HasNoType(node: Json, xs: seq<Json>)
    requires HasAlternatives(node, xs) && "type" !in node.members
    ensures TypeOf(node) == None
  {
  }

  // ---------------------------------------------------------------- printed types

  /** The protobuf type of one value of the type: text for enums, for anything, for arrays
      inside arrays and for unions of several branches. */
  function ItemNumber(t: FieldType): nat {
    match t
    case IntegerType => 3
    case FloatType => 1
    case BooleanType => 8
    case ObjectType(_) => 11
    case OneOfType(branches) => if |branches| == 1 then ItemNumber(branches[0]) else 9
    case _ => 9
  }

  /** The object a value of the type is, if it is a message. */
  function ItemObject(t: FieldType): (r: Option<FieldType>)
    ensures r.Some? ==> r.value.ObjectType? && (r.value == t || r.value < t)
    ensures r.Some? <==> ItemNumber(t) == 11
  {
    match t
    case ObjectType(_) => Some(t)
    case OneOfType(branches) => if |branches| == 1 then ItemObject(branches[0]) else None
    case _ => None
  }

  /** An array is a repeated field of its item type. */
  function ItemType(t: FieldType): FieldType { if t.ArrayType? then t.item else t }

  /** The message for the fields of an object type, straight from the type: the fields in name
      order, numbered from 1, and a nested message for each that holds objects. */
  function Declared(name: string, t: FieldType): MessageDef
    requires t.ObjectType?
    decreases t, 1
  {
    MessageDef(name, DeclaredFields(t), NestedUpTo(t, |t.fields|))
  }

  function DeclaredFields(t: FieldType): (r: seq<FieldDef>)
    requires t.ObjectType?
    ensures |r| == |t.fields|
  {
    var names := Keys(t.fields.Keys);
    seq(|names|, i requires 0 <= i < |names| =>
      assert names[i] in names; DeclaredField(names[i], i + 1, t.fields[names[i]].fieldType))
  }

  function DeclaredField(name: string, number: nat, t: FieldType): FieldDef {
    FieldDef(name, number, t.ArrayType?, ItemNumber(ItemType(t)),
             if ItemNumber(ItemType(t)) == 11 then Some(PascalCase(name) + "Msg") else None)
  }

  function NestedUpTo(t: FieldType, n: nat): seq<MessageDef>
    requires t.ObjectType? && n <= |t.fields|
    decreases t, 0, n
  {
    if n == 0 then [] else
      var k := Keys(t.fields.Keys)[n - 1];
      assert k in Keys(t.fields.Keys);
      NestedUpTo(t, n - 1) +
      (match ItemObject(ItemType(t.fields[k].fieldType))
       case Some(object_) => [Declared(PascalCase(k) + "Msg", object_)]
       case None => [])
  }

  function ExpectedProto(t: FieldType, fieldName: string): ProtoType {
    match ItemObject(t)
    case Some(object_) =>
      var name := PascalCase(fieldName) + "Msg";
      ProtoType(11, Some(name), [Declared(name, object_)])
    case None => ProtoType(ItemNumber(t), None, [])
  }

  /** What a printed node is synthesized from. */
  ghost predicate LooksPrinted(t: FieldType, node: Json) {
    RefKey(node) == None && (Alternatives(node).Some? <==> t.OneOfType?) &&
    (t.OneOfType? ==> Alternatives(node) == Some(BranchNodes(t))) &&
    (t.ArrayType? <==> TypeOf(node) == Some("array")) &&
    (t.ArrayType? ==> Get(node, "items") == Some(Obj(TypeNode(t.item)))) &&
    (t.ObjectType? <==> HasMessage(node)) && (t.ObjectType? ==> GetObject(node, "properties") == Some(FieldNodes(t))) &&
    (!t.ObjectType? && !t.OneOfType? ==> ScalarNumber(TypeOf(node)) == ItemNumber(t))
  }

  lemma ScalarLooksPrinted(t: FieldType, k: Keyword, node: Json)
    requires SchemaText.SameType(Obj(ScalarNode(k)), node)
    requires (t, k) in {(StringType, KString), (IntegerType, KInteger), (FloatType, KNumber), (BooleanType, KBoolean)}
    ensures LooksPrinted(t, node)
  {
    hide Name, TypeOf, RefKey, ScalarNode, Alternatives, SchemaText.SameType, ScalarNumber, BranchNodes, FieldNodes,
         TypeNode;
    ScalarReadsBack(k, node);
    NumberOfType(TypeOf(node));
    PlainTypeNames();
  }

  lemma PlainTypeNames()
    ensures Name(KString) == "string" && Name(KInteger) == "integer" && Name(KNumber) == "number"
    ensures Name(KBoolean) == "boolean" && Name(KArray) == "array" && Name(KObject) == "object"
  {
  }

  lemma MembersOf(node: Json)
    ensures Get(node, "items") == Member(node, KItems) && Get(node, "properties") == Member(node, KProperties)
    ensures HasMessage(node) <==> TypeOf(node) == Some("object") && Member(node, KProperties).Some?
  {
    hide TypeOf;
  }

  lemma AnyLooksPrinted(node: Json)
    requires SchemaText.SameType(Obj(map[]), node)
    ensures LooksPrinted(AnyType, node)
  {
    hide Name, TypeOf, RefKey, Alternatives, ScalarNumber, Member, HasMessage;
    MembersOf(node);
    NumberOfType(TypeOf(node));
    EmptyMember();
    ThroughMembers(Obj(map[]));
  }

  lemma EnumLooksPrinted(names: seq<string>, node: Json)
    requires SchemaText.SameType(Obj(EnumNode(names)), node)
    ensures LooksPrinted(EnumType(names), node)
  {
    hide Name, TypeOf, RefKey, EnumNode, Alternatives, ScalarNumber, Member, HasMessage, Strings;
    MembersOf(node);
    PlainTypeNames();
    NumberOfType(TypeOf(node));
    EnumMembers(names);
    ThroughMembers(Obj(EnumNode(names)));
  }

  lemma UnionLooksPrinted(t: FieldType, node: Json)
    requires t.OneOfType? && SchemaText.SameType(Obj(UnionNode(BranchNodes(t))), node)
    ensures LooksPrinted(t, node)
  {
    hide Name, TypeOf, RefKey, UnionNode, Alternatives, ScalarNumber, Member, HasMessage, BranchNodes;
    MembersOf(node);
    UnionMembers(BranchNodes(t));
    ThroughMembers(Obj(UnionNode(BranchNodes(t))));
  }

  lemma ArrayLooksPrinted(item: FieldType, node: Json)
    requires SchemaText.SameType(Obj(ArrayNode(Obj(TypeNode(item)))), node)
    ensures LooksPrinted(ArrayType(item), node)
  {
    hide Name, TypeOf, RefKey, ArrayNode, Alternatives, ScalarNumber, Member, HasMessage, TypeNode;
    MembersOf(node);
    PlainTypeNames();
    NumberOfType(TypeOf(node));
    ArrayMembers(Obj(TypeNode(item)));
    ThroughMembers(Obj(ArrayNode(Obj(TypeNode(item)))));
  }

  lemma ObjectLooksPrinted(t: FieldType, node: Json)
    requires t.ObjectType? && SchemaText.SameType(Obj(ObjectNode(map[], FieldNodes(t), RequiredJson(t.fields))), node)
    ensures LooksPrinted(t, node)
  {
    hide Name, TypeOf, RefKey, ObjectNode, Alternatives, ScalarNumber, Member, HasMessage, FieldNodes, RequiredJson;
    MembersOf(node);
    PlainTypeNames();
    EmptyMember();
    ObjectMembers(map[], FieldNodes(t), RequiredJson(t.fields));
    ThroughMembers(Obj(ObjectNode(map[], FieldNodes(t), RequiredJson(t.fields))));
  }

  lemma PrintedLooks(t: FieldType, node: Json)
    requires SchemaText.SameType(Obj(TypeNode(t)), node)
    ensures LooksPrinted(t, node)
  {
    hide LooksPrinted, ScalarNode, EnumNode, UnionNode, ArrayNode, ObjectNode, BranchNodes, FieldNodes, RequiredJson,
         SchemaText.SameType;
    match t
    case StringType => ScalarLooksPrinted(t, KString, node);
    case IntegerType => ScalarLooksPrinted(t, KInteger, node);
    case FloatType => ScalarLooksPrinted(t, KNumber, node);
    case BooleanType => ScalarLooksPrinted(t, KBoolean, node);
    case AnyType => AnyLooksPrinted(node);
    case EnumType(names) => EnumLooksPrinted(names, node);
    case OneOfType(_) => UnionLooksPrinted(t, node);
    case ArrayType(item) => ArrayLooksPrinted(item, node);
    case ObjectType(_) => ObjectLooksPrinted(t, node);
  }

  ghost predicate FindsExpected(t: FieldType, node: Json, defs: Object) {
    Ends(Call(FindsType, node), defs) && forall name :: ProtoTypeOf(node, defs, name) == ExpectedProto(t, name)
  }

  ghost predicate BuildsDeclared(t: FieldType, node: Json, defs: Object)
    requires t.ObjectType?
  {
    Ends(Call(BuildsMessage, node), defs) && forall name :: BuildMessage(name, node, defs) == Declared(name, t)
  }

  ghost predicate AddsDeclared(t: FieldType, fnode: Json, defs: Object) {
    Ends(Call(AddsProperty, fnode), defs) && ItemOf(fnode, defs).0 == t.ArrayType? &&
    FindsExpected(ItemType(t), ItemOf(fnode, defs).1, defs)
  }

  /** A printed type is synthesized as its number says, whatever stands beside it in the node
      and whatever definitions there are. */
  lemma {:induction false} PrintedProto(t: FieldType, node: Json, defs: Object)
    requires SchemaText.SameType(Obj(TypeNode(t)), node)
    ensures FindsExpected(t, node, defs)
    decreases t, 1
  {
    hide Ends, Depth, SchemaText.SameType, ProtoTypeOf, OnlyBranch, Alternatives, HasMessage, TypeOf, RefKey,
         BranchNodes, FieldNodes, TypeNode, BuildMessage, Declared, ScalarNumber, PascalCase, GetObject;
    PrintedLooks(t, node);
    match t
    case OneOfType(branches) =>
      PrintedBranch(t, node);
      if |branches| == 1 {
        Reflexive(Obj(TypeNode(branches[0])));
        PrintedProto(branches[0], BranchNodes(t)[0], defs);
      }
      UnionEnds(node, defs);
      ProtoOfUnion(node, defs);
    case ObjectType(_) =>
      PrintedMessage(t, node, defs);
      MessageEnds(node, defs);
      ProtoOfMessage(node, defs);
    case _ =>
      ProtoOfScalar(node, defs);
  }

  lemma PrintedBranch(t: FieldType, node: Json)
    requires t.OneOfType? && Alternatives(node) == Some(BranchNodes(t))
    ensures OnlyBranch(node) == if |t.branches| == 1 then Some(Obj(TypeNode(t.branches[0]))) else None
  {
    hide Alternatives, NonNull, TypeNode;
    BranchesAreNotNull(t);
  }

  lemma {:induction false} PrintedMessage(t: FieldType, node: Json, defs: Object)
    requires t.ObjectType? && GetObject(node, "properties") == Some(FieldNodes(t))
    ensures BuildsDeclared(t, node, defs)
    decreases t, 0
  {
    hide Ends, Depth, BuildMessage, Declared, FieldNode, Property, FieldNames, AddsDeclared;
    NamesOfPrinted(t, node);
    forall k | k in t.fields ensures AddsDeclared(t.fields[k].fieldType, Property(node, k), defs) {
      FieldIsTyped(t.fields[k], Obj(FieldNode(t.fields[k])));
      PrintedProperty(t.fields[k].fieldType, Property(node, k), defs);
    }
    PrintedMessageEnds(t, node, defs);
    forall name ensures BuildMessage(name, node, defs) == Declared(name, t) {
      PrintedParts(t, node, |t.fields|, defs);
      DeclaredFromParts(name, t, node, defs);
    }
  }

  lemma NamesOfPrinted(t: FieldType, node: Json)
    requires t.ObjectType? && GetObject(node, "properties") == Some(FieldNodes(t))
    ensures FieldNames(node) == Keys(t.fields.Keys)
    ensures forall k | k in t.fields :: k in FieldNames(node) && Property(node, k) == Obj(FieldNode(t.fields[k]))
  {
    hide FieldNode, Sort;
  }

  lemma PrintedMessageEnds(t: FieldType, node: Json, defs: Object)
    requires t.ObjectType? && FieldNames(node) == Keys(t.fields.Keys)
    requires forall k | k in t.fields ::
               k in FieldNames(node) && AddsDeclared(t.fields[k].fieldType, Property(node, k), defs)
    ensures Ends(Call(BuildsMessage, node), defs)
  {
    hide Ends, Depth, FieldNames, Property, Next, ItemOf, FindsExpected, Sort;
    forall d | d in Next(Call(BuildsMessage, node), defs) ensures Ends(d, defs) {
      var k := NextOfMessage(node, d, defs);
      assert k in t.fields;
    }
    EndsIfNextEnd(Call(BuildsMessage, node), defs);
  }

  lemma {:induction false} PrintedProperty(t: FieldType, fnode: Json, defs: Object)
    requires SchemaText.SameType(Obj(TypeNode(t)), fnode)
    ensures AddsDeclared(t, fnode, defs)
    decreases t, 2
  {
    hide Ends, Depth, SchemaText.SameType, TypeOf, RefKey, BranchNodes, FieldNodes, TypeNode, ItemOf, FindsExpected,
         Alternatives, HasMessage, ScalarNumber, ItemNumber, GetObject;
    PrintedLooks(t, fnode);
    NoReferenceResolves(fnode, defs);
    if t.ArrayType? {
      var item := Obj(TypeNode(t.item));
      Reflexive(item);
      PrintedProto(t.item, item, defs);
      ExpectedEnds(t.item, item, defs);
      PropertyEndsIf(fnode, defs);
      ItemOfArray(fnode, defs);
      PrintedLooks(t.item, item);
      NoReferenceResolves(item, defs);
    } else {
      PrintedProto(t, fnode, defs);
      ExpectedEnds(t, fnode, defs);
      PropertyEndsIf(fnode, defs);
      ItemOfPlain(fnode, defs);
    }
  }

  lemma ExpectedEnds(t: FieldType, node: Json, defs: Object)
    requires FindsExpected(t, node, defs)
    ensures Ends(Call(FindsType, node), defs)
  {
  }

  /** One more field declared. */
  lemma DeclaredStep(t: FieldType, n: nat, k: string)
    requires t.ObjectType? && 0 < n <= |t.fields| && k == Keys(t.fields.Keys)[n - 1]
    ensures k in t.fields
    ensures DeclaredFields(t)[..n] == DeclaredFields(t)[..n - 1] + [DeclaredField(k, n, t.fields[k].fieldType)]
    ensures NestedUpTo(t, n) == NestedUpTo(t, n - 1) +
              match ItemObject(ItemType(t.fields[k].fieldType))
              case Some(object_) => [Declared(PascalCase(k) + "Msg", object_)]
              case None => []
  {
    hide Sort, DeclaredField, Declared, ItemObject, PascalCase;
    assert k in Keys(t.fields.Keys);
    var fields := DeclaredFields(t);
    assert fields[..n] == fields[..n - 1] + [fields[n - 1]];
  }

  lemma {:induction false} PrintedParts(t: FieldType, node: Json, n: nat, defs: Object)
    requires t.ObjectType? && n <= |t.fields| && FieldNames(node) == Keys(t.fields.Keys)
    requires Ends(Call(BuildsMessage, node), defs)
    requires forall k | k in t.fields ::
               k in FieldNames(node) && AddsDeclared(t.fields[k].fieldType, Property(node, k), defs)
    ensures PartsUpTo(node, n, defs) == Parts(DeclaredFields(t)[..n], NestedUpTo(t, n))
    decreases n
  {
    hide Ends, Depth, FieldNames, Property, AddsDeclared, AddProperty, Sort, ItemObject, DeclaredField, DeclaredFields,
         NestedUpTo, Declared, PascalCase;
    if n == 0 {
      NothingNested(t);
    } else {
      PrintedParts(t, node, n - 1, defs);
      var k := Keys(t.fields.Keys)[n - 1];
      DeclaredStep(t, n, k);
      PrintedAdded(Parts(DeclaredFields(t)[..n - 1], NestedUpTo(t, n - 1)), t.fields[k].fieldType, node, k, defs);
    }
  }

  lemma NothingNested(t: FieldType)
    requires t.ObjectType?
    ensures NestedUpTo(t, 0) == []
  {
  }

  lemma PrintedAdded(before: Parts, t: FieldType, node: Json, k: string, defs: Object)
    requires Ends(Call(BuildsMessage, node), defs) && k in FieldNames(node) && AddsDeclared(t, Property(node, k), defs)
    ensures
      var after := AddProperty(before, node, k, defs);
      after.fields == before.fields + [DeclaredField(k, |before.fields| + 1, t)] &&
      after.nested == before.nested +
        match ItemObject(ItemType(t))
        case Some(object_) => [Declared(PascalCase(k) + "Msg", object_)]
        case None => []
  {
    hide Ends, Depth, FieldNames, Property, ItemOf, ProtoTypeOf, PropertyItem, Declared, PascalCase;
    ItemOfProperty(node, k, defs);
    assert ProtoTypeOf(ItemOf(Property(node, k), defs).1, defs, k) == ExpectedProto(ItemType(t), k);
  }

  lemma DeclaredFromParts(name: string, t: FieldType, node: Json, defs: Object)
    requires t.ObjectType? && FieldNames(node) == Keys(t.fields.Keys) && Ends(Call(BuildsMessage, node), defs)
    requires PartsUpTo(node, |t.fields|, defs) == Parts(DeclaredFields(t)[..|t.fields|], NestedUpTo(t, |t.fields|))
    ensures BuildMessage(name, node, defs) == Declared(name, t)
  {
    hide Ends, Depth, FieldNames, PartsUpTo, NestedUpTo, DeclaredFields, Sort;
  }

  /** The message synthesized from a printed object type is the one declared by the type, at
      every depth: printing and synthesis agree on every type of `schema.rs`. */
  lemma PrintedObjectIsDeclared(name: string, t: FieldType)
    requires t.ObjectType?
    ensures SchemaEnds(Obj(TypeNode(t))) && MessageFromSchema(name, Obj(TypeNode(t))) == Declared(name, t)
  {
    hide Ends, Depth, TypeNode, BuildMessage, Declared, DefsOf, HasMessage, TypeOf, RefKey, ScalarNumber, FieldNodes,
         GetObject, Resolve;
    var node := Obj(TypeNode(t));
    var defs := DefsOf(node);
    Reflexive(node);
    PrintedLooks(t, node);
    NoReferenceResolves(node, defs);
    PrintedMessage(t, node, defs);
    RootEndsIf(node, defs);
    RootBuilds(node);
  }
}
