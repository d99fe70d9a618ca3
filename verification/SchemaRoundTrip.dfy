/** Reading a printed schema back: what a round trip keeps, what it normalizes, and which
    schemas it returns unchanged. */
module SchemaRoundTrip {
  import opened Text
  import opened Ordering
  import opened JsonSchema
  import opened References
  import opened Schema
  import opened SchemaText

  // ---------------------------------------------------------------- types

  lemma BranchesAreNotNull(t: FieldType)
    requires t.OneOfType?
    ensures NonNull(BranchNodes(t)) == BranchNodes(t)
  {
    hide Name, TypeOf, RefKey, TypeNode, Member;
    var nodes := BranchNodes(t);
    forall a | a in nodes ensures TypeOf(a) != Some(Name(KNull)) {
      var i :| 0 <= i < |nodes| && nodes[i] == a;
      assert a == Obj(TypeNode(t.branches[i]));
      PrintedType(t.branches[i]);
    }
    AllNonNull(nodes);
  }

  lemma BranchesReadBack(t: FieldType, node: Json)
    requires t.OneOfType? && SameType(Obj(UnionNode(BranchNodes(t))), node)
    ensures RefKey(node) == None && ShapeOf(node) == PrintedShape(t)
  {
    hide Name, Member, TypeOf, RefKey, UnionNode, TypeNode, Alternatives, NonNull, BranchNodes;
    var nodes := BranchNodes(t);
    UnionMembers(nodes);
    ThroughMembers(Obj(UnionNode(nodes)));
    BranchesAreNotNull(t);
  }

  /** What a plain node reads as, by the name of its type. */
  lemma ScalarByName(n: Json, k: Keyword)
    requires Alternatives(n) == None && Member(n, KEnum) == None && TypeOf(n) == Some(Name(k))
    ensures k == KString ==> ShapeOf(n) == Scalar(StringType)
    ensures k == KInteger ==> ShapeOf(n) == Scalar(IntegerType)
    ensures k == KNumber ==> ShapeOf(n) == Scalar(FloatType)
    ensures k == KBoolean ==> ShapeOf(n) == Scalar(BooleanType)
  {
    NamesDiffer();
    hide Name, Member, TypeOf, Alternatives, RequiredSet, StringsIn, NonNull, AsObject;
  }

  lemma ArrayByName(n: Json)
    requires Alternatives(n) == None && Member(n, KEnum) == None && TypeOf(n) == Some(Name(KArray))
    ensures ShapeOf(n) == ArrayOf(Member(n, KItems))
  {
    NamesDiffer();
    hide Name, Member, TypeOf, Alternatives, RequiredSet, StringsIn, NonNull, AsObject;
  }

  lemma ObjectByName(n: Json)
    requires Alternatives(n) == None && Member(n, KEnum) == None && TypeOf(n) == Some(Name(KObject))
    requires Member(n, KProperties).Some? && Member(n, KProperties).value.Obj?
    ensures ShapeOf(n) == ObjectOf(Member(n, KProperties).value.members, RequiredSet(Member(n, KRequired)))
  {
    NamesDiffer();
    hide Name, Member, TypeOf, Alternatives, RequiredSet, StringsIn, NonNull;
  }

  lemma ObjectReadsBack(t: FieldType, node: Json)
    requires t.ObjectType? && SameType(Obj(ObjectNode(map[], FieldNodes(t), RequiredJson(t.fields))), node)
    ensures RefKey(node) == None && ShapeOf(node) == PrintedShape(t)
  {
    hide Name, Member, TypeOf, RefKey, ObjectNode, FieldNodes, RequiredJson, RequiredSet, Alternatives, ShapeOf;
    EmptyMember();
    ObjectMembers(map[], FieldNodes(t), RequiredJson(t.fields));
    ThroughMembers(Obj(ObjectNode(map[], FieldNodes(t), RequiredJson(t.fields))));
    ObjectByName(node);
  }

  lemma ScalarReadsBack(k: Keyword, node: Json)
    requires SameType(Obj(ScalarNode(k)), node)
    ensures RefKey(node) == None && Alternatives(node) == None && Member(node, KEnum) == None
    ensures TypeOf(node) == Some(Name(k))
  {
    hide Name, Member, TypeOf, RefKey, ScalarNode, Alternatives;
    ScalarMembers(k);
    ThroughMembers(Obj(ScalarNode(k)));
  }

  lemma EnumReadsBack(names: seq<string>, node: Json)
    requires SameType(Obj(EnumNode(names)), node)
    ensures RefKey(node) == None && ShapeOf(node) == Scalar(EnumType(names))
  {
    hide Name, Member, TypeOf, RefKey, EnumNode, Alternatives, Strings, StringsIn;
    EnumMembers(names);
    ThroughMembers(Obj(EnumNode(names)));
    StringsRoundTrip(names);
  }

  lemma ArrayReadsBack(item: Json, node: Json)
    requires SameType(Obj(ArrayNode(item)), node)
    ensures RefKey(node) == None && ShapeOf(node) == ArrayOf(Some(item))
  {
    hide Name, Member, TypeOf, RefKey, ArrayNode, Alternatives, ShapeOf;
    ArrayMembers(item);
    ThroughMembers(Obj(ArrayNode(item)));
    ArrayByName(node);
  }

  lemma AnyReadsBack(node: Json)
    requires SameType(Obj(map[]), node)
    ensures RefKey(node) == None && ShapeOf(node) == Scalar(AnyType)
  {
    hide Name, Member, TypeOf, RefKey, Alternatives;
    EmptyMember();
    ThroughMembers(Obj(map[]));
  }

  /** A node with the type members of a printed type has the shape it was printed from. */
  lemma PrintedShapeReads(t: FieldType, node: Json)
    requires SameType(Obj(TypeNode(t)), node)
    ensures RefKey(node) == None && ShapeOf(node) == PrintedShape(t)
  {
    hide SameType, ShapeOf, RefKey, TypeOf, Alternatives, Member, Name;
    hide ScalarNode, EnumNode, UnionNode, ArrayNode, ObjectNode, FieldNodes, BranchNodes, RequiredJson, RequiredSet;
    match t
    case StringType => ScalarReadsBack(KString, node); ScalarByName(node, KString);
    case IntegerType => ScalarReadsBack(KInteger, node); ScalarByName(node, KInteger);
    case FloatType => ScalarReadsBack(KNumber, node); ScalarByName(node, KNumber);
    case BooleanType => ScalarReadsBack(KBoolean, node); ScalarByName(node, KBoolean);
    case AnyType => AnyReadsBack(node);
    case EnumType(names) => EnumReadsBack(names, node);
    case OneOfType(_) => BranchesReadBack(t, node);
    case ArrayType(item) => ArrayReadsBack(Obj(TypeNode(item)), node);
    case ObjectType(_) => ObjectReadsBack(t, node);
  }

  // ---------------------------------------------------------------- annotations

  function Bound(v: Option<F64>): Option<Json> { match v case Some(x) => Some(NumberJson(x)) case None => None }

  function Literal(v: Option<string>): Option<Json> { match v case Some(s) => Some(Str(s)) case None => None }

  /** The last constraint of a kind is the one printed. */
  lemma {:induction false} ConstraintMembers(node: Object, cs: seq<Constraint>)
    requires forall k | k in {KMinimum, KMaximum, KPattern} :: Member(Obj(node), k) == None
    ensures forall k ::
              Member(Obj(AddConstraints(node, cs)), k) ==
              if k == KMinimum then Bound(LastMin(cs))
              else if k == KMaximum then Bound(LastMax(cs))
              else if k == KPattern then Literal(LastPattern(cs))
              else Member(Obj(node), k)
  {
    hide Member, Put, Name;
    if cs != [] {
      var before := AddConstraints(node, cs[..|cs| - 1]);
      ConstraintMembers(node, cs[..|cs| - 1]);
      match cs[|cs| - 1]
      case Min(v) => PutMember(before, KMinimum, Some(NumberJson(v)));
      case Max(v) => PutMember(before, KMaximum, Some(NumberJson(v)));
      case Pattern(p) => PutMember(before, KPattern, Some(Str(p)));
      case _ =>
    }
  }

  lemma AnnotationMembers(node: Object, f: FieldSchema)
    requires forall k | !IsTypeKey(k) :: Member(Obj(node), k) == None
    ensures forall k ::
              Member(Obj(Annotate(node, f)), k) ==
              if k == KDescription then DescriptionJson(f)
              else if k == KDefault then f.default
              else if k == KExamples then ExamplesJson(f)
              else if k == KReadOnly then ReadOnlyJson(f)
              else if k == KMinimum then Bound(LastMin(f.constraints))
              else if k == KMaximum then Bound(LastMax(f.constraints))
              else if k == KPattern then Literal(LastPattern(f.constraints))
              else Member(Obj(node), k)
  {
    hide Member, Put, Name, AddConstraints, LastMin, LastMax, LastPattern;
    var n1 := Put(node, KDescription, DescriptionJson(f));
    var n2 := Put(n1, KDefault, f.default);
    var n3 := Put(n2, KExamples, ExamplesJson(f));
    var n4 := Put(n3, KReadOnly, ReadOnlyJson(f));
    PutMember(node, KDescription, DescriptionJson(f));
    PutMember(n1, KDefault, f.default);
    PutMember(n2, KExamples, ExamplesJson(f));
    PutMember(n3, KReadOnly, ReadOnlyJson(f));
    ConstraintMembers(n4, f.constraints);
  }

  lemma ConstraintsReadBack(cs: seq<Constraint>)
    ensures ConstraintsFrom(Bound(LastMin(cs)), Bound(LastMax(cs)), Literal(LastPattern(cs))) == NormConstraints(cs)
  {
    hide LastMin, LastMax, LastPattern;
  }

  // ---------------------------------------------------------------- fields and types together

  /** `node` is the printed field, give or take its subid. */
  ghost predicate PrintedField(f: FieldSchema, node: Json) {
    forall k | k != KSubid :: Member(node, k) == Member(Obj(FieldNode(f)), k)
  }

  lemma {:induction false} TypeRoundTrip(t: FieldType, node: Json)
    requires SameType(Obj(TypeNode(t)), node)
    ensures Ends(Call(ReadsType, node), map[])
    ensures FieldTypeOf(node, map[]) == NormType(t)
    decreases t, 0
  {
    NoDefsEnd();
    hide Ends, Depth, Name, TypeNode, ShapeOf, SameType, FieldNode, RequiredSet, RequiredJson, RefKey, FieldSchemaOf,
         NormField;
    PrintedShapeReads(t, node);
    assert Resolve(node, map[]) == node;
    match t
    case OneOfType(branches) =>
      forall i | 0 <= i < |branches| ensures FieldTypeOf(BranchNodes(t)[i], map[]) == NormType(branches[i]) {
        Reflexive(Obj(TypeNode(branches[i])));
        TypeRoundTrip(branches[i], Obj(TypeNode(branches[i])));
      }
    case ArrayType(item) =>
      Reflexive(Obj(TypeNode(item)));
      TypeRoundTrip(item, Obj(TypeNode(item)));
    case ObjectType(fields) =>
      forall k | k in fields
        ensures FieldSchemaOf(FieldNodes(t)[k], map[], k in RequiredSet(RequiredJson(fields))) == NormField(fields[k])
      {
        RequiredRoundTrip(fields, k);
        FieldRoundTrip(fields[k], Obj(FieldNode(fields[k])));
      }
    case _ =>
  }

  lemma Reflexive(node: Json)
    ensures SameType(node, node)
  {
  }

  lemma FieldIsTyped(f: FieldSchema, node: Json)
    requires PrintedField(f, node)
    ensures SameType(Obj(TypeNode(f.fieldType)), node)
  {
    hide Name, Member, TypeNode, SameType, Annotate, LastMin, LastMax, LastPattern, Bound, Literal, DescriptionJson,
         ExamplesJson, ReadOnlyJson, RefKey, TypeOf;
    PrintedType(f.fieldType);
    AnnotationMembers(TypeNode(f.fieldType), f);
    SameMembersSameType(Obj(TypeNode(f.fieldType)), node);
  }

  /** The members `field_schema` looks at, in a printed field. */
  lemma FieldMembers(f: FieldSchema, node: Json)
    requires PrintedField(f, node)
    ensures SameType(Obj(TypeNode(f.fieldType)), node)
    ensures Member(node, KDescription) == DescriptionJson(f) && Member(node, KDefault) == f.default
    ensures Member(node, KExamples) == ExamplesJson(f) && Member(node, KExample) == None
    ensures Member(node, KReadOnly) == ReadOnlyJson(f)
    ensures Member(node, KMinimum) == Bound(LastMin(f.constraints))
    ensures Member(node, KMaximum) == Bound(LastMax(f.constraints))
    ensures Member(node, KPattern) == Literal(LastPattern(f.constraints))
  {
    hide Name, Member, TypeNode, SameType, Annotate, LastMin, LastMax, LastPattern, Bound, Literal, DescriptionJson,
         ExamplesJson, ReadOnlyJson, RefKey, TypeOf;
    FieldIsTyped(f, node);
    PrintedType(f.fieldType);
    AnnotationMembers(TypeNode(f.fieldType), f);
  }

  lemma {:induction false} FieldRoundTrip(f: FieldSchema, node: Json)
    requires PrintedField(f, node)
    ensures Ends(Call(ReadsType, node), map[])
    ensures FieldSchemaOf(node, map[], f.required) == NormField(f)
    decreases f, 1
  {
    NoDefsEnd();
    hide Ends, Depth, Name, Member, TypeNode, SameType, ConstraintsFrom, NormConstraints, PrintedField, LastMin,
         LastMax, LastPattern, NormType, FieldTypeOf;
    FieldMembers(f, node);
    TypeRoundTrip(f.fieldType, node);
    ConstraintsReadBack(f.constraints);
  }

  // ---------------------------------------------------------------- whole schemas

  function RoundTrip(s: PluginSchema): PluginSchema
    requires DocumentEnds(Obj(RootNode(s)))
  {
    FromJson(s.name, s.version, s.description, Obj(RootNode(s)))
  }

  lemma HeadMembers(s: PluginSchema)
    ensures forall k | k !in {KSchema, KTitle, KDescription} :: Member(Obj(HeadNode(s)), k) == None
  {
    hide Name, Member, Put;
    EmptyMember();
    var n1 := Put(map[], KSchema, Some(Str(s.dialect)));
    var n2 := Put(n1, KTitle, Some(Str(s.name)));
    PutMember(map[], KSchema, Some(Str(s.dialect)));
    PutMember(n1, KTitle, Some(Str(s.name)));
    PutMember(n2, KDescription, Some(Str(s.description)));
  }

  lemma TailMembers(body: Object, s: PluginSchema, k: Keyword)
    ensures Member(Obj(TailNode(body, s)), k) ==
            if k == KSubid && SCHEMA_KEY in s.subids then SubidJson(s.subids, SCHEMA_KEY)
            else if k == KImmutablePaths && s.immutablePaths != [] then PathsJson(s.immutablePaths)
            else if k == KVersion then Some(Str(s.version))
            else Member(Obj(body), k)
  {
    hide Name, Member, Put, SCHEMA_KEY;
    var ids := Put(body, KSubid, SubidJson(s.subids, SCHEMA_KEY));
    var paths := Put(ids, KImmutablePaths, PathsJson(s.immutablePaths));
    PutMember(body, KSubid, SubidJson(s.subids, SCHEMA_KEY));
    PutMember(ids, KImmutablePaths, PathsJson(s.immutablePaths));
    PutMember(paths, KVersion, Some(Str(s.version)));
  }

  /** The members the parser looks at, in a printed schema. */
  lemma RootMembers(s: PluginSchema)
    ensures
      var root := Obj(RootNode(s));
      Member(root, KRef) == None && Member(root, KDefs) == None && Member(root, KDefinitions) == None &&
      Member(root, KProperties) == Some(Obj(Props(s))) && Member(root, KRequired) == RequiredJson(s.fields) &&
      Member(root, KSubid) == SubidJson(s.subids, SCHEMA_KEY) &&
      Member(root, KImmutablePaths) == PathsJson(s.immutablePaths)
  {
    hide Name, Member, ObjectNode, HeadNode, TailNode, Props, RequiredJson, SCHEMA_KEY;
    HeadMembers(s);
    ObjectMembers(HeadNode(s), Props(s), RequiredJson(s.fields));
    forall k | k in {KRef, KDefs, KDefinitions, KProperties, KRequired, KSubid, KImmutablePaths}
      ensures Member(Obj(RootNode(s)), k) ==
              if k == KSubid then SubidJson(s.subids, SCHEMA_KEY)
              else if k == KImmutablePaths then PathsJson(s.immutablePaths)
              else Member(Obj(ObjectNode(HeadNode(s), Props(s), RequiredJson(s.fields))), k)
    {
      TailMembers(ObjectNode(HeadNode(s), Props(s), RequiredJson(s.fields)), s, k);
    }
  }

  lemma NothingToFollow(s: PluginSchema)
    ensures DefsOf(Obj(RootNode(s))) == map[] && RefKey(Obj(RootNode(s))) == None
  {
    RootMembers(s);
    ThroughMembers(Obj(RootNode(s)));
    hide Name, RootNode, Props, RequiredJson, SubidJson, PathsJson;
  }

  lemma SubidsReadBack(s: PluginSchema)
    ensures
      SubidsIn(Props(s)) == map k | k in s.subids && k in s.fields :: s.subids[k]
  {
    hide Name, Member, Put, FieldNode, Keys;
    forall k | k in s.fields ensures Member(Props(s)[k], KSubid) == SubidJson(s.subids, k) {
      SubidMember(s, k);
    }
  }

  lemma SubidMember(s: PluginSchema, k: string)
    requires k in s.fields
    ensures Member(Props(s)[k], KSubid) == SubidJson(s.subids, k)
    ensures PrintedField(s.fields[k], Props(s)[k])
  {
    hide Name, Member, Put, TypeNode, Annotate, SubidJson, LastMin, LastMax, LastPattern;
    PrintedType(s.fields[k].fieldType);
    AnnotationMembers(TypeNode(s.fields[k].fieldType), s.fields[k]);
    PutMember(FieldNode(s.fields[k]), KSubid, SubidJson(s.subids, k));
  }

  lemma PathsReadBack(paths: seq<string>)
    ensures PathsFrom(PathsJson(paths)) == paths
  {
    StringsRoundTrip(paths);
  }

  /** A printed schema reads back as its normal form. */
  lemma SchemaRoundTrip(s: PluginSchema)
    ensures DocumentEnds(Obj(RootNode(s))) && RoundTrip(s) == Norm(s)
  {
    hide Ends, Depth, Name, Member, RootNode, RequiredJson, RequiredSet, FieldSchemaOf, NormField, PrintedField,
         PathsJson, PathsFrom, DefsOf, SubidsIn, Props, RefKey;
    NothingToFollow(s);
    NoDefsEnd();
    RootMembers(s);
    SubidsReadBack(s);
    PathsReadBack(s.immutablePaths);
    var root := Obj(RootNode(s));
    assert Resolve(root, map[]) == root;
    forall k | k in s.fields
      ensures FieldSchemaOf(Props(s)[k], map[], k in RequiredSet(RequiredJson(s.fields))) == NormField(s.fields[k])
    {
      SubidMember(s, k);
      RequiredRoundTrip(s.fields, k);
      FieldRoundTrip(s.fields[k], Props(s)[k]);
    }
    assert RoundTrip(s).fields == Norm(s).fields;
    assert RoundTrip(s).subids == Norm(s).subids;
  }

  // ---------------------------------------------------------------- which schemas survive

  function Kind(c: Constraint): nat {
    match c case Min(_) => 0 case Max(_) => 1 case Pattern(_) => 2 case _ => 3
  }

  /** Minimum, maximum, pattern: each at most once, in this order, with finite bounds. */
  predicate PrintableConstraints(cs: seq<Constraint>) {
    (forall i | 0 <= i < |cs| :: Kind(cs[i]) < 3) &&
    (forall i, j | 0 <= i < j < |cs| :: Kind(cs[i]) < Kind(cs[j])) &&
    (forall c | c in cs && (c.Min? || c.Max?) :: c.value.Finite?)
  }

  predicate PrintableType(t: FieldType) {
    match t
    case OneOfType(branches) => |branches| >= 2 && forall b | b in branches :: PrintableType(b)
    case ArrayType(item) => PrintableType(item)
    case ObjectType(fields) => forall k | k in fields :: PrintableField(fields[k])
    case _ => true
  }

  predicate PrintableField(f: FieldSchema) {
    PrintableType(f.fieldType) && PrintableConstraints(f.constraints) && f.readOnlyWhen == None
  }

  predicate Printable(s: PluginSchema) {
    (forall k | k in s.fields :: PrintableField(s.fields[k])) && s.methods == map[] &&
    (forall k | k in s.subids :: k in s.fields || k == SCHEMA_KEY) && s.dialect == DIALECT_2020_12
  }

  lemma NormConstraintsArePrintable(cs: seq<Constraint>)
    ensures PrintableConstraints(NormConstraints(cs))
  {
    hide LastMin, LastMax, LastPattern;
  }

  /** No constraint of a kind, no last one of it. */
  lemma {:induction false} LastBelow(cs: seq<Constraint>, kind: nat)
    requires forall c | c in cs :: Kind(c) < kind
    ensures kind <= 0 ==> LastMin(cs) == None
    ensures kind <= 1 ==> LastMax(cs) == None
    ensures kind <= 2 ==> LastPattern(cs) == None
  {
    if cs != [] {
      assert cs[|cs| - 1] in cs;
      LastBelow(cs[..|cs| - 1], kind);
    }
  }

  lemma NormOfAppended(before: seq<Constraint>, last: Constraint)
    requires Kind(last) < 3 && (last.Min? || last.Max? ==> last.value.Finite?)
    requires forall c | c in before :: Kind(c) < Kind(last)
    ensures NormConstraints(before + [last]) == NormConstraints(before) + [last]
  {
    var cs := before + [last];
    assert cs[..|cs| - 1] == before;
    LastBelow(before, Kind(last));
  }

  lemma {:induction false} PrintableConstraintsAreFixed(cs: seq<Constraint>)
    requires PrintableConstraints(cs)
    ensures NormConstraints(cs) == cs
  {
    hide NormConstraints, Kind;
    if cs != [] {
      var before, last := cs[..|cs| - 1], cs[|cs| - 1];
      PrintableConstraintsAreFixed(before);
      assert last in cs && Kind(last) < 3;
      NormOfAppended(before, last);
      assert cs == before + [last];
    } else {
      NormOfNothing();
    }
  }

  lemma NormOfNothing()
    ensures NormConstraints([]) == []
  {
  }

  lemma {:induction false} NormTypeIsPrintable(t: FieldType)
    ensures PrintableType(NormType(t))
    decreases t, 0
  {
    match t
    case OneOfType(branches) =>
      forall i | 0 <= i < |branches| ensures PrintableType(NormType(branches[i])) { NormTypeIsPrintable(branches[i]); }
    case ArrayType(item) => NormTypeIsPrintable(item);
    case ObjectType(fields) =>
      forall k | k in fields ensures PrintableField(NormField(fields[k])) { NormFieldIsPrintable(fields[k]); }
    case _ =>
  }

  lemma {:induction false} NormFieldIsPrintable(f: FieldSchema)
    ensures PrintableField(NormField(f))
    decreases f, 1
  {
    NormTypeIsPrintable(f.fieldType);
    NormConstraintsArePrintable(f.constraints);
  }

  lemma {:induction false} PrintableTypeIsFixed(t: FieldType)
    requires PrintableType(t)
    ensures NormType(t) == t
    decreases t, 0
  {
    match t
    case OneOfType(branches) =>
      forall i | 0 <= i < |branches| ensures NormType(branches[i]) == branches[i] { PrintableTypeIsFixed(branches[i]); }
    case ArrayType(item) => PrintableTypeIsFixed(item);
    case ObjectType(fields) =>
      forall k | k in fields ensures NormField(fields[k]) == fields[k] { PrintableFieldIsFixed(fields[k]); }
    case _ =>
  }

  lemma {:induction false} PrintableFieldIsFixed(f: FieldSchema)
    requires PrintableField(f)
    ensures NormField(f) == f
    decreases f, 1
  {
    PrintableTypeIsFixed(f.fieldType);
    PrintableConstraintsAreFixed(f.constraints);
  }

  lemma NormIsPrintable(s: PluginSchema)
    ensures Printable(Norm(s))
  {
    hide NormField, PrintableField;
    forall k | k in s.fields ensures PrintableField(NormField(s.fields[k])) { NormFieldIsPrintable(s.fields[k]); }
  }

  lemma PrintableIsFixed(s: PluginSchema)
    requires Printable(s)
    ensures Norm(s) == s
  {
    hide NormField, PrintableField;
    forall k | k in s.fields ensures NormField(s.fields[k]) == s.fields[k] { PrintableFieldIsFixed(s.fields[k]); }
    assert Norm(s).fields == s.fields && Norm(s).subids == s.subids;
  }

  /** A round trip gives the same schema back exactly when it had no methods, the default
      dialect, only unions of two or more branches, canonical constraints, no condition on
      read-only, and subids for its own fields or the schema only. */
  lemma RoundTripIffPrintable(s: PluginSchema)
    ensures DocumentEnds(Obj(RootNode(s)))
    ensures RoundTrip(s) == s <==> Printable(s)
  {
    hide RoundTrip, Norm, Printable, DocumentEnds, RootNode;
    SchemaRoundTrip(s);
    NormIsPrintable(s);
    if Printable(s) { PrintableIsFixed(s); }
  }

  /** Two round trips do what one does. */
  lemma RoundTripIsIdempotent(s: PluginSchema)
    ensures DocumentEnds(Obj(RootNode(s))) && DocumentEnds(Obj(RootNode(RoundTrip(s))))
    ensures RoundTrip(RoundTrip(s)) == RoundTrip(s)
  {
    hide RoundTrip, Norm, Printable, DocumentEnds, RootNode;
    SchemaRoundTrip(s);
    NormIsPrintable(s);
    SchemaRoundTrip(Norm(s));
    PrintableIsFixed(Norm(s));
  }
}
