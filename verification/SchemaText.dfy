/** `PluginSchema` to JSON Schema text and back: `to_json_schema` of `schema.rs` and
    `plugin_schema_from_json` of `adapter.rs`. */
module SchemaText {
  import opened Text
  import opened Doubles
  import opened Ordering
  import opened JsonSchema
  import opened References
  import opened Schema

  // ---------------------------------------------------------------- members

  function Member(node: Json, k: Keyword): Option<Json> { Get(node, Name(k)) }

  /** Insert a member, or leave the object alone. */
  function Put(node: Object, k: Keyword, v: Option<Json>): Object {
    match v case Some(j) => node[Name(k) := j] case None => node
  }

  lemma PutMember(node: Object, k: Keyword, v: Option<Json>)
    ensures forall q ::
              Member(Obj(Put(node, k, v)), q) == if q == k && v.Some? then v else Member(Obj(node), q)
  {
    NamesDiffer();
    hide Name;
  }

  lemma EmptyMember()
    ensures forall q :: Member(Obj(map[]), q) == None
  {
  }

  // ---------------------------------------------------------------- printing

  function Strings(names: seq<string>): (r: seq<Json>)
    ensures |r| == |names| && forall i | 0 <= i < |r| :: r[i] == Str(names[i])
  {
    seq(|names|, i requires 0 <= i < |names| => Str(names[i]))
  }

  /** `json!(value)`: JSON has no NaN and no infinity. */
  function NumberJson(v: F64): Json { match v case Finite(d) => Num(Double(d)) case _ => Null }

  /** Later constraints of a kind overwrite earlier ones; the other kinds are not printed. */
  function AddConstraints(node: Object, cs: seq<Constraint>): Object {
    if cs == [] then node else
      var before := AddConstraints(node, cs[..|cs| - 1]);
      match cs[|cs| - 1]
      case Min(v) => Put(before, KMinimum, Some(NumberJson(v)))
      case Max(v) => Put(before, KMaximum, Some(NumberJson(v)))
      case Pattern(p) => Put(before, KPattern, Some(Str(p)))
      case _ => before
  }

  function RequiredNames(fields: map<string, FieldSchema>, names: seq<string>): (r: seq<string>)
    requires forall n | n in names :: n in fields
    ensures forall n :: n in r <==> n in names && fields[n].required
  {
    if names == [] then [] else
      RequiredNames(fields, names[..|names| - 1]) +
      (if fields[names[|names| - 1]].required then [names[|names| - 1]] else [])
  }

  /** `required` appears only when some field is. */
  function RequiredJson(fields: map<string, FieldSchema>): Option<Json> {
    var required := RequiredNames(fields, Keys(fields.Keys));
    if required == [] then None else Some(Arr(Strings(required)))
  }

  function ScalarNode(name: Keyword): Object { Put(map[], KType, Some(Str(Name(name)))) }

  function EnumNode(names: seq<string>): Object { Put(ScalarNode(KString), KEnum, Some(Arr(Strings(names)))) }

  function UnionNode(branches: seq<Json>): Object { Put(map[], KOneOf, Some(Arr(branches))) }

  function ArrayNode(item: Json): Object { Put(ScalarNode(KArray), KItems, Some(item)) }

  function ObjectNode(base: Object, props: Object, required: Option<Json>): Object {
    Put(Put(Put(base, KType, Some(Str(Name(KObject)))), KProperties, Some(Obj(props))), KRequired, required)
  }

  function TypeNode(t: FieldType): Object
    decreases t, 2
  {
    match t
    case StringType => ScalarNode(KString)
    case IntegerType => ScalarNode(KInteger)
    case FloatType => ScalarNode(KNumber)
    case BooleanType => ScalarNode(KBoolean)
    case AnyType => map[]
    case EnumType(names) => EnumNode(names)
    case OneOfType(branches) => UnionNode(BranchNodes(t))
    case ArrayType(item) => ArrayNode(Obj(TypeNode(item)))
    case ObjectType(fields) => ObjectNode(map[], FieldNodes(t), RequiredJson(fields))
  }

  function BranchNodes(t: FieldType): (r: seq<Json>)
    requires t.OneOfType?
    ensures |r| == |t.branches|
    decreases t, 1
  {
    seq(|t.branches|, i requires 0 <= i < |t.branches| => Obj(TypeNode(t.branches[i])))
  }

  function FieldNodes(t: FieldType): (r: Object)
    requires t.ObjectType?
    ensures r.Keys == t.fields.Keys
    decreases t, 1
  {
    map k | k in t.fields :: Obj(FieldNode(t.fields[k]))
  }

  function DescriptionJson(f: FieldSchema): Option<Json> {
    if f.description != "" then Some(Str(f.description)) else None
  }

  function ExamplesJson(f: FieldSchema): Option<Json> {
    match f.example case Some(e) => Some(Arr([e])) case None => None
  }

  function ReadOnlyJson(f: FieldSchema): Option<Json> {
    if f.readOnly then Some(Bool(true)) else None
  }

  /** The members `field_to_json_schema` adds after the type's own. */
  function Annotate(node: Object, f: FieldSchema): Object {
    var n1 := Put(node, KDescription, DescriptionJson(f));
    var n2 := Put(n1, KDefault, f.default);
    var n3 := Put(n2, KExamples, ExamplesJson(f));
    var n4 := Put(n3, KReadOnly, ReadOnlyJson(f));
    AddConstraints(n4, f.constraints)
  }

  function FieldNode(f: FieldSchema): Object
    decreases f, 3
  {
    Annotate(TypeNode(f.fieldType), f)
  }

  const SCHEMA_KEY := "__schema__"

  function SubidJson(subids: map<string, string>, key: string): Option<Json> {
    if key in subids then Some(Str(subids[key])) else None
  }

  function Props(s: PluginSchema): (r: Object)
    ensures r.Keys == s.fields.Keys
  {
    map k | k in s.fields :: Obj(Put(FieldNode(s.fields[k]), KSubid, SubidJson(s.subids, k)))
  }

  function PathsJson(paths: seq<string>): Option<Json> {
    if paths == [] then None else Some(Arr(Strings(paths)))
  }

  function HeadNode(s: PluginSchema): Object {
    Put(Put(Put(map[], KSchema, Some(Str(s.dialect))), KTitle, Some(Str(s.name))),
        KDescription, Some(Str(s.description)))
  }

  function TailNode(body: Object, s: PluginSchema): Object {
    Put(Put(Put(body, KSubid, SubidJson(s.subids, SCHEMA_KEY)), KImmutablePaths, PathsJson(s.immutablePaths)),
        KVersion, Some(Str(s.version)))
  }

  /** `to_json_schema`. */
  function RootNode(s: PluginSchema): Object {
    TailNode(ObjectNode(HeadNode(s), Props(s), RequiredJson(s.fields)), s)
  }

  // ---------------------------------------------------------------- parsing

  /** The string entries of an array. */
  function StringsIn(a: seq<Json>): seq<string> {
    if a == [] then [] else (if a[0].Str? then [a[0].s] else []) + StringsIn(a[1..])
  }

  function AsString(v: Option<Json>): Option<string> { match v case Some(Str(s)) => Some(s) case _ => None }

  function AsObject(v: Option<Json>): Object { match v case Some(Obj(m)) => m case _ => map[] }

  function PathsFrom(v: Option<Json>): seq<string> { match v case Some(Arr(a)) => StringsIn(a) case _ => [] }

  function RequiredSet(v: Option<Json>): set<string> {
    match v case Some(Arr(a)) => (set s | s in StringsIn(a)) case _ => {}
  }

  /** The double an integer is rounded to. */
  function NearestDouble(i: int): FiniteDouble {
    hide NearestBits;
    NearestIsFinite(i);
    NearestBits(i)
  }

  /** `as_f64`. */
  function AsNumber(v: Option<Json>): Option<F64> {
    match v
    case Some(Num(Integer(i))) => Some(Finite(NearestDouble(i)))
    case Some(Num(Double(d))) => Some(Finite(d))
    case _ => None
  }

  function ConstraintsFrom(minimum: Option<Json>, maximum: Option<Json>, pattern: Option<Json>): seq<Constraint> {
    (match AsNumber(minimum) case Some(v) => [Min(v)] case None => []) +
    (match AsNumber(maximum) case Some(v) => [Max(v)] case None => []) +
    (match AsString(pattern) case Some(p) => [Pattern(p)] case None => [])
  }

  function ExampleFrom(examples: Option<Json>, example: Option<Json>): Option<Json> {
    match examples
    case Some(Arr(a)) => if a != [] then Some(a[0]) else example
    case _ => example
  }

  /** What `field_type` makes out of a node before it goes into subterms. */
  datatype Shape =
    | Scalar(t: FieldType)
    | One(branch: Json)
    | Many(branches: seq<Json>)
    | ArrayOf(items: Option<Json>)
    | ObjectOf(props: Object, required: set<string>)

  function PlainShape(n: Json): Shape {
    match Member(n, KEnum)
    case Some(Arr(names)) => Scalar(EnumType(StringsIn(names)))
    case _ =>
      var t := TypeOf(n);
      if t == Some(Name(KString)) then Scalar(StringType)
      else if t == Some(Name(KInteger)) then Scalar(IntegerType)
      else if t == Some(Name(KNumber)) then Scalar(FloatType)
      else if t == Some(Name(KBoolean)) then Scalar(BooleanType)
      else if t == Some(Name(KArray)) then ArrayOf(Member(n, KItems))
      else if t == Some(Name(KObject)) then
        ObjectOf(AsObject(Member(n, KProperties)), RequiredSet(Member(n, KRequired)))
      else Scalar(AnyType)
  }

  function ShapeOf(n: Json): Shape {
    match Alternatives(n)
    case None => PlainShape(n)
    case Some(a) =>
      var branches := NonNull(a);
      if |branches| == 0 then PlainShape(n) else if |branches| == 1 then One(branches[0]) else Many(branches)
  }

  ghost predicate Holds(shape: Shape, a: Json) {
    match shape
    case Scalar(_) => false
    case One(branch) => a == branch
    case Many(branches) => a in branches
    case ArrayOf(items) => items == Some(a)
    case ObjectOf(props, _) => exists k :: k in props && a == props[k]
  }

  /** The subterms a node is read through. */
  ghost predicate PartOf(a: Json, n: Json) {
    Holds(ShapeOf(n), a)
  }

  lemma ContainersAreNoScalars()
    ensures forall k | k in {KString, KInteger, KNumber, KBoolean} ::
              Name(k) != Name(KArray) && Name(k) != Name(KObject)
    ensures Name(KArray) != Name(KObject)
  {
    NamesDiffer();
    hide Name;
  }

  lemma PlainPart(a: Json, n: Json)
    ensures Holds(PlainShape(n), a) <==> a in PlainParts(n)
  {
    ContainersAreNoScalars();
    hide Name, TypeOf, StringsIn, RequiredSet;
  }

  /** The calls counted for reading types are the ones made. */
  lemma PartIsTypePart(a: Json, n: Json)
    ensures PartOf(a, n) <==> a in TypeParts(n)
  {
    hide Name, NonNull, Alternatives, PlainShape, PlainParts;
    PlainPart(a, n);
  }

  lemma PartEnds(a: Json, node: Json, defs: Object)
    requires Ends(Call(ReadsType, node), defs) && Ends(Call(Resolves, node), defs) && PartOf(a, Resolve(node, defs))
    ensures Ends(Call(ReadsType, a), defs)
    ensures Depth(Call(ReadsType, a), defs) < Depth(Call(ReadsType, node), defs)
  {
    hide Ends, Depth, PartOf, TypeParts, Resolve;
    PartIsTypePart(a, Resolve(node, defs));
    InnerEnds(Call(ReadsType, node), Call(ReadsType, a), defs);
  }

  function FieldTypeOf(node: Json, defs: Object): FieldType
    requires Ends(Call(ReadsType, node), defs)
    decreases Depth(Call(ReadsType, node), defs), 1
  {
    CallResolves(Call(ReadsType, node), defs);
    match ShapeOf(Resolve(node, defs))
    case Scalar(t) => t
    case One(branch) => PartEnds(branch, node, defs); FieldTypeOf(branch, defs)
    case Many(branches) =>
      OneOfType(seq(|branches|, i requires 0 <= i < |branches| =>
        (PartEnds(branches[i], node, defs); FieldTypeOf(branches[i], defs))))
    case ArrayOf(items) =>
      if items.None? then ArrayType(AnyType)
      else
        PartEnds(items.value, node, defs);
        ArrayType(FieldTypeOf(items.value, defs))
    case ObjectOf(props, required) =>
      ObjectType(map k | k in props ::
        (PartEnds(props[k], node, defs); FieldSchemaOf(props[k], defs, k in required)))
  }

  function FieldSchemaOf(node: Json, defs: Object, required: bool): FieldSchema
    requires Ends(Call(ReadsType, node), defs)
    decreases Depth(Call(ReadsType, node), defs), 2
  {
    FieldSchema(
      FieldTypeOf(node, defs), required, AsString(Member(node, KDescription)).GetOr(""), Member(node, KDefault),
      ExampleFrom(Member(node, KExamples), Member(node, KExample)),
      ConstraintsFrom(Member(node, KMinimum), Member(node, KMaximum), Member(node, KPattern)),
      Member(node, KReadOnly) == Some(Bool(true)), None)
  }

  function SubidsIn(props: Object): map<string, string> {
    map k | k in props && AsString(Member(props[k], KSubid)).Some? :: AsString(Member(props[k], KSubid)).value
  }

  /** `plugin_schema_from_json` comes to an end. */
  ghost predicate DocumentEnds(root: Json) {
    Ends(Call(ReadsRoot, root), DefsOf(root))
  }

  ghost predicate PropertiesEnd(props: Object, defs: Object) {
    forall k | k in props :: Ends(Call(ReadsType, props[k]), defs)
  }

  lemma RootReads(root: Json)
    requires DocumentEnds(root)
    ensures
      var defs := DefsOf(root);
      Ends(Call(Resolves, root), defs) &&
      PropertiesEnd(AsObject(Member(Resolve(root, defs), KProperties)), defs)
  {
    hide Ends, Depth, DefsOf, Resolve, Name;
    var defs := DefsOf(root);
    CallResolves(Call(ReadsRoot, root), defs);
    var props := AsObject(Member(Resolve(root, defs), KProperties));
    forall k | k in props ensures Ends(Call(ReadsType, props[k]), defs) {
      InnerEnds(Call(ReadsRoot, root), Call(ReadsType, props[k]), defs);
    }
  }

  /** `plugin_schema_from_json`. */
  function FromJson(name: string, version: string, description: string, root: Json): PluginSchema
    requires DocumentEnds(root)
  {
    RootReads(root);
    var defs := DefsOf(root);
    var top := Resolve(root, defs);
    var required := RequiredSet(Member(top, KRequired));
    var props := AsObject(Member(top, KProperties));
    var own := SubidsIn(props);
    PluginSchema(
      name, version, description,
      map k | k in props :: FieldSchemaOf(props[k], defs, k in required),
      map[],
      (match AsString(Member(root, KSubid)) case Some(s) => own[SCHEMA_KEY := s] case None => own),
      PathsFrom(Member(root, KImmutablePaths)),
      DIALECT_2020_12)
  }

  // ---------------------------------------------------------------- normal forms

  /** What survives a round trip of a type: unions of one branch are that branch, empty
      unions are anything. */
  function NormType(t: FieldType): FieldType {
    match t
    case OneOfType(branches) =>
      if |branches| == 0 then AnyType
      else if |branches| == 1 then NormType(branches[0])
      else OneOfType(seq(|branches|, i requires 0 <= i < |branches| => NormType(branches[i])))
    case ArrayType(item) => ArrayType(NormType(item))
    case ObjectType(fields) => ObjectType(map k | k in fields :: NormField(fields[k]))
    case _ => t
  }

  /** The last constraint of each kind. */
  function LastMin(cs: seq<Constraint>): Option<F64> {
    if cs == [] then None else if cs[|cs| - 1].Min? then Some(cs[|cs| - 1].value) else LastMin(cs[..|cs| - 1])
  }

  function LastMax(cs: seq<Constraint>): Option<F64> {
    if cs == [] then None else if cs[|cs| - 1].Max? then Some(cs[|cs| - 1].value) else LastMax(cs[..|cs| - 1])
  }

  function LastPattern(cs: seq<Constraint>): Option<string> {
    if cs == [] then None else if cs[|cs| - 1].Pattern? then Some(cs[|cs| - 1].regex) else LastPattern(cs[..|cs| - 1])
  }

  /** Minimum, maximum and pattern in that order, each at most once, with finite bounds. */
  function NormConstraints(cs: seq<Constraint>): seq<Constraint> {
    (match LastMin(cs) case Some(Finite(d)) => [Min(Finite(d))] case _ => []) +
    (match LastMax(cs) case Some(Finite(d)) => [Max(Finite(d))] case _ => []) +
    (match LastPattern(cs) case Some(p) => [Pattern(p)] case None => [])
  }

  function NormField(f: FieldSchema): FieldSchema {
    f.(fieldType := NormType(f.fieldType), constraints := NormConstraints(f.constraints), readOnlyWhen := None)
  }

  /** What survives a round trip of a schema. */
  function Norm(s: PluginSchema): PluginSchema {
    s.(fields := map k | k in s.fields :: NormField(s.fields[k]),
       methods := map[],
       subids := map k | k in s.subids && (k in s.fields || k == SCHEMA_KEY) :: s.subids[k],
       dialect := DIALECT_2020_12)
  }

  // ---------------------------------------------------------------- the round trip

  lemma {:induction false} StringsRoundTrip(names: seq<string>)
    ensures StringsIn(Strings(names)) == names
  {
    if names != [] {
      assert Strings(names)[1..] == Strings(names[1..]);
      StringsRoundTrip(names[1..]);
    }
  }

  lemma RequiredRoundTrip(fields: map<string, FieldSchema>, k: string)
    requires k in fields
    ensures k in RequiredSet(RequiredJson(fields)) <==> fields[k].required
  {
    hide RequiredNames, Strings, StringsIn;
    StringsRoundTrip(RequiredNames(fields, Keys(fields.Keys)));
  }

  /** `b` has the members a type is read from, as `a` has them. */
  ghost predicate SameType(a: Json, b: Json) {
    RefKey(a) == RefKey(b) && Alternatives(a) == Alternatives(b) && TypeOf(a) == TypeOf(b) &&
    Member(a, KEnum) == Member(b, KEnum) && Member(a, KItems) == Member(b, KItems) &&
    Member(a, KProperties) == Member(b, KProperties) && Member(a, KRequired) == Member(b, KRequired)
  }

  predicate IsTypeKey(k: Keyword) {
    k in {KRef, KAnyOf, KOneOf, KType, KEnum, KItems, KProperties, KRequired}
  }

  lemma SameMembersSameType(a: Json, b: Json)
    requires forall k | IsTypeKey(k) :: Member(a, k) == Member(b, k)
    ensures SameType(a, b)
  {
    hide Name;
    assert Member(a, KRef) == Member(b, KRef) && Member(a, KType) == Member(b, KType);
    assert Member(a, KAnyOf) == Member(b, KAnyOf) && Member(a, KOneOf) == Member(b, KOneOf);
  }

  /** How `TypeOf`, `Alternatives` and `RefKey` see a node through its members. */
  lemma ThroughMembers(n: Json)
    ensures Member(n, KRef) == None ==> RefKey(n) == None
    ensures Member(n, KAnyOf) == None && Member(n, KOneOf) == None ==> Alternatives(n) == None
    ensures Member(n, KType) == None ==> TypeOf(n) == None
    ensures forall s :: Member(n, KType) == Some(Str(s)) ==> TypeOf(n) == Some(s)
    ensures forall a :: Member(n, KAnyOf) == None && Member(n, KOneOf) == Some(Arr(a)) ==> Alternatives(n) == Some(a)
  {
    hide Name;
  }

  lemma ScalarMembers(name: Keyword)
    ensures forall k :: Member(Obj(ScalarNode(name)), k) == if k == KType then Some(Str(Name(name))) else None
  {
    hide Member, Name;
    EmptyMember();
    PutMember(map[], KType, Some(Str(Name(name))));
  }

  lemma EnumMembers(names: seq<string>)
    ensures forall k ::
              Member(Obj(EnumNode(names)), k) ==
              if k == KEnum then Some(Arr(Strings(names))) else if k == KType then Some(Str(Name(KString))) else None
  {
    hide Member, Name, Strings;
    ScalarMembers(KString);
    PutMember(ScalarNode(KString), KEnum, Some(Arr(Strings(names))));
  }

  lemma UnionMembers(branches: seq<Json>)
    ensures forall k :: Member(Obj(UnionNode(branches)), k) == if k == KOneOf then Some(Arr(branches)) else None
  {
    hide Member, Name;
    EmptyMember();
    PutMember(map[], KOneOf, Some(Arr(branches)));
  }

  lemma ArrayMembers(item: Json)
    ensures forall k ::
              Member(Obj(ArrayNode(item)), k) ==
              if k == KItems then Some(item) else if k == KType then Some(Str(Name(KArray))) else None
  {
    hide Member, Name;
    ScalarMembers(KArray);
    PutMember(ScalarNode(KArray), KItems, Some(item));
  }

  lemma ObjectMembers(base: Object, props: Object, required: Option<Json>)
    ensures forall k ::
              Member(Obj(ObjectNode(base, props, required)), k) ==
              if k == KType then Some(Str(Name(KObject)))
              else if k == KProperties then Some(Obj(props))
              else if k == KRequired && required.Some? then required
              else Member(Obj(base), k)
  {
    hide Member, Name;
    var n1 := Put(base, KType, Some(Str(Name(KObject))));
    var n2 := Put(n1, KProperties, Some(Obj(props)));
    PutMember(base, KType, Some(Str(Name(KObject))));
    PutMember(n1, KProperties, Some(Obj(props)));
    PutMember(n2, KRequired, required);
  }

  /** The shape every printed type reads back as, before its subterms are read. */
  ghost function PrintedShape(t: FieldType): Shape {
    match t
    case OneOfType(branches) =>
      var nodes := BranchNodes(t);
      if |nodes| == 0 then Scalar(AnyType) else if |nodes| == 1 then One(nodes[0]) else Many(nodes)
    case ArrayType(item) => ArrayOf(Some(Obj(TypeNode(item))))
    case ObjectType(fields) => ObjectOf(FieldNodes(t), RequiredSet(RequiredJson(fields)))
    case _ => Scalar(t)
  }

  /** A printed node is no reference, and its type is never `null`. */
  lemma PrintedType(t: FieldType)
    ensures RefKey(Obj(TypeNode(t))) == None && TypeOf(Obj(TypeNode(t))) != Some(Name(KNull))
    ensures forall k | !IsTypeKey(k) :: Member(Obj(TypeNode(t)), k) == None
  {
    NamesDiffer();
    hide Name, Member, TypeOf, RefKey, FieldNodes, BranchNodes, RequiredJson;
    hide ScalarNode, EnumNode, UnionNode, ArrayNode, ObjectNode;
    ThroughMembers(Obj(TypeNode(t)));
    match t
    case StringType => ScalarMembers(KString);
    case IntegerType => ScalarMembers(KInteger);
    case FloatType => ScalarMembers(KNumber);
    case BooleanType => ScalarMembers(KBoolean);
    case AnyType => EmptyMember();
    case EnumType(names) => EnumMembers(names);
    case OneOfType(_) => UnionMembers(BranchNodes(t));
    case ArrayType(item) => ArrayMembers(Obj(TypeNode(item)));
    case ObjectType(fields) =>
      EmptyMember();
      ObjectMembers(map[], FieldNodes(t), RequiredJson(fields));
  }
}
