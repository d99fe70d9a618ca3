/** The loops of `schema.rs` and `adapter.rs` that fill maps and vectors, proved to compute
    what `SchemaText` specifies. */
module SchemaMethods {
  import opened Text
  import opened Ordering
  import opened JsonSchema
  import opened References
  import opened Schema
  import opened SchemaText

  // ---------------------------------------------------------------- printing

  /** What a loop over `names` has put into the `required` array after `i` rounds. */
  ghost function RequiredUpto(fields: map<string, FieldSchema>, names: seq<string>, i: nat): seq<Json>
    requires i <= |names| && forall n | n in names :: n in fields
  {
    Strings(RequiredNames(fields, names[..i]))
  }

  lemma RequiredStep(fields: map<string, FieldSchema>, names: seq<string>, i: nat)
    requires i < |names| && forall n | n in names :: n in fields
    ensures RequiredUpto(fields, names, i + 1) ==
            RequiredUpto(fields, names, i) + (if fields[names[i]].required then [Str(names[i])] else [])
  {
    assert names[..i + 1][..i] == names[..i];
  }

  lemma RequiredAll(fields: map<string, FieldSchema>, names: seq<string>)
    requires forall n | n in names :: n in fields
    ensures RequiredUpto(fields, names, 0) == []
    ensures RequiredUpto(fields, names, |names|) == Strings(RequiredNames(fields, names))
  {
    assert names[..|names|] == names;
  }

  method PrintFields(whole: FieldType) returns (props: Object, required: seq<Json>)
    requires whole.ObjectType?
    ensures props == FieldNodes(whole)
    ensures required == Strings(RequiredNames(whole.fields, Keys(whole.fields.Keys)))
    decreases whole, 1, 0
  {
    hide Filled, FieldNode, RequiredUpto, Strings, RequiredNames, Sort;
    props, required := map[], [];
    var names := Keys(whole.fields.Keys);
    FillNone(FieldNodes(whole), names);
    RequiredAll(whole.fields, names);
    for i := 0 to |names|
      invariant props == Filled(FieldNodes(whole), names, i)
      invariant required == RequiredUpto(whole.fields, names, i)
    {
      var f := whole.fields[names[i]];
      RequiredStep(whole.fields, names, i);
      if f.required { required := required + [Str(names[i])]; }
      var node := FieldToJsonSchema(f);
      FillStep(FieldNodes(whole), names, i);
      props := props[names[i] := Obj(node)];
    }
    FillAll(FieldNodes(whole), names);
  }

  method PrintObject(whole: FieldType) returns (node: Object)
    requires whole.ObjectType?
    ensures node == ObjectNode(map[], FieldNodes(whole), RequiredJson(whole.fields))
    decreases whole, 1, 1
  {
    hide Name, FieldNodes, RequiredNames, Strings;
    var props, required := PrintFields(whole);
    node := map[Name(KType) := Str(Name(KObject))];
    node := node[Name(KProperties) := Obj(props)];
    if required != [] { node := node[Name(KRequired) := Arr(required)]; }
  }

  method PrintBranches(whole: FieldType) returns (nodes: seq<Json>)
    requires whole.OneOfType?
    ensures nodes == BranchNodes(whole)
    decreases whole, 1
  {
    hide TypeNode;
    nodes := [];
    for i := 0 to |whole.branches|
      invariant |nodes| == i && forall j | 0 <= j < i :: nodes[j] == BranchNodes(whole)[j]
    {
      var branch := TypeToJsonSchema(whole.branches[i]);
      nodes := nodes + [Obj(branch)];
    }
  }

  method TypeToJsonSchema(t: FieldType) returns (node: Object)
    ensures node == TypeNode(t)
    decreases t, 2
  {
    hide Name, FieldNodes, BranchNodes, RequiredJson, ScalarNode, EnumNode, UnionNode, ArrayNode, ObjectNode;
    match t
    case StringType => return ScalarNode(KString);
    case IntegerType => return ScalarNode(KInteger);
    case FloatType => return ScalarNode(KNumber);
    case BooleanType => return ScalarNode(KBoolean);
    case AnyType => return map[];
    case EnumType(names) => return EnumNode(names);
    case OneOfType(_) =>
      var nodes := PrintBranches(t);
      return UnionNode(nodes);
    case ArrayType(item) =>
      var inner := TypeToJsonSchema(item);
      return ArrayNode(Obj(inner));
    case ObjectType(_) => node := PrintObject(t);
  }

  method FieldToJsonSchema(f: FieldSchema) returns (node: Object)
    ensures node == FieldNode(f)
    decreases f, 3
  {
    node := TypeToJsonSchema(f.fieldType);
    if f.description != "" { node := node[Name(KDescription) := Str(f.description)]; }
    if f.default.Some? { node := node[Name(KDefault) := f.default.value]; }
    if f.example.Some? { node := node[Name(KExamples) := Arr([f.example.value])]; }
    if f.readOnly { node := node[Name(KReadOnly) := Bool(true)]; }
    ghost var start := node;
    for i := 0 to |f.constraints|
      invariant node == AddConstraints(start, f.constraints[..i])
    {
      match f.constraints[i] {
        case Min(value) => node := node[Name(KMinimum) := NumberJson(value)];
        case Max(value) => node := node[Name(KMaximum) := NumberJson(value)];
        case Pattern(regex) => node := node[Name(KPattern) := Str(regex)];
        case _ =>
      }
      assert f.constraints[..i + 1][..i] == f.constraints[..i];
    }
    assert f.constraints[..|f.constraints|] == f.constraints;
  }

  method PrintProps(s: PluginSchema) returns (props: Object, required: seq<Json>)
    ensures props == Props(s)
    ensures required == Strings(RequiredNames(s.fields, Keys(s.fields.Keys)))
  {
    hide Filled, FieldNode, RequiredUpto, Strings, RequiredNames, Sort, Name;
    props, required := map[], [];
    var names := Keys(s.fields.Keys);
    FillNone(Props(s), names);
    RequiredAll(s.fields, names);
    for i := 0 to |names|
      invariant props == Filled(Props(s), names, i)
      invariant required == RequiredUpto(s.fields, names, i)
    {
      var f := s.fields[names[i]];
      RequiredStep(s.fields, names, i);
      if f.required { required := required + [Str(names[i])]; }
      var node := FieldToJsonSchema(f);
      if names[i] in s.subids { node := node[Name(KSubid) := Str(s.subids[names[i]])]; }
      FillStep(Props(s), names, i);
      props := props[names[i] := Obj(node)];
    }
    FillAll(Props(s), names);
  }

  method ToJsonSchema(s: PluginSchema) returns (root: Object)
    ensures root == RootNode(s)
  {
    hide Name, Props, Strings, RequiredNames, SCHEMA_KEY;
    var props, required := PrintProps(s);
    root := map[Name(KSchema) := Str(s.dialect)];
    root := root[Name(KTitle) := Str(s.name)];
    root := root[Name(KDescription) := Str(s.description)];
    assert root == HeadNode(s);
    hide HeadNode;
    root := root[Name(KType) := Str(Name(KObject))];
    root := root[Name(KProperties) := Obj(props)];
    if required != [] { root := root[Name(KRequired) := Arr(required)]; }
    assert root == ObjectNode(HeadNode(s), Props(s), RequiredJson(s.fields));
    hide ObjectNode, RequiredJson;
    if SCHEMA_KEY in s.subids { root := root[Name(KSubid) := Str(s.subids[SCHEMA_KEY])]; }
    if s.immutablePaths != [] { root := root[Name(KImmutablePaths) := Arr(Strings(s.immutablePaths))]; }
    root := root[Name(KVersion) := Str(s.version)];
  }

  // ---------------------------------------------------------------- reading

  /** The fields of an object node whose shape is `ObjectOf`. */
  method ReadFields(node: Json, defs: Object) returns (fields: map<string, FieldSchema>)
    requires Ends(Call(ReadsType, node), defs) && Ends(Call(Resolves, node), defs)
    requires ShapeOf(Resolve(node, defs)).ObjectOf?
    ensures FieldTypeOf(node, defs) == ObjectType(fields)
    decreases Depth(Call(ReadsType, node), defs), 0
  {
    hide Ends, Depth, ShapeOf, FieldSchemaOf, Filled;
    var shape := ShapeOf(Resolve(node, defs));
    var names := Keys(shape.props.Keys);
    ghost var whole := FieldTypeOf(node, defs).fields;
    fields := map[];
    FillNone(whole, names);
    for i := 0 to |names|
      invariant fields == Filled(whole, names, i)
    {
      var name := names[i];
      PartEnds(shape.props[name], node, defs);
      var f := ReadFieldSchema(shape.props[name], defs, name in shape.required);
      FillStep(whole, names, i);
      fields := fields[name := f];
    }
    FillAll(whole, names);
  }

  method ReadFieldType(node: Json, defs: Object) returns (t: FieldType)
    requires Ends(Call(ReadsType, node), defs)
    ensures t == FieldTypeOf(node, defs)
    decreases Depth(Call(ReadsType, node), defs), 1
  {
    hide Ends, Depth, ShapeOf, FieldSchemaOf;
    CallResolves(Call(ReadsType, node), defs);
    var n := Resolve(node, defs);
    match ShapeOf(n)
    case Scalar(plain) => return plain;
    case One(branch) =>
      PartEnds(branch, node, defs);
      t := ReadFieldType(branch, defs);
    case Many(branches) =>
      var types: seq<FieldType> := [];
      for i := 0 to |branches|
        invariant |types| == i
        invariant forall j | 0 <= j < i :: types[j] == FieldTypeOf(node, defs).branches[j]
      {
        PartEnds(branches[i], node, defs);
        var branch := ReadFieldType(branches[i], defs);
        types := types + [branch];
      }
      assert types == FieldTypeOf(node, defs).branches;
      return OneOfType(types);
    case ArrayOf(items) =>
      if items.None? { return ArrayType(AnyType); }
      PartEnds(items.value, node, defs);
      var item := ReadFieldType(items.value, defs);
      return ArrayType(item);
    case ObjectOf(_, _) =>
      var fields := ReadFields(node, defs);
      return ObjectType(fields);
  }

  method ReadFieldSchema(node: Json, defs: Object, required: bool) returns (f: FieldSchema)
    requires Ends(Call(ReadsType, node), defs)
    ensures f == FieldSchemaOf(node, defs, required)
    decreases Depth(Call(ReadsType, node), defs), 2
  {
    hide Ends, Depth, FieldTypeOf, Name, Member, AsNumber, AsString, ExampleFrom;
    var t := ReadFieldType(node, defs);
    var constraints: seq<Constraint> := [];
    var minimum, maximum := AsNumber(Member(node, KMinimum)), AsNumber(Member(node, KMaximum));
    var pattern := AsString(Member(node, KPattern));
    if minimum.Some? { constraints := constraints + [Min(minimum.value)]; }
    if maximum.Some? { constraints := constraints + [Max(maximum.value)]; }
    if pattern.Some? { constraints := constraints + [Pattern(pattern.value)]; }
    return FieldSchema(t, required, AsString(Member(node, KDescription)).GetOr(""), Member(node, KDefault),
                       ExampleFrom(Member(node, KExamples), Member(node, KExample)), constraints,
                       Member(node, KReadOnly) == Some(Bool(true)), None);
  }

  method ReadProps(props: Object, defs: Object, required: set<string>)
    returns (fields: map<string, FieldSchema>, subids: map<string, string>)
    requires PropertiesEnd(props, defs)
    ensures fields == map k | k in props :: FieldSchemaOf(props[k], defs, k in required)
    ensures subids == SubidsIn(props)
  {
    hide Ends, FieldSchemaOf, Name, Member, Filled, Sort;
    fields, subids := map[], map[];
    var names := Keys(props.Keys);
    ghost var whole := map k | k in props :: FieldSchemaOf(props[k], defs, k in required);
    FillNone(whole, names);
    FillNone(SubidsIn(props), names);
    for i := 0 to |names|
      invariant fields == Filled(whole, names, i) && subids == Filled(SubidsIn(props), names, i)
    {
      var fname := names[i];
      var f := ReadFieldSchema(props[fname], defs, fname in required);
      FillStep(whole, names, i);
      fields := fields[fname := f];
      var subid := AsString(Member(props[fname], KSubid));
      FillStep(SubidsIn(props), names, i);
      if subid.Some? { subids := subids[fname := subid.value]; }
    }
    FillAll(whole, names);
    FillAll(SubidsIn(props), names);
  }

  method PluginSchemaFromJson(name: string, version: string, description: string, root: Json)
    returns (s: PluginSchema)
    requires DocumentEnds(root)
    ensures s == FromJson(name, version, description, root)
  {
    hide DocumentEnds, DefsOf, FieldSchemaOf, Name, Member, RequiredSet, SubidsIn, Resolve, SCHEMA_KEY, AsObject,
         PathsFrom, AsString;
    RootReads(root);
    var defs := DefsOf(root);
    var top := Resolve(root, defs);
    var fields, subids := ReadProps(AsObject(Member(top, KProperties)), defs, RequiredSet(Member(top, KRequired)));
    var own := AsString(Member(root, KSubid));
    if own.Some? { subids := subids[SCHEMA_KEY := own.value]; }
    return PluginSchema(name, version, description, fields, map[], subids,
                        PathsFrom(Member(root, KImmutablePaths)),
                        DIALECT_2020_12);
  }
}
