/** What is read off a property besides its type, member by member of the JSON node: the
    notes, the default, the example and the bounds, in any document, printed by this program
    or not. */
module FieldReading {
  import opened Text
  import opened Doubles
  import opened JsonSchema
  import opened References
  import opened Schema
  import opened SchemaText
  import opened SchemaRoundTrip
  import opened ProtoTypes

  /** A JSON number that is this double: written as one, or as an integer nearest to it. */
  ghost predicate IsNumber(j: Option<Json>, v: F64) {
    v.Finite? &&
    (j == Some(Num(Double(v.d))) ||
     exists i: int :: j == Some(Num(Integer(i))) && StandsForInteger(v.d, i))
  }

  /** Zero by no bits; up to 53 bits the integer itself, else a double nearest to it. */
  predicate StandsForInteger(d: nat, i: int) {
    var m := if i < 0 then -i else i;
    if m == 0 || m >= U64 then d == 0
    else (IsNegative(d) <==> i < 0) && d == NearestBits(i) &&
         if m < 0x20_0000_0000_0000 then HasMagnitude(d, m) else IsNearest(d, m)
  }

  predicate IsText(j: Option<Json>, s: string) { j == Some(Str(s)) }

  /** The text of a member, or nothing when there is none or it is no text. */
  predicate IsNote(j: Option<Json>, s: string) {
    s == if j.Some? && j.value.Str? then j.value.s else ""
  }

  /** Exactly the bounds and the pattern the node has, in this order. */
  ghost predicate AreConstraintsOf(cs: seq<Constraint>, node: Json) {
    (forall v :: Min(v) in cs <==> IsNumber(Get(node, "minimum"), v)) &&
    (forall v :: Max(v) in cs <==> IsNumber(Get(node, "maximum"), v)) &&
    (forall p :: Pattern(p) in cs <==> IsText(Get(node, "pattern"), p)) &&
    (forall c | c in cs :: c.Min? || c.Max? || c.Pattern?) &&
    forall i, j | 0 <= i < j < |cs| :: (cs[i].Min? && !cs[j].Min?) || (cs[i].Max? && cs[j].Pattern?)
  }

  lemma IntegerStands(i: int)
    ensures StandsForInteger(NearestDouble(i), i)
  {
    var m := if i < 0 then -i else i;
    hide HasMagnitude, IsNearest, IsNegative, HighBit, Significand, BitsOf;
    if 0 < m < 0x20_0000_0000_0000 {
      IntegersAreExact(i);
    } else if 0 < m < U64 {
      LongIntegersAreNearest(i);
    }
  }

  lemma NumberIff(j: Option<Json>, v: F64)
    ensures AsNumber(j) == Some(v) <==> IsNumber(j, v)
  {
    hide NearestBits;
    match j
    case Some(Num(Integer(i))) => IntegerStands(i); OneDouble(i);
    case _ =>
  }

  lemma OneDouble(i: int)
    ensures forall d: nat :: StandsForInteger(d, i) ==> d == NearestDouble(i)
  {
    hide HasMagnitude, IsNearest, IsNegative, HighBit, Significand, BitsOf;
  }

  lemma ConstraintsRead(node: Json)
    ensures AreConstraintsOf(ConstraintsFrom(Get(node, "minimum"), Get(node, "maximum"), Get(node, "pattern")), node)
  {
    hide AsNumber, IsNumber;
    var low, high, pattern := Get(node, "minimum"), Get(node, "maximum"), Get(node, "pattern");
    forall v ensures AsNumber(low) == Some(v) <==> IsNumber(low, v) { NumberIff(low, v); }
    forall v ensures AsNumber(high) == Some(v) <==> IsNumber(high, v) { NumberIff(high, v); }
  }

  /** A property as it is read: every member by its name in the document. */
  lemma FieldReads(node: Json, defs: Object, required: bool)
    requires Ends(Call(ReadsType, node), defs)
    ensures
      var f := FieldSchemaOf(node, defs, required);
      f.fieldType == FieldTypeOf(node, defs) && f.required == required && f.readOnlyWhen == None &&
      IsNote(Get(node, "description"), f.description) &&
      f.default == Get(node, "default") &&
      f.example == (match Get(node, "examples")
                    case Some(Arr(a)) => if a == [] then Get(node, "example") else Some(a[0])
                    case _ => Get(node, "example")) &&
      (f.readOnly <==> Get(node, "readOnly") == Some(Bool(true))) &&
      AreConstraintsOf(f.constraints, node)
  {
    hide Name, FieldTypeOf, Ends, ConstraintsFrom, AreConstraintsOf;
    ConstraintsRead(node);
    NamesOfNotes(node);
    NamesOfBounds(node);
  }

  lemma NamesOfNotes(node: Json)
    ensures Member(node, KDescription) == Get(node, "description") && Member(node, KDefault) == Get(node, "default")
    ensures Member(node, KExamples) == Get(node, "examples") && Member(node, KExample) == Get(node, "example")
    ensures Member(node, KReadOnly) == Get(node, "readOnly")
  {
  }

  lemma NamesOfBounds(node: Json)
    ensures Member(node, KMinimum) == Get(node, "minimum") && Member(node, KMaximum) == Get(node, "maximum")
    ensures Member(node, KPattern) == Get(node, "pattern")
  {
  }

  // ---------------------------------------------------------------- types

  /** The texts in an array member. */
  predicate ListsText(j: Option<Json>, s: string) {
    j.Some? && j.value.Arr? && Str(s) in j.value.items
  }

  /** The members of an object member, none when it is no object. */
  function MembersOf(j: Option<Json>): Object { if j.Some? && j.value.Obj? then j.value.members else map[] }

  lemma {:induction false} StringsInIff(a: seq<Json>, s: string)
    ensures s in StringsIn(a) <==> Str(s) in a
  {
    if a != [] {
      assert a == [a[0]] + a[1..];
      StringsInIff(a[1..], s);
    }
  }

  lemma RequiredIff(j: Option<Json>, k: string)
    ensures k in RequiredSet(j) <==> ListsText(j, k)
  {
    hide StringsIn;
    if j.Some? && j.value.Arr? { StringsInIff(j.value.items, k); }
  }

  /** The type a node that refers to no definition and is no union is read as. */
  ghost predicate ReadsAs(node: Json, defs: Object, t: FieldType)
    requires Ends(Call(ReadsType, node), defs)
  {
    var names := Get(node, "enum");
    if names.Some? && names.value.Arr? then t.EnumType? && forall s :: s in t.names <==> ListsText(names, s)
    else if SaysType(node, "string") then t == StringType
    else if SaysType(node, "integer") then t == IntegerType
    else if SaysType(node, "number") then t == FloatType
    else if SaysType(node, "boolean") then t == BooleanType
    else if SaysType(node, "array") then
      t.ArrayType? &&
      match Get(node, "items")
      case Some(item) => Ends(Call(ReadsType, item), defs) && t.item == FieldTypeOf(item, defs)
      case None => t.item == AnyType
    else if SaysType(node, "object") then
      t.ObjectType? && t.fields.Keys == MembersOf(Get(node, "properties")).Keys &&
      forall k | k in t.fields ::
        var property := MembersOf(Get(node, "properties"))[k];
        Ends(Call(ReadsType, property), defs) &&
        t.fields[k] == FieldSchemaOf(property, defs, ListsText(Get(node, "required"), k))
    else t == AnyType
  }

  lemma NamesOfParts(node: Json)
    ensures Member(node, KEnum) == Get(node, "enum") && Member(node, KItems) == Get(node, "items")
    ensures Member(node, KProperties) == Get(node, "properties") && Member(node, KRequired) == Get(node, "required")
  {
  }

  lemma NamesOfTypes()
    ensures Name(KString) == "string" && Name(KInteger) == "integer" && Name(KNumber) == "number"
    ensures Name(KBoolean) == "boolean" && Name(KArray) == "array" && Name(KObject) == "object"
  {
  }

  lemma TypesSaid(node: Json)
    ensures forall k | k in {KString, KInteger, KNumber, KBoolean, KArray, KObject} ::
              TypeOf(node) == Some(Name(k)) <==> SaysType(node, Name(k))
  {
    hide Name, TypeOf, SaysType;
    forall k { SaysTypeIff(node, Name(k)); }
  }

  lemma PartHasEnd(node: Json, defs: Object, a: Json)
    requires Ends(Call(ReadsType, node), defs) && !IsReference(node, defs) && PartOf(a, node)
    ensures Ends(Call(ReadsType, a), defs)
  {
    hide Ends, PartOf, Depth;
    CallResolves(Call(ReadsType, node), defs);
    PartEnds(a, node, defs);
  }

  lemma EnumReads(node: Json, defs: Object)
    requires Ends(Call(ReadsType, node), defs) && !IsReference(node, defs) && NoUnion(node)
    requires Get(node, "enum").Some? && Get(node, "enum").value.Arr?
    ensures ReadsAs(node, defs, FieldTypeOf(node, defs))
  {
    hide Ends, Depth, Name, TypeOf, SaysType, IsReference, RequiredSet, StringsIn, FieldSchemaOf;
    CallResolves(Call(ReadsType, node), defs);
    NoUnionIsPlain(node);
    NamesOfParts(node);
    forall s ensures s in StringsIn(Get(node, "enum").value.items) <==> Str(s) in Get(node, "enum").value.items {
      StringsInIff(Get(node, "enum").value.items, s);
    }
  }

  lemma ObjectReads(node: Json, defs: Object)
    requires Ends(Call(ReadsType, node), defs) && !IsReference(node, defs) && NoUnion(node)
    requires PlainShape(node).ObjectOf? && PlainShape(node).props == MembersOf(Get(node, "properties"))
    requires forall k :: k in PlainShape(node).required <==> ListsText(Get(node, "required"), k)
    ensures
      var t := FieldTypeOf(node, defs);
      t.ObjectType? && t.fields.Keys == MembersOf(Get(node, "properties")).Keys &&
      forall k | k in t.fields ::
        var property := MembersOf(Get(node, "properties"))[k];
        Ends(Call(ReadsType, property), defs) &&
        t.fields[k] == FieldSchemaOf(property, defs, ListsText(Get(node, "required"), k))
  {
    hide Ends, Depth, IsReference, FieldSchemaOf, PlainShape, ListsText, MembersOf;
    CallResolves(Call(ReadsType, node), defs);
    NoUnionIsPlain(node);
    var props := PlainShape(node).props;
    forall k | k in props ensures Ends(Call(ReadsType, props[k]), defs) {
      assert PartOf(props[k], node);
      PartHasEnd(node, defs, props[k]);
    }
  }

  lemma ArrayReads(node: Json, defs: Object)
    requires Ends(Call(ReadsType, node), defs) && !IsReference(node, defs) && NoUnion(node)
    requires PlainShape(node) == ArrayOf(Get(node, "items"))
    ensures
      var t := FieldTypeOf(node, defs);
      t.ArrayType? &&
      match Get(node, "items")
      case Some(item) => Ends(Call(ReadsType, item), defs) && t.item == FieldTypeOf(item, defs)
      case None => t.item == AnyType
  {
    hide Ends, Depth, IsReference, PlainShape;
    CallResolves(Call(ReadsType, node), defs);
    NoUnionIsPlain(node);
    if Get(node, "items").Some? {
      assert PartOf(Get(node, "items").value, node);
      PartHasEnd(node, defs, Get(node, "items").value);
    }
  }

  lemma ScalarReads(node: Json, defs: Object)
    requires Ends(Call(ReadsType, node), defs) && !IsReference(node, defs) && NoUnion(node) && PlainShape(node).Scalar?
    ensures FieldTypeOf(node, defs) == PlainShape(node).t
  {
    hide Ends, Depth, IsReference, PlainShape;
    CallResolves(Call(ReadsType, node), defs);
    NoUnionIsPlain(node);
  }

  /** The shape of a node that lists no names, by the type it says. */
  lemma PlainShapeSays(node: Json)
    requires !(Get(node, "enum").Some? && Get(node, "enum").value.Arr?)
    ensures PlainShape(node) ==
            if SaysType(node, "string") then Scalar(StringType)
            else if SaysType(node, "integer") then Scalar(IntegerType)
            else if SaysType(node, "number") then Scalar(FloatType)
            else if SaysType(node, "boolean") then Scalar(BooleanType)
            else if SaysType(node, "array") then ArrayOf(Get(node, "items"))
            else if SaysType(node, "object") then
              ObjectOf(MembersOf(Get(node, "properties")), RequiredSet(Get(node, "required")))
            else Scalar(AnyType)
  {
    hide Name, TypeOf, SaysType, RequiredSet;
    NamesOfParts(node);
    NamesOfTypes();
    TypesSaid(node);
  }

  /** A node that refers to no definition and is no union reads as what it says. */
  lemma TypeReads(node: Json, defs: Object)
    requires Ends(Call(ReadsType, node), defs) && !IsReference(node, defs) && NoUnion(node)
    ensures ReadsAs(node, defs, FieldTypeOf(node, defs))
  {
    hide Ends, SaysType, IsReference, RequiredSet, FieldTypeOf, FieldSchemaOf, PlainShape, NoUnion, ListsText;
    hide MembersOf;
    if Get(node, "enum").Some? && Get(node, "enum").value.Arr? {
      EnumReads(node, defs);
    } else {
      PlainShapeSays(node);
      forall k ensures k in RequiredSet(Get(node, "required")) <==> ListsText(Get(node, "required"), k) {
        RequiredIff(Get(node, "required"), k);
      }
      match PlainShape(node)
      case Scalar(_) => ScalarReads(node, defs);
      case ArrayOf(_) => ArrayReads(node, defs);
      case ObjectOf(_, _) => ObjectReads(node, defs);
    }
  }

  // ---------------------------------------------------------------- documents

  predicate IsOwnSubid(props: Object, k: string, s: string) {
    k in props && IsText(Get(props[k], "x-oscal-subid"), s)
  }

  /** The subid of a field is that of its property; the root's own goes under a reserved key. */
  ghost predicate HasSubid(root: Json, top: Json, k: string, s: string) {
    if k == "__schema__" && (exists own :: IsText(Get(root, "x-oscal-subid"), own)) then
      IsText(Get(root, "x-oscal-subid"), s)
    else
      IsOwnSubid(MembersOf(Get(top, "properties")), k, s)
  }

  lemma NamesOfExtensions(node: Json)
    ensures Member(node, KSubid) == Get(node, "x-oscal-subid")
    ensures Member(node, KImmutablePaths) == Get(node, "x-immutable-paths")
  {
  }

  /** The subids of a schema are those of the document. */
  ghost predicate AreSubids(subids: map<string, string>, root: Json, top: Json) {
    forall k, v :: (k in subids && subids[k] == v) <==> HasSubid(root, top, k, v)
  }

  lemma OwnSubids(props: Object, k: string, s: string)
    ensures k in SubidsIn(props) && SubidsIn(props)[k] == s <==> IsOwnSubid(props, k, s)
  {
    if k in props { NamesOfExtensions(props[k]); }
    hide Name;
  }

  lemma SubidsRead(root: Json, top: Json)
    ensures
      var own := SubidsIn(MembersOf(Get(top, "properties")));
      AreSubids(
        match AsString(Get(root, "x-oscal-subid")) case Some(s) => own["__schema__" := s] case None => own, root, top)
  {
    hide SubidsIn, MembersOf, Name;
    var props := MembersOf(Get(top, "properties"));
    forall k, s ensures k in SubidsIn(props) && SubidsIn(props)[k] == s <==> IsOwnSubid(props, k, s) {
      OwnSubids(props, k, s);
    }
    var mine := AsString(Get(root, "x-oscal-subid"));
    assert mine.Some? <==> exists s :: IsText(Get(root, "x-oscal-subid"), s) by {
      if mine.Some? { assert IsText(Get(root, "x-oscal-subid"), mine.value); }
    }
  }

  lemma ReadParts(name: string, version: string, description: string, root: Json)
    requires DocumentEnds(root)
    ensures
      var s, defs := FromJson(name, version, description, root), DefsOf(root);
      Ends(Call(Resolves, root), defs) &&
      var top := Resolve(root, defs);
      var props, own := MembersOf(Get(top, "properties")), SubidsIn(MembersOf(Get(top, "properties")));
      PropertiesEnd(props, defs) &&
      s == PluginSchema(
             name, version, description,
             map k | k in props :: FieldSchemaOf(props[k], defs, k in RequiredSet(Get(top, "required"))), map[],
             match AsString(Get(root, "x-oscal-subid")) case Some(s) => own["__schema__" := s] case None => own,
             PathsFrom(Get(root, "x-immutable-paths")), "https://json-schema.org/draft/2020-12/schema")
  {
    hide Ends, Name, DefsOf, Resolve, FieldSchemaOf, RequiredSet, PathsFrom, SubidsIn;
    RootReads(root);
    NamesOfParts(Resolve(root, DefsOf(root)));
    NamesOfExtensions(root);
  }

  /** A document as it is read: its properties and the extensions by their names. */
  lemma DocumentReads(name: string, version: string, description: string, root: Json)
    requires DocumentEnds(root)
    ensures
      var s, defs := FromJson(name, version, description, root), DefsOf(root);
      Ends(Call(Resolves, root), defs) &&
      var top := Resolve(root, defs);
      s.name == name && s.version == version && s.description == description && s.methods == map[] &&
      s.dialect == "https://json-schema.org/draft/2020-12/schema" &&
      s.fields.Keys == MembersOf(Get(top, "properties")).Keys &&
      (forall k | k in s.fields ::
         var property := MembersOf(Get(top, "properties"))[k];
         Ends(Call(ReadsType, property), defs) &&
         s.fields[k] == FieldSchemaOf(property, defs, ListsText(Get(top, "required"), k))) &&
      AreSubids(s.subids, root, top) &&
      forall p :: p in s.immutablePaths <==> ListsText(Get(root, "x-immutable-paths"), p)
  {
    hide Ends, DefsOf, Resolve, FieldSchemaOf, RequiredSet, ListsText, PathsFrom, SubidsIn, MembersOf, AreSubids;
    hide FromJson;
    ReadParts(name, version, description, root);
    var top := Resolve(root, DefsOf(root));
    SubidsRead(root, top);
    forall k ensures k in RequiredSet(Get(top, "required")) <==> ListsText(Get(top, "required"), k) {
      RequiredIff(Get(top, "required"), k);
    }
    forall p ensures p in PathsFrom(Get(root, "x-immutable-paths")) <==> ListsText(Get(root, "x-immutable-paths"), p) {
      PathsIff(Get(root, "x-immutable-paths"), p);
    }
  }

  lemma PathsIff(j: Option<Json>, p: string)
    ensures p in PathsFrom(j) <==> ListsText(j, p)
  {
    hide StringsIn;
    if j.Some? && j.value.Arr? { StringsInIff(j.value.items, p); }
  }

  // ---------------------------------------------------------------- printed documents

  lemma NamesOfHead()
    ensures Name(KSchema) == "$schema" && Name(KTitle) == "title" && Name(KDescription) == "description"
    ensures Name(KVersion) == "x-plugin-version" && Name(KType) == "type" && Name(KObject) == "object"
  {
  }

  /** A schema as it is printed: what it says of itself, by the names of the document. */
  lemma DocumentPrints(s: PluginSchema)
    ensures
      var root := Obj(RootNode(s));
      Get(root, "$schema") == Some(Str(s.dialect)) && Get(root, "title") == Some(Str(s.name)) &&
      Get(root, "description") == Some(Str(s.description)) && Get(root, "type") == Some(Str("object")) &&
      Get(root, "x-plugin-version") == Some(Str(s.version)) &&
      Get(root, "x-oscal-subid") == (if "__schema__" in s.subids then Some(Str(s.subids["__schema__"])) else None) &&
      Get(root, "x-immutable-paths") ==
        (if s.immutablePaths == [] then None else Some(Arr(Strings(s.immutablePaths)))) &&
      MembersOf(Get(root, "properties")).Keys == s.fields.Keys
  {
    var root := Obj(RootNode(s));
    RootMembers(s);
    OwnMembers(s);
    NamesOfHead();
    NamesOfParts(root);
    NamesOfExtensions(root);
    hide Name, RootNode, Strings, RequiredJson;
  }

  lemma TitleMembers(s: PluginSchema)
    ensures
      var head := Obj(HeadNode(s));
      Member(head, KSchema) == Some(Str(s.dialect)) && Member(head, KTitle) == Some(Str(s.name)) &&
      Member(head, KDescription) == Some(Str(s.description))
  {
    hide Name, Member, Put;
    var n1 := Put(map[], KSchema, Some(Str(s.dialect)));
    var n2 := Put(n1, KTitle, Some(Str(s.name)));
    PutMember(map[], KSchema, Some(Str(s.dialect)));
    PutMember(n1, KTitle, Some(Str(s.name)));
    PutMember(n2, KDescription, Some(Str(s.description)));
  }

  lemma OwnMembers(s: PluginSchema)
    ensures
      var root := Obj(RootNode(s));
      Member(root, KSchema) == Some(Str(s.dialect)) && Member(root, KTitle) == Some(Str(s.name)) &&
      Member(root, KDescription) == Some(Str(s.description)) && Member(root, KType) == Some(Str(Name(KObject))) &&
      Member(root, KVersion) == Some(Str(s.version))
  {
    hide Name, Member, ObjectNode, HeadNode, TailNode, Props, RequiredJson, SCHEMA_KEY;
    TitleMembers(s);
    var body := ObjectNode(HeadNode(s), Props(s), RequiredJson(s.fields));
    ObjectMembers(HeadNode(s), Props(s), RequiredJson(s.fields));
    TailMembers(body, s, KSchema);
    TailMembers(body, s, KTitle);
    TailMembers(body, s, KDescription);
    TailMembers(body, s, KType);
    TailMembers(body, s, KVersion);
  }
}
