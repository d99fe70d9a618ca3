/** Message synthesis of `descriptor.rs`: JSON Schema documents to protobuf message
    definitions, and the symbols those define. */
module Messages {
  import opened Text
  import opened Ordering
  import opened JsonSchema
  import opened References

  const T_DOUBLE: nat := 1
  const T_INT64: nat := 3
  const T_BOOL: nat := 8
  const T_STRING: nat := 9
  const T_MESSAGE: nat := 11
  const L_OPTIONAL: nat := 1
  const L_REPEATED: nat := 3

  // ---------------------------------------------------------------- names

  /** `char::to_uppercase`, whatever the Unicode tables say; only a full stop becomes one. */
  type UppercaseTable = f: char -> string | forall c :: c != '.' ==> '.' !in f(c)
    witness (c: char) => [c]

  const TO_UPPERCASE: UppercaseTable

  /** `to_lowercase` of the characters `is_uppercase` accepts. Separators are not among them,
      and no lower-case form is empty, ends in an underscore or contains a full stop. */
  type LowercaseTable = f: char -> Option<string> |
      forall c :: f(c).Some? ==> c !in "_-." && '.' !in f(c).value && f(c).value != "" &&
                                 f(c).value[|f(c).value| - 1] != '_'
    witness (c: char) => None

  const LOWER_OF_UPPERCASE: LowercaseTable

  function PascalFrom(s: string, upper: bool): string {
    if s == "" then ""
    else if s[0] in "_-." then PascalFrom(s[1..], true)
    else if upper then TO_UPPERCASE(s[0]) + PascalFrom(s[1..], false)
    else [s[0]] + PascalFrom(s[1..], false)
  }

  function PascalCase(s: string): string { PascalFrom(s, true) }

  function SnakeFrom(s: string, out: string, first: bool): string {
    if s == "" then out else
      match LOWER_OF_UPPERCASE(s[0])
      case Some(lower) =>
        var separator := if first || (out != "" && out[|out| - 1] == '_') then "" else "_";
        SnakeFrom(s[1..], out + separator + lower, false)
      case None =>
        SnakeFrom(s[1..], out + (if s[0] in "-." then "_" else [s[0]]), false)
  }

  function SnakeCase(s: string): string { SnakeFrom(s, "", true) }

  function JsonNameFrom(s: string, upper: bool): string {
    if s == "" then ""
    else if s[0] == '_' then JsonNameFrom(s[1..], true)
    else if upper then TO_UPPERCASE(s[0]) + JsonNameFrom(s[1..], false)
    else [s[0]] + JsonNameFrom(s[1..], false)
  }

  function JsonName(s: string): string { JsonNameFrom(s, false) }

  lemma {:induction false} SnakeFromHasNoDot(s: string, out: string, first: bool)
    requires '.' !in out
    ensures '.' !in SnakeFrom(s, out, first)
  {
    if s != "" {
      match LOWER_OF_UPPERCASE(s[0])
      case Some(lower) =>
        var separator := if first || (out != "" && out[|out| - 1] == '_') then "" else "_";
        SnakeFromHasNoDot(s[1..], out + separator + lower, false);
      case None =>
        SnakeFromHasNoDot(s[1..], out + (if s[0] in "-." then "_" else [s[0]]), false);
    }
  }

  // ---------------------------------------------------------------- message synthesis

  /** `typeName` is present on message fields and names a nested message. */
  datatype FieldDef = FieldDef(name: string, number: nat, repeated: bool, protoType: nat, typeName: Option<string>)

  datatype MessageDef = MessageDef(name: string, fields: seq<FieldDef>, nested: seq<MessageDef>)

  /** Result of `proto_type_of`, with the messages it pushes onto `nested`. */
  datatype ProtoType = ProtoType(number: nat, typeName: Option<string>, nested: seq<MessageDef>)

  datatype Parts = Parts(fields: seq<FieldDef>, nested: seq<MessageDef>)

  /** The resolved item schema of an array schema; an array without `items` holds anything. */
  function UnwrapArray(node: Json, defs: Object): (r: Option<Json>)
    requires Ends(Call(AddsProperty, node), defs)
    ensures r.Some? ==>
              Ends(Call(FindsType, r.value), defs) &&
              Depth(Call(FindsType, r.value), defs) < Depth(Call(AddsProperty, node), defs)
  {
    var c := Call(AddsProperty, node);
    CallResolves(c, defs);
    var n := Resolve(node, defs);
    if TypeOf(n) == Some(Name(KArray)) then
      match Get(n, Name(KItems))
      case Some(items) =>
        InnerEnds(c, Call(FindsType, items), defs);
        CallResolves(Call(FindsType, items), defs);
        ResolvedCall(Call(FindsType, items), defs);
        Some(Resolve(items, defs))
      case None =>
        InnerEnds(c, Call(FindsType, EMPTY), defs);
        Some(EMPTY)
    else None
  }

  /** What a property of no array type is, resolved. */
  lemma PlainProperty(node: Json, defs: Object)
    requires Ends(Call(AddsProperty, node), defs) && UnwrapArray(node, defs) == None
    ensures Ends(Call(Resolves, node), defs)
    ensures Ends(Call(FindsType, Resolve(node, defs)), defs)
    ensures Depth(Call(FindsType, Resolve(node, defs)), defs) < Depth(Call(AddsProperty, node), defs)
  {
    hide Ends, Depth, Name, TypeOf, Resolve, Get;
    CallResolves(Call(AddsProperty, node), defs);
    InnerEnds(Call(AddsProperty, node), Call(FindsType, Resolve(node, defs)), defs);
  }

  function MessageName(fieldName: string): string { PascalCase(fieldName) + "Msg" }

  /** The protobuf type of everything that is no message; free-form objects travel as JSON
      text. */
  function ScalarNumber(jsonType: Option<string>): (r: nat)
    ensures r in {T_DOUBLE, T_INT64, T_BOOL, T_STRING}
  {
    if jsonType == Some(Name(KInteger)) then T_INT64
    else if jsonType == Some(Name(KNumber)) then T_DOUBLE
    else if jsonType == Some(Name(KBoolean)) then T_BOOL
    else T_STRING
  }

  function ProtoTypeOf(node: Json, defs: Object, fieldName: string): ProtoType
    requires Ends(Call(FindsType, node), defs)
    decreases Depth(Call(FindsType, node), defs), 0, 0
  {
    var c := Call(FindsType, node);
    CallResolves(c, defs);
    var n := Resolve(node, defs);
    if Alternatives(n).Some? then
      match OnlyBranch(n)
      case Some(branch) =>
        InnerEnds(c, Call(FindsType, branch), defs);
        ProtoTypeOf(branch, defs, fieldName)
      case None => ProtoType(T_STRING, None, [])
    else
      if HasMessage(n) then
        var name := MessageName(fieldName);
        InnerEnds(c, Call(BuildsMessage, n), defs);
        ProtoType(T_MESSAGE, Some(name), [BuildMessage(name, n, defs)])
      else ProtoType(ScalarNumber(TypeOf(n)), None, [])
  }

  function FieldNames(node: Json): seq<string> {
    match GetObject(node, Name(KProperties)) case Some(props) => Keys(props.Keys) case None => []
  }

  lemma FieldIsProperty(node: Json, name: string)
    requires name in FieldNames(node)
    ensures Get(node, Name(KProperties)).Some? && Get(node, Name(KProperties)).value.Obj?
    ensures name in Get(node, Name(KProperties)).value.members
    ensures Get(node, Name(KProperties)).value.members[name] in Properties(node)
  {
    hide Name;
  }

  lemma PropertyEnds(node: Json, fnode: Json, defs: Object)
    requires Ends(Call(BuildsMessage, node), defs) && fnode in Properties(node)
    ensures Ends(Call(AddsProperty, fnode), defs)
    ensures Depth(Call(AddsProperty, fnode), defs) < Depth(Call(BuildsMessage, node), defs)
  {
    hide Ends, Depth, Properties, TypeParts, Items, TypeOf, Alternatives, IsReference;
    NextEnds(Call(BuildsMessage, node), Call(AddsProperty, fnode), defs);
  }

  /** The type of one property: whether it is repeated and what its item is. */
  function PropertyItem(node: Json, name: string, defs: Object): (r: (bool, Json))
    requires Ends(Call(BuildsMessage, node), defs) && name in FieldNames(node)
    ensures Ends(Call(FindsType, r.1), defs)
    ensures Depth(Call(FindsType, r.1), defs) < Depth(Call(BuildsMessage, node), defs)
  {
    FieldIsProperty(node, name);
    var fnode := Get(node, Name(KProperties)).value.members[name];
    PropertyEnds(node, fnode, defs);
    match UnwrapArray(fnode, defs)
    case Some(item) => (true, item)
    case None =>
      PlainProperty(fnode, defs);
      (false, Resolve(fnode, defs))
  }

  /** One round of the loop of `build_message`. */
  function AddProperty(before: Parts, node: Json, name: string, defs: Object): Parts
    requires Ends(Call(BuildsMessage, node), defs) && name in FieldNames(node)
    decreases Depth(Call(BuildsMessage, node), defs), 0, 0
  {
    var (repeated, item) := PropertyItem(node, name, defs);
    var t := ProtoTypeOf(item, defs, name);
    Parts(before.fields + [FieldDef(name, |before.fields| + 1, repeated, t.number, t.typeName)],
          before.nested + t.nested)
  }

  /** The loop of `build_message` after its first `n` properties. */
  function PartsUpTo(node: Json, n: nat, defs: Object): Parts
    requires Ends(Call(BuildsMessage, node), defs) && n <= |FieldNames(node)|
    decreases Depth(Call(BuildsMessage, node), defs), 1, n
  {
    if n == 0 then Parts([], []) else
      AddProperty(PartsUpTo(node, n - 1, defs), node, FieldNames(node)[n - 1], defs)
  }

  function BuildMessage(name: string, node: Json, defs: Object): MessageDef
    requires Ends(Call(BuildsMessage, node), defs)
    decreases Depth(Call(BuildsMessage, node), defs), 2, 0
  {
    var parts := PartsUpTo(node, |FieldNames(node)|, defs);
    MessageDef(name, parts.fields, parts.nested)
  }

  /** What a node that is no reference is synthesized as: a union... */
  lemma ProtoOfUnion(n: Json, defs: Object)
    requires Ends(Call(FindsType, n), defs) && !IsReference(n, defs) && Alternatives(n).Some?
    ensures
      match OnlyBranch(n)
      case Some(x) =>
        Ends(Call(FindsType, x), defs) && Depth(Call(FindsType, x), defs) < Depth(Call(FindsType, n), defs) &&
        forall name :: ProtoTypeOf(n, defs, name) == ProtoTypeOf(x, defs, name)
      case None => forall name :: ProtoTypeOf(n, defs, name) == ProtoType(T_STRING, None, [])
  {
    hide Ends, Depth, OnlyBranch, Alternatives;
    ResolvedResolves(n, defs);
    if OnlyBranch(n).Some? { InnerEnds(Call(FindsType, n), Call(FindsType, OnlyBranch(n).value), defs); }
  }

  /** ...an object with properties... */
  lemma ProtoOfMessage(n: Json, defs: Object)
    requires Ends(Call(FindsType, n), defs) && !IsReference(n, defs) && Alternatives(n).None? && HasMessage(n)
    ensures Ends(Call(BuildsMessage, n), defs)
    ensures Depth(Call(BuildsMessage, n), defs) < Depth(Call(FindsType, n), defs)
    ensures forall name ::
              ProtoTypeOf(n, defs, name) ==
              ProtoType(T_MESSAGE, Some(MessageName(name)), [BuildMessage(MessageName(name), n, defs)])
  {
    hide Ends, Depth, Alternatives, HasMessage, BuildMessage;
    ResolvedResolves(n, defs);
    InnerEnds(Call(FindsType, n), Call(BuildsMessage, n), defs);
  }

  /** ...and anything else. */
  lemma ProtoOfScalar(n: Json, defs: Object)
    requires !IsReference(n, defs) && Alternatives(n).None? && !HasMessage(n)
    ensures Ends(Call(FindsType, n), defs)
    ensures forall name :: ProtoTypeOf(n, defs, name) == ProtoType(ScalarNumber(TypeOf(n)), None, [])
  {
    hide Depth, Alternatives, HasMessage, BuildMessage, TypeOf;
    assert Within(Call(FindsType, n), 1, defs);
    hide Ends;
    ResolvedResolves(n, defs);
  }

  /** `message_from_json_schema` comes to an end. */
  ghost predicate SchemaEnds(schema: Json) {
    Ends(Call(BuildsRoot, schema), DefsOf(schema))
  }

  lemma RootBuilds(schema: Json)
    requires SchemaEnds(schema)
    ensures
      var defs := DefsOf(schema);
      Ends(Call(Resolves, schema), defs) && Ends(Call(BuildsMessage, Resolve(schema, defs)), defs)
  {
    hide Ends, Depth, DefsOf, Resolve;
    var defs := DefsOf(schema);
    CallResolves(Call(BuildsRoot, schema), defs);
    InnerEnds(Call(BuildsRoot, schema), Call(BuildsMessage, Resolve(schema, defs)), defs);
  }

  function MessageFromSchema(name: string, schema: Json): MessageDef
    requires SchemaEnds(schema)
  {
    RootBuilds(schema);
    BuildMessage(name, Resolve(schema, DefsOf(schema)), DefsOf(schema))
  }

  method SynthesizeType(node: Json, defs: Object, fieldName: string, nested: seq<MessageDef>)
    returns (number: nat, typeName: Option<string>, nested': seq<MessageDef>)
    requires Ends(Call(FindsType, node), defs)
    ensures ProtoTypeOf(node, defs, fieldName).number == number
    ensures ProtoTypeOf(node, defs, fieldName).typeName == typeName
    ensures nested' == nested + ProtoTypeOf(node, defs, fieldName).nested
    decreases Depth(Call(FindsType, node), defs)
  {
    hide Ends, Depth, Name, TypeOf, Get, BuildMessage, Alternatives;
    nested' := nested;
    assert nested == nested + [];
    CallResolves(Call(FindsType, node), defs);
    var n := Resolve(node, defs);
    if Alternatives(n).Some? {
      var branch := OnlyBranch(n);
      if branch.None? { return T_STRING, None, nested; }
      InnerEnds(Call(FindsType, node), Call(FindsType, branch.value), defs);
      number, typeName, nested' := SynthesizeType(branch.value, defs, fieldName, nested);
      return;
    }
    if HasMessage(n) {
      var name := MessageName(fieldName);
      InnerEnds(Call(FindsType, node), Call(BuildsMessage, n), defs);
      var def := SynthesizeMessage(name, n, defs);
      nested' := nested + [def];
      return T_MESSAGE, Some(name), nested';
    }
    return ScalarNumber(TypeOf(n)), None, nested;
  }

  method SynthesizeMessage(name: string, node: Json, defs: Object) returns (m: MessageDef)
    requires Ends(Call(BuildsMessage, node), defs)
    ensures m == BuildMessage(name, node, defs)
    decreases Depth(Call(BuildsMessage, node), defs)
  {
    hide Ends, Depth, ProtoTypeOf, PropertyItem, FieldNames;
    var fields: seq<FieldDef>, nested: seq<MessageDef> := [], [];
    var names := FieldNames(node);
    for i := 0 to |names|
      invariant PartsUpTo(node, i, defs) == Parts(fields, nested) && |fields| == i
    {
      var (repeated, item) := PropertyItem(node, names[i], defs);
      var number, typeName;
      number, typeName, nested := SynthesizeType(item, defs, names[i], nested);
      fields := fields + [FieldDef(names[i], i + 1, repeated, number, typeName)];
    }
    return MessageDef(name, fields, nested);
  }

  /** `message_from_json_schema`. */
  method SynthesizeFromSchema(name: string, schema: Json) returns (m: MessageDef)
    requires SchemaEnds(schema)
    ensures m == MessageFromSchema(name, schema)
  {
    hide SchemaEnds, DefsOf, BuildMessage, Resolve;
    RootBuilds(schema);
    m := SynthesizeMessage(name, Resolve(schema, DefsOf(schema)), DefsOf(schema));
  }

  // ---------------------------------------------------------------- shape of a message

  /** The type names of the message-typed fields, in field order. */
  function MessageTypeNames(fields: seq<FieldDef>): seq<string> {
    if fields == [] then [] else
      var last := fields[|fields| - 1];
      MessageTypeNames(fields[..|fields| - 1]) + (if last.typeName.Some? then [last.typeName.value] else [])
  }

  function NamesOf(messages: seq<MessageDef>): (r: seq<string>)
    ensures |r| == |messages|
  {
    seq(|messages|, i requires 0 <= i < |messages| => messages[i].name)
  }

  predicate KnownType(number: nat) { number in {T_DOUBLE, T_INT64, T_BOOL, T_STRING, T_MESSAGE} }

  /** A type this program uses; a message type is named after the field. */
  predicate WellTyped(name: string, protoType: nat, typeName: Option<string>) {
    KnownType(protoType) && (typeName.Some? <==> protoType == T_MESSAGE) &&
    (typeName.Some? ==> typeName.value == MessageName(name))
  }

  /** Fields are numbered 1..n and well-typed; message-typed fields and nested messages
      correspond one to one, in order and by name; and so on inside every nested message. */
  predicate WellFormed(m: MessageDef) {
    (forall i | 0 <= i < |m.fields| :: m.fields[i].number == i + 1) &&
    (forall f | f in m.fields :: WellTyped(f.name, f.protoType, f.typeName)) &&
    MessageTypeNames(m.fields) == NamesOf(m.nested) &&
    forall n | n in m.nested :: WellFormed(n)
  }

  predicate GoodType(t: ProtoType, fieldName: string) {
    WellTyped(fieldName, t.number, t.typeName) &&
    NamesOf(t.nested) == (if t.typeName.Some? then [t.typeName.value] else []) &&
    forall m | m in t.nested :: WellFormed(m)
  }

  lemma FieldAppended(m: MessageDef, name: string, repeated: bool, t: ProtoType)
    requires WellFormed(m) && GoodType(t, name)
    ensures
      var f := FieldDef(name, |m.fields| + 1, repeated, t.number, t.typeName);
      WellFormed(MessageDef(m.name, m.fields + [f], m.nested + t.nested))
  {
    var f := FieldDef(name, |m.fields| + 1, repeated, t.number, t.typeName);
    var fields := m.fields + [f];
    assert fields[..|fields| - 1] == m.fields;
    assert MessageTypeNames(fields) == MessageTypeNames(m.fields) + NamesOf(t.nested);
    assert NamesOf(m.nested + t.nested) == NamesOf(m.nested) + NamesOf(t.nested);
  }

  lemma ScalarIsGood(number: nat, fieldName: string)
    requires KnownType(number) && number != T_MESSAGE
    ensures GoodType(ProtoType(number, None, []), fieldName)
  {
  }

  lemma MessageIsGood(m: MessageDef, fieldName: string)
    requires WellFormed(m) && m.name == MessageName(fieldName)
    ensures GoodType(ProtoType(T_MESSAGE, Some(m.name), [m]), fieldName)
  {
    hide WellFormed;
  }

  lemma {:induction false} ProtoTypeIsGood(node: Json, defs: Object, fieldName: string)
    requires Ends(Call(FindsType, node), defs)
    ensures GoodType(ProtoTypeOf(node, defs, fieldName), fieldName)
    decreases Depth(Call(FindsType, node), defs), 0, 0
  {
    hide Ends, Depth, WellFormed, GoodType, Alternatives, TypeOf, Get, Name, ScalarNumber, HasMessage, BuildMessage;
    forall number | KnownType(number) && number != T_MESSAGE ensures GoodType(ProtoType(number, None, []), fieldName) {
      ScalarIsGood(number, fieldName);
    }
    var c := Call(FindsType, node);
    CallResolves(c, defs);
    var n := Resolve(node, defs);
    if Alternatives(n).Some? {
      var branch := OnlyBranch(n);
      if branch.Some? {
        InnerEnds(c, Call(FindsType, branch.value), defs);
        ProtoTypeIsGood(branch.value, defs, fieldName);
      }
    } else if HasMessage(n) {
      InnerEnds(c, Call(BuildsMessage, n), defs);
      MessageIsWellFormed(MessageName(fieldName), n, defs);
      MessageIsGood(BuildMessage(MessageName(fieldName), n, defs), fieldName);
    }
  }

  lemma {:induction false} PropertyKeepsShape(m: MessageDef, node: Json, fname: string, defs: Object)
    requires Ends(Call(BuildsMessage, node), defs) && fname in FieldNames(node) && WellFormed(m)
    ensures
      var p := AddProperty(Parts(m.fields, m.nested), node, fname, defs);
      WellFormed(MessageDef(m.name, p.fields, p.nested)) &&
      |p.fields| == |m.fields| + 1 && p.fields[..|m.fields|] == m.fields && p.fields[|m.fields|].name == fname
    decreases Depth(Call(BuildsMessage, node), defs), 0, 0
  {
    hide Ends, Depth, ProtoTypeOf, FieldNames, PropertyItem, GoodType, WellFormed;
    var (repeated, item) := PropertyItem(node, fname, defs);
    ProtoTypeIsGood(item, defs, fname);
    FieldAppended(m, fname, repeated, ProtoTypeOf(item, defs, fname));
  }

  lemma {:induction false} PartsAreWellFormed(name: string, node: Json, n: nat, defs: Object)
    requires Ends(Call(BuildsMessage, node), defs) && n <= |FieldNames(node)|
    ensures
      var p := PartsUpTo(node, n, defs);
      WellFormed(MessageDef(name, p.fields, p.nested)) && |p.fields| == n &&
      forall i | 0 <= i < n :: p.fields[i].name == FieldNames(node)[i]
    decreases Depth(Call(BuildsMessage, node), defs), 1, n
  {
    hide Ends, Depth, FieldNames, AddProperty, WellFormed;
    if n == 0 {
      EmptyIsWellFormed(name);
    } else {
      var before := PartsUpTo(node, n - 1, defs);
      PartsAreWellFormed(name, node, n - 1, defs);
      PropertyKeepsShape(MessageDef(name, before.fields, before.nested), node, FieldNames(node)[n - 1], defs);
    }
  }

  lemma EmptyIsWellFormed(name: string)
    ensures WellFormed(MessageDef(name, [], []))
  {
  }

  /** Synthesis, wherever it ends, numbers the properties in name order and declares exactly
      the messages its fields refer to. */
  lemma {:induction false} MessageIsWellFormed(name: string, node: Json, defs: Object)
    requires Ends(Call(BuildsMessage, node), defs)
    ensures
      var m := BuildMessage(name, node, defs);
      WellFormed(m) && m.name == name && |m.fields| == |FieldNames(node)| &&
      forall i | 0 <= i < |m.fields| :: m.fields[i].name == FieldNames(node)[i]
    decreases Depth(Call(BuildsMessage, node), defs), 2, 0
  {
    hide Ends, Depth, WellFormed, PartsUpTo;
    PartsAreWellFormed(name, node, |FieldNames(node)|, defs);
  }

  lemma SynthesisIsWellFormed(name: string, schema: Json)
    requires SchemaEnds(schema)
    ensures WellFormed(MessageFromSchema(name, schema)) && MessageFromSchema(name, schema).name == name
  {
    hide SchemaEnds, DefsOf, BuildMessage, Resolve, WellFormed;
    RootBuilds(schema);
    MessageIsWellFormed(name, Resolve(schema, DefsOf(schema)), DefsOf(schema));
  }

  // ---------------------------------------------------------------- nested symbols

  function NestedSymbols(m: MessageDef, full: string): seq<string>
    decreases m, |m.nested| + 1
  {
    SymbolsFrom(m, full, 0)
  }

  function SymbolsFrom(m: MessageDef, full: string, i: nat): seq<string>
    requires i <= |m.nested|
    decreases m, |m.nested| - i
  {
    if i == |m.nested| then [] else
      var child := full + "." + m.nested[i].name;
      [child] + NestedSymbols(m.nested[i], child) + SymbolsFrom(m, full, i + 1)
  }

  method CollectNestedSymbols(m: MessageDef, full: string, out: seq<string>) returns (out': seq<string>)
    ensures out' == out + NestedSymbols(m, full)
    decreases m
  {
    out' := out;
    for i := 0 to |m.nested|
      invariant out' + SymbolsFrom(m, full, i) == out + NestedSymbols(m, full)
    {
      var child := full + "." + m.nested[i].name;
      out' := out' + [child];
      out' := CollectNestedSymbols(m.nested[i], child, out');
    }
  }

  /** A nested message is addressed by the indices leading to it. */
  predicate IsPath(m: MessageDef, p: seq<nat>) {
    p == [] || (p[0] < |m.nested| && IsPath(m.nested[p[0]], p[1..]))
  }

  function PathName(m: MessageDef, full: string, p: seq<nat>): string
    requires IsPath(m, p)
  {
    if p == [] then full
    else PathName(m.nested[p[0]], full + "." + m.nested[p[0]].name, p[1..])
  }

  function PrependIndex(i: nat, paths: seq<seq<nat>>): (r: seq<seq<nat>>)
    ensures |r| == |paths| && forall k | 0 <= k < |r| :: r[k] == [i] + paths[k]
  {
    seq(|paths|, k requires 0 <= k < |paths| => [i] + paths[k])
  }

  /** All nonempty paths, parents first. */
  function Paths(m: MessageDef): seq<seq<nat>>
    decreases m, |m.nested| + 1
  {
    PathsFrom(m, 0)
  }

  function PathsFrom(m: MessageDef, i: nat): seq<seq<nat>>
    requires i <= |m.nested|
    decreases m, |m.nested| - i
  {
    if i == |m.nested| then [] else
      [[i]] + PrependIndex(i, Paths(m.nested[i])) + PathsFrom(m, i + 1)
  }

  lemma {:induction false} PathsFromAreNamed(m: MessageDef, full: string, i: nat)
    requires i <= |m.nested|
    ensures
      var paths, names := PathsFrom(m, i), SymbolsFrom(m, full, i);
      |paths| == |names| &&
      forall k | 0 <= k < |paths| ::
        paths[k] != [] && paths[k][0] >= i && IsPath(m, paths[k]) && names[k] == PathName(m, full, paths[k])
    decreases m, |m.nested| - i
  {
    if i < |m.nested| {
      var n := m.nested[i];
      var child := full + "." + n.name;
      PathsFromAreNamed(n, child, 0);
      PathsFromAreNamed(m, full, i + 1);
      var here, rest := PrependIndex(i, Paths(n)), PathsFrom(m, i + 1);
      forall k | 0 <= k < |Paths(n)|
        ensures IsPath(m, here[k]) && NestedSymbols(n, child)[k] == PathName(m, full, here[k])
      {
        assert here[k][1..] == Paths(n)[k];
      }
      assert PathName(m, full, [i]) == child by { assert [i][1..] == []; }
    }
  }

  lemma {:induction false} PathsFromAreDistinct(m: MessageDef, i: nat)
    requires i <= |m.nested|
    ensures forall j, k | 0 <= j < k < |PathsFrom(m, i)| :: PathsFrom(m, i)[j] != PathsFrom(m, i)[k]
    decreases m, |m.nested| - i
  {
    if i < |m.nested| {
      var n := m.nested[i];
      PathsFromAreDistinct(n, 0);
      PathsFromAreDistinct(m, i + 1);
      PathsFromAreNamed(n, "", 0);
      PathsFromAreNamed(m, "", i + 1);
      var here := PrependIndex(i, Paths(n));
      forall j, k | 0 <= j < k < |here| ensures here[j] != here[k] {
        assert here[j][1..] == Paths(n)[j] && here[k][1..] == Paths(n)[k];
      }
    }
  }

  lemma {:induction false} PathsFromAreAll(m: MessageDef, i: nat, p: seq<nat>)
    requires i <= |m.nested| && IsPath(m, p) && p != [] && i <= p[0]
    ensures p in PathsFrom(m, i)
    decreases m, |m.nested| - i
  {
    var n := m.nested[i];
    var here := PrependIndex(i, Paths(n));
    if p[0] > i {
      PathsFromAreAll(m, i + 1, p);
    } else if p[1..] == [] {
      assert p == [i];
    } else {
      PathsFromAreAll(n, 0, p[1..]);
      var k :| 0 <= k < |Paths(n)| && Paths(n)[k] == p[1..];
      assert here[k] == p;
    }
  }

  /** The symbol list has exactly one entry for each nested message at any depth, and it is
      that message's qualified name. */
  lemma SymbolsAreThePaths(m: MessageDef, full: string)
    ensures |NestedSymbols(m, full)| == |Paths(m)|
    ensures forall k | 0 <= k < |Paths(m)| ::
              IsPath(m, Paths(m)[k]) && NestedSymbols(m, full)[k] == PathName(m, full, Paths(m)[k])
    ensures forall j, k | 0 <= j < k < |Paths(m)| :: Paths(m)[j] != Paths(m)[k]
    ensures forall p :: p in Paths(m) <==> p != [] && IsPath(m, p)
  {
    PathsFromAreNamed(m, full, 0);
    PathsFromAreDistinct(m, 0);
    forall p | p != [] && IsPath(m, p) ensures p in Paths(m) { PathsFromAreAll(m, 0, p); }
  }
}
