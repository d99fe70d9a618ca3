/** JSON values, and what `descriptor.rs` and `adapter.rs` both look at in the JSON Schema
    documents they read. */
module JsonSchema {
  import opened Text

  /** The member names and type names of JSON Schema documents this program reads or
      writes. */
  datatype Keyword =
    | KRef | KDefs | KDefinitions | KAnyOf | KOneOf | KEnum | KType | KItems | KProperties | KRequired
    | KDescription | KDefault | KExample | KExamples | KReadOnly | KMinimum | KMaximum | KPattern
    | KSubid | KImmutablePaths | KSchema | KTitle | KVersion
    | KString | KInteger | KNumber | KBoolean | KArray | KObject | KNull

  function Name(k: Keyword): string {
    match k
    case KRef => "$ref" case KDefs => "$defs" case KDefinitions => "definitions"
    case KAnyOf => "anyOf" case KOneOf => "oneOf" case KEnum => "enum"
    case KType => "type" case KItems => "items" case KProperties => "properties" case KRequired => "required"
    case KDescription => "description" case KDefault => "default"
    case KExample => "example" case KExamples => "examples" case KReadOnly => "readOnly"
    case KMinimum => "minimum" case KMaximum => "maximum" case KPattern => "pattern"
    case KSubid => "x-oscal-subid" case KImmutablePaths => "x-immutable-paths"
    case KSchema => "$schema" case KTitle => "title" case KVersion => "x-plugin-version"
    case KString => "string" case KInteger => "integer" case KNumber => "number" case KBoolean => "boolean"
    case KArray => "array" case KObject => "object" case KNull => "null"
  }

  lemma SameShortName(a: Keyword, b: Keyword)
    requires Name(a) == Name(b) && |Name(a)| <= 5
    ensures a == b
  {
  }

  lemma SameMiddleName(a: Keyword, b: Keyword)
    requires Name(a) == Name(b) && 6 <= |Name(a)| <= 7
    ensures a == b
  {
  }

  lemma SameLongName(a: Keyword, b: Keyword)
    requires Name(a) == Name(b) && 8 <= |Name(a)| <= 10
    ensures a == b
  {
  }

  lemma SameVeryLongName(a: Keyword, b: Keyword)
    requires Name(a) == Name(b) && |Name(a)| > 10
    ensures a == b
  {
  }

  lemma SameName(a: Keyword, b: Keyword)
    requires Name(a) == Name(b)
    ensures a == b
  {
    hide Name;
    if |Name(a)| <= 5 { SameShortName(a, b); }
    else if |Name(a)| <= 7 { SameMiddleName(a, b); }
    else if |Name(a)| <= 10 { SameLongName(a, b); }
    else { SameVeryLongName(a, b); }
  }

  lemma NamesDiffer()
    ensures forall a, b | Name(a) == Name(b) :: a == b
  {
    forall a, b | Name(a) == Name(b) ensures a == b { SameName(a, b); }
  }

  /** A finite double by its bit pattern: the exponent field is not all ones. */
  type FiniteDouble = b: nat | b < U64 && b / 0x10_0000_0000_0000 % 0x800 != 0x7FF

  /** Integers and doubles as `serde_json::Number` keeps them apart. */
  datatype Number = Integer(i: int) | Double(d: FiniteDouble)

  datatype Json =
    | Null
    | Bool(b: bool)
    | Num(n: Number)
    | Str(s: string)
    | Arr(items: seq<Json>)
    | Obj(members: map<string, Json>)

  type Object = map<string, Json>

  const EMPTY := Obj(map[])

  // ---------------------------------------------------------------- accessors

  function Get(node: Json, key: string): (r: Option<Json>)
    ensures r.Some? ==> node.Obj? && key in node.members && r.value == node.members[key]
  {
    if node.Obj? && key in node.members then Some(node.members[key]) else None
  }

  function GetObject(node: Json, key: string): Option<Object> {
    match Get(node, key) case Some(Obj(m)) => Some(m) case _ => None
  }

  function GetArray(node: Json, key: string): Option<seq<Json>> {
    match Get(node, key) case Some(Arr(a)) => Some(a) case _ => None
  }

  function GetString(node: Json, key: string): Option<string> {
    match Get(node, key) case Some(Str(s)) => Some(s) case _ => None
  }

  /** The first entry of a `type` array that is not `"null"`. */
  function FirstNonNull(types: seq<Json>): Option<string> {
    if types == [] then None
    else if types[0].Str? && types[0].s != Name(KNull) then Some(types[0].s)
    else FirstNonNull(types[1..])
  }

  /** `json_type` and `type_str`: `"type": "t"` or `"type": ["t", "null"]`. */
  function TypeOf(node: Json): Option<string> {
    match Get(node, Name(KType))
    case Some(Str(s)) => Some(s)
    case Some(Arr(a)) => FirstNonNull(a)
    case _ => None
  }

  /** `anyOf`, else `oneOf`, when that is an array. */
  function Alternatives(node: Json): Option<seq<Json>> {
    if Get(node, Name(KAnyOf)).Some? then GetArray(node, Name(KAnyOf)) else GetArray(node, Name(KOneOf))
  }

  function NonNull(alternatives: seq<Json>): (r: seq<Json>)
    ensures forall a | a in r :: a in alternatives
  {
    if alternatives == [] then []
    else if TypeOf(alternatives[0]) != Some(Name(KNull)) then [alternatives[0]] + NonNull(alternatives[1..])
    else NonNull(alternatives[1..])
  }

  lemma {:induction false} AllNonNull(alternatives: seq<Json>)
    requires forall a | a in alternatives :: TypeOf(a) != Some(Name(KNull))
    ensures NonNull(alternatives) == alternatives
  {
    hide Name, TypeOf;
    if alternatives != [] { AllNonNull(alternatives[1..]); }
  }

  // ---------------------------------------------------------------- references

  /** `rsplit('/').next()`. */
  function LastSegment(s: string): string {
    if s == "" || s[|s| - 1] == '/' then "" else LastSegment(s[..|s| - 1]) + [s[|s| - 1]]
  }

  /** `k` is what stands behind the last slash of `s`, or all of `s` when there is none. */
  ghost predicate EndsIn(s: string, k: string) {
    '/' !in k && (s == k || exists p: string :: s == p + "/" + k)
  }

  lemma {:induction false} EndsInLastSegment(s: string)
    ensures EndsIn(s, LastSegment(s))
  {
    if s != "" {
      var before, c := s[..|s| - 1], s[|s| - 1];
      assert s == before + [c];
      if c == '/' {
        assert s == before + "/" + "";
      } else {
        EndsInLastSegment(before);
        var k := LastSegment(before);
        if before != k {
          var p: string :| before == p + "/" + k;
          assert s == p + "/" + (k + [c]);
        }
      }
    }
  }

  lemma EndShape(s: string, k: string)
    requires EndsIn(s, k)
    ensures |k| <= |s| && k == s[|s| - |k|..] && (|k| < |s| ==> s[|s| - |k| - 1] == '/')
    ensures forall i | |s| - |k| <= i < |s| :: s[i] != '/'
  {
    if s != k {
      var p: string :| s == p + "/" + k;
      assert s[|p|] == '/';
    }
    forall i | |s| - |k| <= i < |s| ensures s[i] != '/' { assert s[i] == k[i - (|s| - |k|)]; }
  }

  /** `LastSegment` is the one such text. */
  lemma LastSegmentIff(s: string, k: string)
    ensures EndsIn(s, k) <==> k == LastSegment(s)
  {
    hide LastSegment, EndsIn;
    EndsInLastSegment(s);
    EndShape(s, LastSegment(s));
    if EndsIn(s, k) { EndShape(s, k); }
  }

  function RefKey(node: Json): Option<string> {
    match GetString(node, Name(KRef)) case Some(r) => Some(LastSegment(r)) case None => None
  }

  /** The definitions of a document: `$defs`, else `definitions`. */
  function DefsOf(root: Json): Object {
    var key := if Get(root, Name(KDefs)).Some? then Name(KDefs) else Name(KDefinitions);
    GetObject(root, key).GetOr(map[])
  }
}
