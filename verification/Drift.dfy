/** `schema_diffs` of `adapter.rs`: the drift between a reference schema and a derived one,
    and what an empty drift says about the two. */
module Drift {
  import opened Numerals
  import opened Ordering
  import opened Schema

  /** How `format!` prints an `f64`. */
  const SHOW_F64: F64 -> string

  /** Distinct numbers print differently. */
  ghost predicate TellsApart(show: F64 -> string) {
    forall a, b | show(a) == show(b) :: a == b
  }

  /** There are printers like that: for one, the bit pattern in decimal. */
  lemma SomePrinterTellsApart()
    ensures exists show :: TellsApart(show)
  {
    var show := (v: F64) => match v
      case Finite(d) => Decimal(d)
      case PositiveInfinity => "+inf" case NegativeInfinity => "+-inf" case NotANumber => "+NaN";
    forall a, b | show(a) == show(b) ensures a == b {
      if a.Finite? { DigitsOfDecimal(a.d); }
      if b.Finite? { DigitsOfDecimal(b.d); }
    }
    assert TellsApart(show);
  }

  // ---------------------------------------------------------------- tags

  function Join(parts: seq<string>, separator: string): string {
    if parts == [] then ""
    else if |parts| == 1 then parts[0]
    else parts[0] + separator + Join(parts[1..], separator)
  }

  function TypeTag(t: FieldType): string
    decreases t, 1
  {
    match t
    case StringType => "string"
    case IntegerType => "integer"
    case FloatType => "float"
    case BooleanType => "boolean"
    case AnyType => "any"
    case EnumType(_) => "enum"
    case OneOfType(_) => "one_of<" + Join(Sort(multiset(BranchTags(t))), "|") + ">"
    case ArrayType(item) => "array<" + TypeTag(item) + ">"
    case ObjectType(_) => "object{" + Join(Sort(multiset(FieldTags(t))), ",") + "}"
  }

  function BranchTags(t: FieldType): (r: seq<string>)
    requires t.OneOfType?
    ensures |r| == |t.branches|
    decreases t, 0
  {
    seq(|t.branches|, i requires 0 <= i < |t.branches| => TypeTag(t.branches[i]))
  }

  function FieldTags(t: FieldType): (r: seq<string>)
    requires t.ObjectType?
    ensures |r| == |t.fields|
    decreases t, 0
  {
    var names := Keys(t.fields.Keys);
    seq(|names|, i requires 0 <= i < |names| =>
      assert names[i] in names; names[i] + ":" + TypeTag(t.fields[names[i]].fieldType))
  }

  function ConstraintTag(c: Constraint): string {
    match c
    case Min(v) => "min:" + SHOW_F64(v)
    case Max(v) => "max:" + SHOW_F64(v)
    case Pattern(regex) => "pattern:" + regex
    case OneOf(_) => "oneof"
    case RequiresField(field) => "requires:" + field
    case Custom(validator) => "custom:" + validator
  }

  function ConstraintTags(cs: seq<Constraint>): seq<string> {
    Sort(multiset(Tags(cs)))
  }

  function Tags(cs: seq<Constraint>): (r: seq<string>)
    ensures |r| == |cs|
  {
    seq(|cs|, i requires 0 <= i < |cs| => ConstraintTag(cs[i]))
  }

  // ---------------------------------------------------------------- drift

  datatype Segment = Field(name: string) | Items | Branch(index: nat)

  datatype Aspect =
    | PluginName | PluginVersion | PluginDescription | ImmutablePaths | Subids
    | Type | Required | Description | Default | Example | Constraints | ReadOnly | BranchCount
    | Dropped | Added

  datatype Diff = Diff(path: seq<Segment>, aspect: Aspect)

  function If(differs: bool, path: seq<Segment>, aspect: Aspect): (r: seq<Diff>)
    ensures r == [] <==> !differs
  {
    if differs then [Diff(path, aspect)] else []
  }

  /** `field_diffs` before it goes into the types. */
  function OwnDrift(path: seq<Segment>, r: FieldSchema, v: FieldSchema): seq<Diff> {
    If(TypeTag(r.fieldType) != TypeTag(v.fieldType), path, Type) +
    If(r.required != v.required, path, Required) +
    If(r.description != v.description, path, Description) +
    If(r.default != v.default, path, Default) +
    If(r.example != v.example, path, Example) +
    If(ConstraintTags(r.constraints) != ConstraintTags(v.constraints), path, Constraints) +
    If(r.readOnly != v.readOnly, path, ReadOnly)
  }

  function FieldDrift(path: seq<Segment>, r: FieldSchema, v: FieldSchema): seq<Diff>
    decreases r, 2
  {
    OwnDrift(path, r, v) + TypeDrift(path, r.fieldType, v.fieldType)
  }

  function TypeDrift(path: seq<Segment>, r: FieldType, v: FieldType): seq<Diff>
    decreases r, 1, 0
  {
    if r.ArrayType? && v.ArrayType? then TypeDrift(path + [Items], r.item, v.item)
    else if r.ObjectType? && v.ObjectType? then
      FieldsDrift(path, r, v, Keys(r.fields.Keys + v.fields.Keys))
    else if r.OneOfType? && v.OneOfType? then
      If(|r.branches| != |v.branches|, path, BranchCount) +
      BranchesDrift(path, r, v, if |r.branches| < |v.branches| then |r.branches| else |v.branches|)
    else []
  }

  /** The fields called `names`, the last one last. */
  function FieldsDrift(path: seq<Segment>, r: FieldType, v: FieldType, names: seq<string>): seq<Diff>
    requires r.ObjectType? && v.ObjectType?
    decreases r, 0, |names| + 1
  {
    if names == [] then [] else
      FieldsDrift(path, r, v, names[..|names| - 1]) +
      EntryDrift(path + [Field(names[|names| - 1])], r, v, names[|names| - 1])
  }

  function EntryDrift(path: seq<Segment>, r: FieldType, v: FieldType, k: string): seq<Diff>
    requires r.ObjectType? && v.ObjectType?
    decreases r, 0, 0
  {
    if k in r.fields && k in v.fields then FieldDrift(path, r.fields[k], v.fields[k])
    else MissingDrift(path, k in r.fields, k in v.fields)
  }

  function MissingDrift(path: seq<Segment>, inReference: bool, inDerived: bool): seq<Diff> {
    if inReference && !inDerived then [Diff(path, Dropped)]
    else if !inReference && inDerived then [Diff(path, Added)]
    else []
  }

  /** The first `n` branches. */
  function BranchesDrift(path: seq<Segment>, r: FieldType, v: FieldType, n: nat): seq<Diff>
    requires r.OneOfType? && v.OneOfType? && n <= |r.branches| && n <= |v.branches|
    decreases r, 0, n
  {
    if n == 0 then [] else
      BranchesDrift(path, r, v, n - 1) + TypeDrift(path + [Branch(n - 1)], r.branches[n - 1], v.branches[n - 1])
  }

  /** The fields of the schema itself, looked at as those of one object type. */
  function TopFields(s: PluginSchema): FieldType { ObjectType(s.fields) }

  function HeadDrift(r: PluginSchema, v: PluginSchema): seq<Diff> {
    If(r.name != v.name, [], PluginName) +
    If(r.version != v.version, [], PluginVersion) +
    If(r.description != v.description, [], PluginDescription) +
    If(Sort(multiset(r.immutablePaths)) != Sort(multiset(v.immutablePaths)), [], ImmutablePaths) +
    If(r.subids != v.subids, [], Subids)
  }

  /** `schema_diffs`. */
  function SchemaDrift(r: PluginSchema, v: PluginSchema): seq<Diff> {
    HeadDrift(r, v) + FieldsDrift([], TopFields(r), TopFields(v), Keys(r.fields.Keys + v.fields.Keys))
  }

  // ---------------------------------------------------------------- agreement

  /** A constraint without the values of a `OneOf`. */
  function Blind(c: Constraint): Constraint { if c.OneOf? then OneOf([]) else c }

  function Blinded(cs: seq<Constraint>): (r: seq<Constraint>)
    ensures |r| == |cs|
  {
    seq(|cs|, i requires 0 <= i < |cs| => Blind(cs[i]))
  }

  /** The same type, whatever the members of enums. */
  predicate SameType(r: FieldType, v: FieldType)
    decreases r
  {
    match r
    case EnumType(_) => v.EnumType?
    case OneOfType(branches) =>
      v.OneOfType? && |branches| == |v.branches| &&
      forall i | 0 <= i < |branches| :: SameType(branches[i], v.branches[i])
    case ArrayType(item) => v.ArrayType? && SameType(item, v.item)
    case ObjectType(fields) =>
      v.ObjectType? && fields.Keys == v.fields.Keys && forall k | k in fields :: SameField(fields[k], v.fields[k])
    case _ => r == v
  }

  /** The same field, whatever the order of its constraints and its `readOnlyWhen`. */
  predicate SameField(r: FieldSchema, v: FieldSchema)
    decreases r
  {
    SameType(r.fieldType, v.fieldType) && r.required == v.required && r.description == v.description &&
    r.default == v.default && r.example == v.example && r.readOnly == v.readOnly &&
    multiset(Blinded(r.constraints)) == multiset(Blinded(v.constraints))
  }

  /** The same contract, whatever the order of immutable paths, the methods and the dialect. */
  predicate SameSchema(r: PluginSchema, v: PluginSchema) {
    r.name == v.name && r.version == v.version && r.description == v.description && r.subids == v.subids &&
    multiset(r.immutablePaths) == multiset(v.immutablePaths) && SameType(TopFields(r), TopFields(v))
  }

  /** Where both types have a union, branches of equal position have equal tags. The code
      compares the tags of a union's branches only as a sorted list. */
  predicate Aligned(r: FieldType, v: FieldType)
    decreases r
  {
    if r.ArrayType? && v.ArrayType? then Aligned(r.item, v.item)
    else if r.ObjectType? && v.ObjectType? then
      forall k | k in r.fields && k in v.fields :: AlignedField(r.fields[k], v.fields[k])
    else if r.OneOfType? && v.OneOfType? then
      forall i | 0 <= i < |r.branches| && i < |v.branches| ::
        TypeTag(r.branches[i]) == TypeTag(v.branches[i]) && Aligned(r.branches[i], v.branches[i])
    else true
  }

  predicate AlignedField(r: FieldSchema, v: FieldSchema)
    decreases r
  {
    Aligned(r.fieldType, v.fieldType)
  }

  predicate UnionFree(t: FieldType) {
    match t
    case OneOfType(_) => false
    case ArrayType(item) => UnionFree(item)
    case ObjectType(fields) => forall k | k in fields :: UnionFreeField(fields[k])
    case _ => true
  }

  predicate UnionFreeField(f: FieldSchema) { UnionFree(f.fieldType) }

  // ---------------------------------------------------------------- sorted lists compare bags

  lemma SortTellsBags(a: multiset<string>, b: multiset<string>)
    ensures Sort(a) == Sort(b) <==> a == b
  {
  }

  lemma {:induction false} TagCount(cs: seq<Constraint>, c: Constraint)
    requires TellsApart(SHOW_F64)
    ensures multiset(Tags(cs))[ConstraintTag(c)] == multiset(Blinded(cs))[Blind(c)]
  {
    hide TellsApart, ConstraintTag, Blind;
    if cs != [] {
      var before, last := cs[..|cs| - 1], cs[|cs| - 1];
      TagCount(before, c);
      assert Tags(cs) == Tags(before) + [ConstraintTag(last)];
      assert Blinded(cs) == Blinded(before) + [Blind(last)];
      TagsTellApart(last, c);
    }
  }

  lemma TagsTellApart(a: Constraint, b: Constraint)
    requires TellsApart(SHOW_F64)
    ensures ConstraintTag(a) == ConstraintTag(b) <==> Blind(a) == Blind(b)
  {
    TagReadsBack(a);
    TagReadsBack(b);
  }

  function TagHead(c: Constraint): string {
    match c
    case Min(_) => "min:" case Max(_) => "max:" case Pattern(_) => "pattern:" case OneOf(_) => "oneof"
    case RequiresField(_) => "requires:" case Custom(_) => "custom:"
  }

  function TagTail(c: Constraint): string {
    match c
    case Min(v) => SHOW_F64(v) case Max(v) => SHOW_F64(v) case Pattern(regex) => regex case OneOf(_) => ""
    case RequiresField(field) => field case Custom(validator) => validator
  }

  lemma TagReadsBack(c: Constraint)
    ensures ConstraintTag(c) == TagHead(c) + TagTail(c)
    ensures ConstraintTag(c)[|TagHead(c)|..] == TagTail(c)
    ensures ConstraintTag(c)[0] == TagHead(c)[0] && ConstraintTag(c)[1] == TagHead(c)[1]
  {
  }

  /** Sorted tag lists are equal exactly when the constraints are the same bag. */
  lemma ConstraintTagsTell(a: seq<Constraint>, b: seq<Constraint>)
    requires TellsApart(SHOW_F64)
    ensures ConstraintTags(a) == ConstraintTags(b) <==> multiset(Blinded(a)) == multiset(Blinded(b))
  {
    hide Sort, TellsApart, Tags, Blinded, ConstraintTag, Blind;
    SortTellsBags(multiset(Tags(a)), multiset(Tags(b)));
    if multiset(Tags(a)) == multiset(Tags(b)) { SameTagsSameBag(a, b); }
    if multiset(Blinded(a)) == multiset(Blinded(b)) { SameBagSameTags(a, b); }
  }

  lemma SameTagsSameBag(a: seq<Constraint>, b: seq<Constraint>)
    requires TellsApart(SHOW_F64) && multiset(Tags(a)) == multiset(Tags(b))
    ensures multiset(Blinded(a)) == multiset(Blinded(b))
  {
    hide TellsApart, Tags, ConstraintTag, Blind;
    forall c ensures multiset(Blinded(a))[Blind(c)] == multiset(Blinded(b))[Blind(c)] {
      TagCount(a, c);
      TagCount(b, c);
    }
    forall x ensures multiset(Blinded(a))[x] == multiset(Blinded(b))[x] {
      if x in Blinded(a) {
        var i :| 0 <= i < |a| && Blinded(a)[i] == x;
        assert x == Blind(a[i]);
      }
    }
  }

  lemma SameBagSameTags(a: seq<Constraint>, b: seq<Constraint>)
    requires TellsApart(SHOW_F64) && multiset(Blinded(a)) == multiset(Blinded(b))
    ensures multiset(Tags(a)) == multiset(Tags(b))
  {
    hide TellsApart, Blinded, ConstraintTag, Blind;
    forall c ensures multiset(Tags(a))[ConstraintTag(c)] == multiset(Tags(b))[ConstraintTag(c)] {
      TagCount(a, c);
      TagCount(b, c);
    }
    forall x ensures multiset(Tags(a))[x] == multiset(Tags(b))[x] {
      if x in Tags(a) {
        var i :| 0 <= i < |a| && Tags(a)[i] == x;
        assert x == ConstraintTag(a[i]);
      }
    }
  }

  // ---------------------------------------------------------------- empty drift, part by part

  lemma {:induction false} FieldsDriftIsEmpty(path: seq<Segment>, r: FieldType, v: FieldType, names: seq<string>)
    requires r.ObjectType? && v.ObjectType?
    ensures FieldsDrift(path, r, v, names) == [] <==>
            forall k | k in names :: EntryDrift(path + [Field(k)], r, v, k) == []
  {
    hide EntryDrift;
    if names != [] {
      var before, k := names[..|names| - 1], names[|names| - 1];
      FieldsDriftIsEmpty(path, r, v, before);
      assert names == before + [k];
    }
  }

  lemma {:induction false} BranchesDriftIsEmpty(path: seq<Segment>, r: FieldType, v: FieldType, n: nat)
    requires r.OneOfType? && v.OneOfType? && n <= |r.branches| && n <= |v.branches|
    ensures BranchesDrift(path, r, v, n) == [] <==>
            forall i | 0 <= i < n :: TypeDrift(path + [Branch(i)], r.branches[i], v.branches[i]) == []
  {
    hide TypeDrift;
    if n > 0 { BranchesDriftIsEmpty(path, r, v, n - 1); }
  }

  /** The first two letters of a tag tell the constructors apart. */
  function Initials(t: FieldType): string {
    match t
    case StringType => "st" case IntegerType => "in" case FloatType => "fl" case BooleanType => "bo"
    case AnyType => "an"
    case EnumType(_) => "en" case OneOfType(_) => "on" case ArrayType(_) => "ar" case ObjectType(_) => "ob"
  }

  lemma TagInitials(t: FieldType)
    ensures |TypeTag(t)| >= 2 && TypeTag(t)[0] == Initials(t)[0] && TypeTag(t)[1] == Initials(t)[1]
  {
    hide Sort, Join;
  }

  lemma TagTellsConstructor(r: FieldType, v: FieldType)
    requires TypeTag(r) == TypeTag(v)
    ensures Initials(r) == Initials(v)
  {
    hide TypeTag;
    TagInitials(r);
    TagInitials(v);
  }

  lemma ItemTag(r: FieldType, v: FieldType)
    requires r.ArrayType? && v.ArrayType? && TypeTag(r) == TypeTag(v)
    ensures TypeTag(r.item) == TypeTag(v.item)
  {
    var n := |TypeTag(r)|;
    assert TypeTag(r)[6..n - 1] == TypeTag(r.item) && TypeTag(v)[6..n - 1] == TypeTag(v.item);
  }

  // ---------------------------------------------------------------- empty drift means agreement

  lemma {:induction false} DriftFreeTypesAgree(path: seq<Segment>, r: FieldType, v: FieldType)
    requires TellsApart(SHOW_F64)
    requires TypeTag(r) == TypeTag(v) && TypeDrift(path, r, v) == [] && Aligned(r, v)
    ensures SameType(r, v)
    decreases r, 1
  {
    hide TellsApart, TypeTag, FieldsDrift, BranchesDrift, AlignedField, SameField, Keys, EntryDrift;
    TagTellsConstructor(r, v);
    match r
    case ArrayType(item) =>
      ItemTag(r, v);
      DriftFreeTypesAgree(path + [Items], item, v.item);
    case OneOfType(_) => DriftFreeBranchesAgree(path, r, v);
    case ObjectType(_) => DriftFreeEntriesAgree(path, r, v);
    case _ =>
  }

  lemma {:induction false} DriftFreeBranchesAgree(path: seq<Segment>, r: FieldType, v: FieldType)
    requires TellsApart(SHOW_F64) && r.OneOfType? && v.OneOfType?
    requires TypeDrift(path, r, v) == [] && Aligned(r, v)
    ensures SameType(r, v)
    decreases r, 0
  {
    hide TellsApart, TypeTag, BranchesDrift;
    BranchesDriftIsEmpty(path, r, v, |r.branches|);
    forall i | 0 <= i < |r.branches| ensures SameType(r.branches[i], v.branches[i]) {
      DriftFreeTypesAgree(path + [Branch(i)], r.branches[i], v.branches[i]);
    }
  }

  lemma {:induction false} DriftFreeEntriesAgree(path: seq<Segment>, r: FieldType, v: FieldType)
    requires TellsApart(SHOW_F64) && r.ObjectType? && v.ObjectType?
    requires FieldsDrift(path, r, v, Keys(r.fields.Keys + v.fields.Keys)) == [] && Aligned(r, v)
    ensures SameType(r, v)
    decreases r, 0
  {
    hide TellsApart, FieldsDrift, FieldDrift, AlignedField, SameField, Sort;
    var names := Keys(r.fields.Keys + v.fields.Keys);
    FieldsDriftIsEmpty(path, r, v, names);
    forall k | k in r.fields || k in v.fields
      ensures k in r.fields && k in v.fields && SameField(r.fields[k], v.fields[k])
    {
      assert k in names && EntryDrift(path + [Field(k)], r, v, k) == [];
      DriftFreeFieldsAgree(path + [Field(k)], r.fields[k], v.fields[k]);
    }
  }

  lemma {:induction false} DriftFreeFieldsAgree(path: seq<Segment>, r: FieldSchema, v: FieldSchema)
    requires TellsApart(SHOW_F64) && FieldDrift(path, r, v) == [] && AlignedField(r, v)
    ensures SameField(r, v)
    decreases r, 2
  {
    hide TellsApart, TypeTag, TypeDrift, Aligned, SameType, ConstraintTags, Blinded;
    ConstraintTagsTell(r.constraints, v.constraints);
    DriftFreeTypesAgree(path, r.fieldType, v.fieldType);
  }

  // ---------------------------------------------------------------- agreement means empty drift

  lemma {:induction false} SameTypesHaveSameTags(r: FieldType, v: FieldType)
    requires SameType(r, v)
    ensures TypeTag(r) == TypeTag(v)
    decreases r
  {
    hide Sort, Join;
    match r
    case ArrayType(item) => SameTypesHaveSameTags(item, v.item);
    case OneOfType(branches) =>
      forall i | 0 <= i < |branches| ensures TypeTag(branches[i]) == TypeTag(v.branches[i]) {
        SameTypesHaveSameTags(branches[i], v.branches[i]);
      }
      assert BranchTags(r) == BranchTags(v);
    case ObjectType(fields) =>
      forall k | k in fields ensures TypeTag(fields[k].fieldType) == TypeTag(v.fields[k].fieldType) {
        assert SameField(fields[k], v.fields[k]);
        SameTypesHaveSameTags(fields[k].fieldType, v.fields[k].fieldType);
      }
      assert FieldTags(r) == FieldTags(v);
    case _ =>
  }

  lemma {:induction false} SameTypesAreDriftFree(path: seq<Segment>, r: FieldType, v: FieldType)
    requires TellsApart(SHOW_F64) && SameType(r, v)
    ensures TypeDrift(path, r, v) == [] && Aligned(r, v)
    decreases r, 1
  {
    hide TellsApart, TypeTag, FieldsDrift, BranchesDrift, AlignedField, SameField, Sort;
    match r
    case ArrayType(item) => SameTypesAreDriftFree(path + [Items], item, v.item);
    case OneOfType(branches) =>
      forall i | 0 <= i < |branches|
        ensures TypeDrift(path + [Branch(i)], branches[i], v.branches[i]) == [] && Aligned(branches[i], v.branches[i])
        ensures TypeTag(branches[i]) == TypeTag(v.branches[i])
      {
        SameTypesHaveSameTags(branches[i], v.branches[i]);
        SameTypesAreDriftFree(path + [Branch(i)], branches[i], v.branches[i]);
      }
      BranchesDriftIsEmpty(path, r, v, |branches|);
    case ObjectType(fields) =>
      SameEntriesAreDriftFree(path, r, v);
    case _ =>
  }

  lemma {:induction false} SameEntriesAreDriftFree(path: seq<Segment>, r: FieldType, v: FieldType)
    requires TellsApart(SHOW_F64) && r.ObjectType? && SameType(r, v)
    ensures FieldsDrift(path, r, v, Keys(r.fields.Keys + v.fields.Keys)) == [] && Aligned(r, v)
    decreases r, 0
  {
    hide TellsApart, FieldsDrift, FieldDrift, AlignedField, SameField, Sort;
    forall k | k in r.fields
      ensures EntryDrift(path + [Field(k)], r, v, k) == [] && AlignedField(r.fields[k], v.fields[k])
    {
      SameFieldsAreDriftFree(path + [Field(k)], r.fields[k], v.fields[k]);
    }
    FieldsDriftIsEmpty(path, r, v, Keys(r.fields.Keys + v.fields.Keys));
  }

  lemma {:induction false} SameFieldsAreDriftFree(path: seq<Segment>, r: FieldSchema, v: FieldSchema)
    requires TellsApart(SHOW_F64) && SameField(r, v)
    ensures FieldDrift(path, r, v) == [] && AlignedField(r, v)
    decreases r, 2
  {
    hide TellsApart, TypeTag, TypeDrift, Aligned, SameType, ConstraintTags, Blinded;
    ConstraintTagsTell(r.constraints, v.constraints);
    SameTypesHaveSameTags(r.fieldType, v.fieldType);
    SameTypesAreDriftFree(path, r.fieldType, v.fieldType);
  }

  // ---------------------------------------------------------------- the theorem and its limits

  /** Two schemas agree exactly when the drift is empty and their unions are aligned. */
  lemma AgreementIffNoDrift(r: PluginSchema, v: PluginSchema)
    requires TellsApart(SHOW_F64)
    ensures SameSchema(r, v) <==> SchemaDrift(r, v) == [] && Aligned(TopFields(r), TopFields(v))
  {
    hide TellsApart, FieldsDrift, Aligned, SameType, Sort;
    SortTellsBags(multiset(r.immutablePaths), multiset(v.immutablePaths));
    if SameType(TopFields(r), TopFields(v)) { SameEntriesAreDriftFree([], TopFields(r), TopFields(v)); }
    if SchemaDrift(r, v) == [] && Aligned(TopFields(r), TopFields(v)) {
      DriftFreeEntriesAgree([], TopFields(r), TopFields(v));
    }
  }

  lemma {:induction false} UnionFreeIsAligned(r: FieldType, v: FieldType)
    requires UnionFree(r)
    ensures Aligned(r, v)
    decreases r
  {
    if r.ArrayType? && v.ArrayType? { UnionFreeIsAligned(r.item, v.item); }
    if r.ObjectType? && v.ObjectType? {
      forall k | k in r.fields && k in v.fields ensures AlignedField(r.fields[k], v.fields[k]) {
        assert UnionFreeField(r.fields[k]);
        UnionFreeIsAligned(r.fields[k].fieldType, v.fields[k].fieldType);
      }
    }
  }

  /** Against a reference without unions an empty drift is agreement. */
  lemma NoDriftIsAgreement(r: PluginSchema, v: PluginSchema)
    requires TellsApart(SHOW_F64) && UnionFree(TopFields(r))
    ensures SchemaDrift(r, v) == [] <==> SameSchema(r, v)
  {
    UnionFreeIsAligned(TopFields(r), TopFields(v));
    AgreementIffNoDrift(r, v);
  }

  lemma {:induction false} SameIsReflexive(t: FieldType)
    ensures SameType(t, t)
    decreases t
  {
    match t
    case OneOfType(branches) =>
      forall i | 0 <= i < |branches| ensures SameType(branches[i], branches[i]) { SameIsReflexive(branches[i]); }
    case ArrayType(item) => SameIsReflexive(item);
    case ObjectType(fields) =>
      forall k | k in fields ensures SameField(fields[k], fields[k]) { SameIsReflexive(fields[k].fieldType); }
    case _ =>
  }

  lemma SameFieldIsReflexive(f: FieldSchema)
    ensures SameField(f, f)
  {
    SameIsReflexive(f.fieldType);
  }

  lemma {:induction false} NoTypeDriftAgainstItself(path: seq<Segment>, t: FieldType)
    ensures TypeDrift(path, t, t) == []
    decreases t, 1
  {
    hide FieldsDrift, BranchesDrift, Sort;
    match t
    case ArrayType(item) => NoTypeDriftAgainstItself(path + [Items], item);
    case OneOfType(branches) =>
      BranchesDriftIsEmpty(path, t, t, |branches|);
      forall i | 0 <= i < |branches| ensures TypeDrift(path + [Branch(i)], branches[i], branches[i]) == [] {
        NoTypeDriftAgainstItself(path + [Branch(i)], branches[i]);
      }
    case ObjectType(fields) => NoFieldsDriftAgainstItself(path, t);
    case _ =>
  }

  lemma {:induction false} NoFieldsDriftAgainstItself(path: seq<Segment>, t: FieldType)
    requires t.ObjectType?
    ensures FieldsDrift(path, t, t, Keys(t.fields.Keys + t.fields.Keys)) == []
    decreases t, 0
  {
    hide Sort, FieldsDrift;
    FieldsDriftIsEmpty(path, t, t, Keys(t.fields.Keys + t.fields.Keys));
    forall k | k in t.fields ensures EntryDrift(path + [Field(k)], t, t, k) == [] {
      NoTypeDriftAgainstItself(path + [Field(k)], t.fields[k].fieldType);
    }
  }

  /** Every schema, unions or not, has no drift against itself. */
  lemma NoDriftAgainstItself(s: PluginSchema)
    ensures SchemaDrift(s, s) == []
  {
    hide FieldsDrift, Sort;
    NoFieldsDriftAgainstItself([], TopFields(s));
  }

  predicate Simple(t: FieldType) { !t.ArrayType? && !t.ObjectType? && !t.OneOfType? }

  lemma ExchangedBranchesHaveSameTag(a: FieldType, b: FieldType)
    ensures TypeTag(OneOfType([a, b])) == TypeTag(OneOfType([b, a]))
  {
    hide TypeTag, Sort, Join;
    TagOfTwo(a, b);
    TagOfTwo(b, a);
    assert multiset{TypeTag(a), TypeTag(b)} == multiset{TypeTag(b), TypeTag(a)};
  }

  lemma TagOfTwo(a: FieldType, b: FieldType)
    ensures TypeTag(OneOfType([a, b])) == "one_of<" + Join(Sort(multiset{TypeTag(a), TypeTag(b)}), "|") + ">"
  {
    hide Sort, Join;
    assert BranchTags(OneOfType([a, b])) == [TypeTag(a), TypeTag(b)];
    assert multiset([TypeTag(a), TypeTag(b)]) == multiset{TypeTag(a), TypeTag(b)};
  }

  lemma ExchangedBranchesHaveNoDrift(path: seq<Segment>, a: FieldType, b: FieldType)
    requires Simple(a) && Simple(b)
    ensures TypeDrift(path, OneOfType([a, b]), OneOfType([b, a])) == []
  {
    hide BranchesDrift;
    BranchesDriftIsEmpty(path, OneOfType([a, b]), OneOfType([b, a]), 2);
  }

  lemma ExchangedFieldHasNoDrift(path: seq<Segment>, f: FieldSchema, a: FieldType, b: FieldType)
    requires Simple(a) && Simple(b)
    ensures FieldDrift(path, f.(fieldType := OneOfType([a, b])), f.(fieldType := OneOfType([b, a]))) == []
  {
    hide TypeDrift, TypeTag, ConstraintTags;
    ExchangedBranchesHaveSameTag(a, b);
    ExchangedBranchesHaveNoDrift(path, a, b);
  }

  lemma ExchangedFieldDiffers(f: FieldSchema, a: FieldType, b: FieldType)
    requires Simple(a) && Simple(b) && Initials(a) != Initials(b)
    ensures !SameField(f.(fieldType := OneOfType([a, b])), f.(fieldType := OneOfType([b, a])))
  {
    assert !SameType(OneOfType([a, b]).branches[0], OneOfType([b, a]).branches[0]);
  }

  lemma HeadHasNoDrift(r: PluginSchema, v: PluginSchema)
    requires v == r.(fields := v.fields)
    ensures HeadDrift(r, v) == []
  {
    hide Sort;
  }

  lemma ExchangeHasNoDrift(s: PluginSchema, name: string, f: FieldSchema, a: FieldType, b: FieldType)
    requires name in s.fields && s.fields[name] == f.(fieldType := OneOfType([a, b]))
    requires TellsApart(SHOW_F64) && Simple(a) && Simple(b)
    ensures SchemaDrift(s, s.(fields := s.fields[name := f.(fieldType := OneOfType([b, a]))])) == []
  {
    hide Sort, FieldDrift, FieldsDrift, SameField, Simple, HeadDrift, TellsApart;
    var derived := s.(fields := s.fields[name := f.(fieldType := OneOfType([b, a]))]);
    var r, v := TopFields(s), TopFields(derived);
    HeadHasNoDrift(s, derived);
    forall k | k in s.fields ensures EntryDrift([] + [Field(k)], r, v, k) == [] {
      if k == name {
        ExchangedFieldHasNoDrift([] + [Field(k)], f, a, b);
      } else {
        SameFieldIsReflexive(s.fields[k]);
        SameFieldsAreDriftFree([] + [Field(k)], s.fields[k], s.fields[k]);
      }
    }
    FieldsDriftIsEmpty([], r, v, Keys(r.fields.Keys + v.fields.Keys));
  }

  /** With unions an empty drift can hide a difference: exchanging two simple branches goes
      unseen, whatever they are. */
  lemma ExchangedBranchesGoUnseen(s: PluginSchema, name: string, f: FieldSchema, a: FieldType, b: FieldType)
    requires name in s.fields && s.fields[name] == f.(fieldType := OneOfType([a, b]))
    requires TellsApart(SHOW_F64) && Simple(a) && Simple(b) && Initials(a) != Initials(b)
    ensures
      var derived := s.(fields := s.fields[name := f.(fieldType := OneOfType([b, a]))]);
      SchemaDrift(s, derived) == [] && !SameSchema(s, derived)
  {
    hide SchemaDrift, SameField, Simple, TellsApart;
    ExchangeHasNoDrift(s, name, f, a, b);
    ExchangedFieldDiffers(f, a, b);
  }

  // ---------------------------------------------------------------- the methods

  /** Push a difference, if there is one, after what was pushed onto `start` so far. */
  method Push(d: seq<Diff>, ghost start: seq<Diff>, ghost pushed: seq<Diff>, differs: bool, path: seq<Segment>,
              aspect: Aspect)
    returns (d': seq<Diff>)
    requires d == start + pushed
    ensures d' == start + (pushed + If(differs, path, aspect))
  {
    d' := d;
    if differs { d' := d' + [Diff(path, aspect)]; }
  }

  method FieldDiffs(d: seq<Diff>, path: seq<Segment>, r: FieldSchema, v: FieldSchema) returns (d': seq<Diff>)
    ensures d' == d + FieldDrift(path, r, v)
    decreases r, 2
  {
    hide TypeDrift;
    d' := OwnDiffs(d, path, r, v);
    d' := FieldTypeDiffs(d', path, r.fieldType, v.fieldType);
  }

  method OwnDiffs(d: seq<Diff>, path: seq<Segment>, r: FieldSchema, v: FieldSchema) returns (d': seq<Diff>)
    ensures d' == d + OwnDrift(path, r, v)
  {
    hide If, TypeTag, ConstraintTags;
    ghost var p1 := [] + If(TypeTag(r.fieldType) != TypeTag(v.fieldType), path, Type);
    d' := Push(d, d, [], TypeTag(r.fieldType) != TypeTag(v.fieldType), path, Type);
    ghost var p2 := p1 + If(r.required != v.required, path, Required);
    d' := Push(d', d, p1, r.required != v.required, path, Required);
    ghost var p3 := p2 + If(r.description != v.description, path, Description);
    d' := Push(d', d, p2, r.description != v.description, path, Description);
    ghost var p4 := p3 + If(r.default != v.default, path, Default);
    d' := Push(d', d, p3, r.default != v.default, path, Default);
    ghost var p5 := p4 + If(r.example != v.example, path, Example);
    d' := Push(d', d, p4, r.example != v.example, path, Example);
    ghost var p6 := p5 + If(ConstraintTags(r.constraints) != ConstraintTags(v.constraints), path, Constraints);
    d' := Push(d', d, p5, ConstraintTags(r.constraints) != ConstraintTags(v.constraints), path, Constraints);
    d' := Push(d', d, p6, r.readOnly != v.readOnly, path, ReadOnly);
    assert p1 == If(TypeTag(r.fieldType) != TypeTag(v.fieldType), path, Type);
  }

  method FieldTypeDiffs(d: seq<Diff>, path: seq<Segment>, r: FieldType, v: FieldType) returns (d': seq<Diff>)
    ensures d' == d + TypeDrift(path, r, v)
    decreases r, 1
  {
    hide If, FieldsDrift, BranchesDrift, Keys;
    if r.ArrayType? && v.ArrayType? {
      d' := FieldTypeDiffs(d, path + [Items], r.item, v.item);
    } else if r.ObjectType? && v.ObjectType? {
      d' := EntriesDiffs(d, path, r, v);
    } else if r.OneOfType? && v.OneOfType? {
      d' := BranchesDiffs(d, path, r, v);
    } else {
      d' := d;
    }
  }

  method EntriesDiffs(d: seq<Diff>, path: seq<Segment>, r: FieldType, v: FieldType) returns (d': seq<Diff>)
    requires r.ObjectType? && v.ObjectType?
    ensures d' == d + FieldsDrift(path, r, v, Keys(r.fields.Keys + v.fields.Keys))
    decreases r, 0
  {
    hide FieldDrift, FieldsDrift, Sort;
    d' := d;
    var names := Keys(r.fields.Keys + v.fields.Keys);
    FieldsDriftEnds(path, r, v, names);
    for i := 0 to |names|
      invariant d' == d + FieldsDrift(path, r, v, names[..i])
    {
      var k := names[i];
      FieldsDriftStep(path, r, v, names, i);
      assert k in names;
      ghost var entry := EntryDrift(path + [Field(k)], r, v, k);
      ghost var before := d';
      if k in r.fields && k in v.fields {
        d' := FieldDiffs(d', path + [Field(k)], r.fields[k], v.fields[k]);
      } else if k in r.fields {
        d' := d' + [Diff(path + [Field(k)], Dropped)];
      } else {
        d' := d' + [Diff(path + [Field(k)], Added)];
      }
      assert d' == before + entry;
    }
  }

  lemma FieldsDriftStep(path: seq<Segment>, r: FieldType, v: FieldType, names: seq<string>, i: nat)
    requires r.ObjectType? && v.ObjectType? && i < |names|
    ensures FieldsDrift(path, r, v, names[..i + 1]) ==
            FieldsDrift(path, r, v, names[..i]) + EntryDrift(path + [Field(names[i])], r, v, names[i])
  {
    assert names[..i + 1][..i] == names[..i];
  }

  lemma FieldsDriftEnds(path: seq<Segment>, r: FieldType, v: FieldType, names: seq<string>)
    requires r.ObjectType? && v.ObjectType?
    ensures FieldsDrift(path, r, v, names[..0]) == []
    ensures FieldsDrift(path, r, v, names[..|names|]) == FieldsDrift(path, r, v, names)
  {
    assert names[..|names|] == names;
  }

  lemma UnionDrift(path: seq<Segment>, r: FieldType, v: FieldType)
    requires r.OneOfType? && v.OneOfType?
    ensures
      var n := if |r.branches| < |v.branches| then |r.branches| else |v.branches|;
      TypeDrift(path, r, v) == If(|r.branches| != |v.branches|, path, BranchCount) + BranchesDrift(path, r, v, n)
  {
  }

  method BranchesDiffs(d: seq<Diff>, path: seq<Segment>, r: FieldType, v: FieldType) returns (d': seq<Diff>)
    requires r.OneOfType? && v.OneOfType?
    ensures d' == d + TypeDrift(path, r, v)
    decreases r, 0
  {
    hide If, TypeDrift;
    UnionDrift(path, r, v);
    assert d + [] == d;
    d' := Push(d, d, [], |r.branches| != |v.branches|, path, BranchCount);
    ghost var start := d';
    var n := if |r.branches| < |v.branches| then |r.branches| else |v.branches|;
    for i := 0 to n
      invariant d' == start + BranchesDrift(path, r, v, i)
    {
      d' := FieldTypeDiffs(d', path + [Branch(i)], r.branches[i], v.branches[i]);
    }
  }

  method HeadDiffs(r: PluginSchema, v: PluginSchema) returns (d: seq<Diff>)
    ensures d == HeadDrift(r, v)
  {
    hide If, Sort;
    var ir, id := Sort(multiset(r.immutablePaths)), Sort(multiset(v.immutablePaths));
    ghost var p1 := If(r.name != v.name, [], PluginName);
    ghost var p2 := p1 + If(r.version != v.version, [], PluginVersion);
    ghost var p3 := p2 + If(r.description != v.description, [], PluginDescription);
    ghost var p4 := p3 + If(ir != id, [], ImmutablePaths);
    d := Push([], [], [], r.name != v.name, [], PluginName);
    d := Push(d, [], p1, r.version != v.version, [], PluginVersion);
    d := Push(d, [], p2, r.description != v.description, [], PluginDescription);
    d := Push(d, [], p3, ir != id, [], ImmutablePaths);
    d := Push(d, [], p4, r.subids != v.subids, [], Subids);
  }

  method SchemaDiffs(r: PluginSchema, v: PluginSchema) returns (d: seq<Diff>)
    ensures d == SchemaDrift(r, v)
  {
    hide HeadDrift, FieldsDrift, Sort;
    d := HeadDiffs(r, v);
    d := EntriesDiffs(d, [], TopFields(r), TopFields(v));
  }
}
