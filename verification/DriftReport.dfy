/** What the drift report of `schema_diffs` says, entry by entry: which places of two schemas
    differ, found by walking a path through each of them, and in which order they are named. */
module DriftReport {
  import opened Text
  import opened Ordering
  import opened Schema
  import opened Drift

  // ---------------------------------------------------------------- places

  /** What stands at the end of a path: a field, or a type that is no field of its own. */
  datatype Place = AField(field: FieldSchema) | AType(ty: FieldType)

  function TypeAt(p: Place): FieldType { if p.AField? then p.field.fieldType else p.ty }

  function StepFrom(p: Place, s: Segment): Option<Place> {
    var t := TypeAt(p);
    match s
    case Field(name) => if t.ObjectType? && name in t.fields then Some(AField(t.fields[name])) else None
    case Items => if t.ArrayType? then Some(AType(t.item)) else None
    case Branch(i) => if t.OneOfType? && i < |t.branches| then Some(AType(t.branches[i])) else None
  }

  function Walk(p: Place, path: seq<Segment>): Option<Place>
    decreases |path|
  {
    if path == [] then Some(p) else
      match StepFrom(p, path[0]) case Some(q) => Walk(q, path[1..]) case None => None
  }

  predicate IsObjectAt(p: Option<Place>) { p.Some? && TypeAt(p.value).ObjectType? }

  // ---------------------------------------------------------------- what differs

  /** One thing differs between two fields; a field is what it is apart from the fields of its
      type. */
  predicate FieldsDiffer(r: FieldSchema, v: FieldSchema, aspect: Aspect) {
    match aspect
    case Type => TypeTag(r.fieldType) != TypeTag(v.fieldType)
    case Required => r.required != v.required
    case Description => r.description != v.description
    case Default => r.default != v.default
    case Example => r.example != v.example
    case Constraints => multiset(Tags(r.constraints)) != multiset(Tags(v.constraints))
    case ReadOnly => r.readOnly != v.readOnly
    case _ => false
  }

  predicate BothUnions(r: FieldType, v: FieldType) { r.OneOfType? && v.OneOfType? }

  /** One thing differs at the end of a path: a field is in an object of the one schema and not
      in the object of the other, two unions have different numbers of branches, or two fields
      differ. */
  predicate Differs(r: Place, v: Place, path: seq<Segment>, aspect: Aspect) {
    var a, b := Walk(r, path), Walk(v, path);
    match aspect
    case Dropped =>
      path != [] && path[|path| - 1].Field? && a.Some? && b.None? && IsObjectAt(Walk(v, path[..|path| - 1]))
    case Added =>
      path != [] && path[|path| - 1].Field? && a.None? && b.Some? && IsObjectAt(Walk(r, path[..|path| - 1]))
    case BranchCount =>
      a.Some? && b.Some? && BothUnions(TypeAt(a.value), TypeAt(b.value)) &&
      |TypeAt(a.value).branches| != |TypeAt(b.value).branches|
    case _ =>
      a.Some? && b.Some? && a.value.AField? && b.value.AField? && FieldsDiffer(a.value.field, b.value.field, aspect)
  }

  /** One thing differs between two schemas. */
  predicate SchemasDiffer(r: PluginSchema, v: PluginSchema, path: seq<Segment>, aspect: Aspect) {
    match aspect
    case PluginName => path == [] && r.name != v.name
    case PluginVersion => path == [] && r.version != v.version
    case PluginDescription => path == [] && r.description != v.description
    case ImmutablePaths => path == [] && multiset(r.immutablePaths) != multiset(v.immutablePaths)
    case Subids => path == [] && r.subids != v.subids
    case _ => Differs(AType(TopFields(r)), AType(TopFields(v)), path, aspect)
  }

  // ---------------------------------------------------------------- tags of types

  predicate IsJoined(s: string, parts: seq<string>, separator: string) {
    if parts == [] then s == ""
    else if |parts| == 1 then s == parts[0]
    else
      var head := parts[0] + separator;
      |head| <= |s| && s[..|head|] == head && IsJoined(s[|head|..], parts[1..], separator)
  }

  /** A list of texts, in order, joined between two brackets. */
  ghost predicate ListsTags(s: string, open: string, tags: multiset<string>, separator: string, close: string) {
    exists parts, inner ::
      Sorted(parts) && multiset(parts) == tags && IsJoined(inner, parts, separator) && s == open + inner + close
  }

  /** What the tag of a type says, by the tags of its parts: the order of branches and of
      fields does not matter, the members of an enum do not either. */
  ghost predicate TagSays(t: FieldType, s: string) {
    match t
    case StringType => s == "string"
    case IntegerType => s == "integer"
    case FloatType => s == "float"
    case BooleanType => s == "boolean"
    case AnyType => s == "any"
    case EnumType(_) => s == "enum"
    case ArrayType(item) => s == "array<" + TypeTag(item) + ">"
    case OneOfType(branches) =>
      ListsTags(
        s, "one_of<", multiset(seq(|branches|, i requires 0 <= i < |branches| => TypeTag(branches[i]))), "|", ">")
    case ObjectType(fields) =>
      var names := Keys(fields.Keys);
      ListsTags(
        s, "object{",
        multiset(seq(|names|, i requires 0 <= i < |names| =>
          assert names[i] in names; names[i] + ":" + TypeTag(fields[names[i]].fieldType))), ",", "}")
  }

  lemma {:induction false} JoinIsJoined(parts: seq<string>, separator: string)
    ensures IsJoined(Join(parts, separator), parts, separator)
  {
    if |parts| > 1 {
      JoinIsJoined(parts[1..], separator);
      var head, s := parts[0] + separator, Join(parts, separator);
      assert s[..|head|] == head && s[|head|..] == Join(parts[1..], separator);
    }
  }

  lemma ListIsListed(tags: multiset<string>, open: string, separator: string, close: string)
    ensures ListsTags(open + Join(Sort(tags), separator) + close, open, tags, separator, close)
  {
    hide IsJoined, Join, Sort, Sorted;
    SortSorts(tags);
    JoinIsJoined(Sort(tags), separator);
  }

  lemma TagIs(t: FieldType)
    ensures TagSays(t, TypeTag(t))
  {
    hide ListsTags, Join, Sort;
    match t
    case OneOfType(branches) =>
      ListIsListed(multiset(BranchTags(t)), "one_of<", "|", ">");
      assert BranchTags(t) == seq(|branches|, i requires 0 <= i < |branches| => TypeTag(branches[i]));
    case ObjectType(fields) =>
      ListIsListed(multiset(FieldTags(t)), "object{", ",", "}");
    case _ =>
  }

  // ---------------------------------------------------------------- one step

  /** A field is on one side alone. */
  predicate OneSided(r: Place, v: Place, s: Segment, aspect: Aspect) {
    s.Field? && TypeAt(r).ObjectType? && TypeAt(v).ObjectType? &&
    ((aspect == Dropped && StepFrom(r, s).Some? && StepFrom(v, s).None?) ||
     (aspect == Added && StepFrom(r, s).None? && StepFrom(v, s).Some?))
  }

  lemma WalkParent(p: Place, path: seq<Segment>)
    requires |path| >= 2
    ensures Walk(p, path[..|path| - 1]) ==
            match StepFrom(p, path[0])
            case Some(q) => Walk(q, path[1..][..|path| - 2])
            case None => None
    ensures path[1..][|path| - 2] == path[|path| - 1]
  {
    assert path[..|path| - 1][1..] == path[1..][..|path| - 2];
  }

  lemma {:induction false} WalkOn(p: Place, path: seq<Segment>)
    requires path != []
    ensures Walk(p, path).Some? ==> Walk(p, path[..|path| - 1]).Some?
    decreases |path|
  {
    if |path| >= 2 {
      WalkParent(p, path);
      if StepFrom(p, path[0]).Some? { WalkOn(StepFrom(p, path[0]).value, path[1..]); }
    }
  }

  lemma DiffersFirst(r: Place, v: Place, s: Segment, aspect: Aspect)
    ensures Differs(r, v, [s], aspect) <==>
            (StepFrom(r, s).Some? && StepFrom(v, s).Some? &&
             Differs(StepFrom(r, s).value, StepFrom(v, s).value, [], aspect)) ||
            OneSided(r, v, s, aspect)
  {
    hide StepFrom, FieldsDiffer, BothUnions;
    assert [s][1..] == [] && [s][..0] == [];
    assert Walk(r, [s]) == StepFrom(r, s) && Walk(v, [s]) == StepFrom(v, s);
    assert Walk(r, [s][..0]) == Some(r) && Walk(v, [s][..0]) == Some(v);
    FieldStep(r, s);
    FieldStep(v, s);
  }

  /** A difference behind a first step is one between the places reached by it, or it is the
      step itself that one side cannot take. */
  lemma DiffersStep(r: Place, v: Place, path: seq<Segment>, aspect: Aspect)
    requires path != []
    ensures
      var s := path[0];
      Differs(r, v, path, aspect) <==>
      (StepFrom(r, s).Some? && StepFrom(v, s).Some? &&
       Differs(StepFrom(r, s).value, StepFrom(v, s).value, path[1..], aspect)) ||
      (|path| == 1 && OneSided(r, v, s, aspect))
  {
    hide StepFrom, FieldsDiffer, BothUnions, OneSided;
    if |path| == 1 {
      hide Differs;
      assert path == [path[0]] && path[1..] == [];
      DiffersFirst(r, v, path[0], aspect);
    } else {
      WalkParent(r, path);
      WalkParent(v, path);
      WalkOn(r, path);
      WalkOn(v, path);
    }
  }

  lemma FieldStep(p: Place, s: Segment)
    ensures s.Field? && StepFrom(p, s).Some? ==> TypeAt(p).ObjectType?
  {
  }

  // ---------------------------------------------------------------- what is reported

  /** What remains of a path behind its beginning. */
  function Rest(prefix: seq<Segment>, path: seq<Segment>): seq<Segment>
    requires prefix <= path
  {
    path[|prefix|..]
  }

  lemma FrontStep(prefix: seq<Segment>, s: Segment, path: seq<Segment>)
    ensures prefix + [s] <= path <==> prefix <= path && |path| > |prefix| && path[|prefix|] == s
    ensures prefix + [s] <= path ==> Rest(prefix, path) != [] && Rest(prefix, path)[0] == s
    ensures prefix + [s] <= path ==> Rest(prefix, path)[1..] == Rest(prefix + [s], path)
    ensures prefix + [s] == path ==> |Rest(prefix, path)| == 1
    ensures prefix + [s] <= path && |Rest(prefix, path)| == 1 ==> path == prefix + [s]
  {
    if prefix + [s] <= path {
      assert path[|prefix|] == (prefix + [s])[|prefix|];
      assert path[..|prefix|] == (prefix + [s])[..|prefix|] == prefix;
    }
    if prefix <= path && |path| > |prefix| && path[|prefix|] == s {
      assert path[..|prefix| + 1] == path[..|prefix|] + [s];
    }
  }

  /** An entry names a difference behind a beginning of its path. */
  predicate DiffersUnder(prefix: seq<Segment>, r: Place, v: Place, d: Diff) {
    prefix <= d.path && Differs(r, v, Rest(prefix, d.path), d.aspect)
  }

  /** Only the types matter for what lies behind a place. */
  lemma OnlyTypesMatter(r: Place, v: Place, path: seq<Segment>, aspect: Aspect)
    requires path != []
    ensures Differs(r, v, path, aspect) <==> Differs(AType(TypeAt(r)), AType(TypeAt(v)), path, aspect)
  {
    hide Differs;
    DiffersStep(r, v, path, aspect);
    DiffersStep(AType(TypeAt(r)), AType(TypeAt(v)), path, aspect);
  }

  lemma DiffersHere(r: Place, v: Place, aspect: Aspect)
    ensures Differs(r, v, [], aspect) <==>
            (aspect == BranchCount && BothUnions(TypeAt(r), TypeAt(v)) &&
             |TypeAt(r).branches| != |TypeAt(v).branches|) ||
            (r.AField? && v.AField? && FieldsDiffer(r.field, v.field, aspect))
  {
    hide StepFrom, BothUnions;
  }

  /** With `s` as first step: what differs is what differs between the places it leads to. */
  lemma DiffersBehind(prefix: seq<Segment>, r: Place, v: Place, s: Segment, d: Diff)
    requires StepFrom(r, s).Some? && StepFrom(v, s).Some? && prefix + [s] <= d.path
    ensures DiffersUnder(prefix, r, v, d) <==>
            DiffersUnder(prefix + [s], StepFrom(r, s).value, StepFrom(v, s).value, d)
  {
    hide Differs, StepFrom, Rest;
    FrontStep(prefix, s, d.path);
    DiffersStep(r, v, Rest(prefix, d.path), d.aspect);
  }

  lemma InIf(d: Diff, differs: bool, path: seq<Segment>, aspect: Aspect)
    ensures d in If(differs, path, aspect) <==> differs && d.path == path && d.aspect == aspect
  {
  }

  lemma AspectsOfFields(r: FieldSchema, v: FieldSchema, aspect: Aspect)
    ensures FieldsDiffer(r, v, aspect) <==>
            (aspect == Type && TypeTag(r.fieldType) != TypeTag(v.fieldType)) ||
            (aspect == Required && r.required != v.required) ||
            (aspect == Description && r.description != v.description) ||
            (aspect == Default && r.default != v.default) ||
            (aspect == Example && r.example != v.example) ||
            (aspect == Constraints && ConstraintTags(r.constraints) != ConstraintTags(v.constraints)) ||
            (aspect == ReadOnly && r.readOnly != v.readOnly)
  {
    hide TypeTag, Tags, ConstraintTags;
    TagsAreBags(r.constraints, v.constraints);
  }

  lemma InOwnDrift(path: seq<Segment>, r: FieldSchema, v: FieldSchema, d: Diff)
    ensures d in OwnDrift(path, r, v) <==> d.path == path && FieldsDiffer(r, v, d.aspect)
  {
    hide If, TypeTag, ConstraintTags, FieldsDiffer;
    AspectsOfFields(r, v, d.aspect);
    InIf(d, TypeTag(r.fieldType) != TypeTag(v.fieldType), path, Type);
    InIf(d, r.required != v.required, path, Required);
    InIf(d, r.description != v.description, path, Description);
    InIf(d, r.default != v.default, path, Default);
    InIf(d, r.example != v.example, path, Example);
    InIf(d, ConstraintTags(r.constraints) != ConstraintTags(v.constraints), path, Constraints);
    InIf(d, r.readOnly != v.readOnly, path, ReadOnly);
  }

  lemma TagsAreBags(a: seq<Constraint>, b: seq<Constraint>)
    ensures ConstraintTags(a) == ConstraintTags(b) <==> multiset(Tags(a)) == multiset(Tags(b))
  {
    hide Sort, Tags;
    SortTellsBags(multiset(Tags(a)), multiset(Tags(b)));
  }

  lemma {:induction false} InFieldDrift(path: seq<Segment>, r: FieldSchema, v: FieldSchema, d: Diff)
    ensures d in FieldDrift(path, r, v) <==> DiffersUnder(path, AField(r), AField(v), d)
    decreases r, 2
  {
    hide OwnDrift, TypeDrift, Differs, FieldsDiffer, BothUnions;
    InOwnDrift(path, r, v, d);
    InTypeDrift(path, r.fieldType, v.fieldType, d);
    if path <= d.path {
      DiffersHere(AField(r), AField(v), d.aspect);
      DiffersHere(AType(r.fieldType), AType(v.fieldType), d.aspect);
      if d.path != path { OnlyTypesMatter(AField(r), AField(v), Rest(path, d.path), d.aspect); }
    }
  }

  lemma {:induction false} InTypeDrift(path: seq<Segment>, r: FieldType, v: FieldType, d: Diff)
    ensures d in TypeDrift(path, r, v) <==> DiffersUnder(path, AType(r), AType(v), d)
    decreases r, 1
  {
    hide FieldsDrift, BranchesDrift, Differs, FieldsDiffer, Keys;
    if r.ArrayType? && v.ArrayType? {
      InTypeDrift(path + [Items], r.item, v.item, d);
      ItemsOnly(path, r, v, d);
    } else if r.ObjectType? && v.ObjectType? {
      InFieldsDrift(path, r, v, d);
    } else if r.OneOfType? && v.OneOfType? {
      InUnionDrift(path, r, v, d);
    } else {
      NothingBehind(path, r, v, d);
    }
  }

  lemma ItemsOnly(path: seq<Segment>, r: FieldType, v: FieldType, d: Diff)
    requires r.ArrayType? && v.ArrayType?
    ensures DiffersUnder(path, AType(r), AType(v), d) <==> DiffersUnder(path + [Items], AType(r.item), AType(v.item), d)
  {
    hide Differs, Rest;
    FrontStep(path, Items, d.path);
    if path + [Items] <= d.path {
      DiffersBehind(path, AType(r), AType(v), Items, d);
    } else if path <= d.path {
      NotThere(path, r, v, d);
    }
  }

  /** No step both sides can take, and none that one object can: nothing differs. */
  lemma NotThere(path: seq<Segment>, r: FieldType, v: FieldType, d: Diff)
    requires path <= d.path && !BothUnions(r, v) && !(r.ObjectType? && v.ObjectType?)
    requires path == d.path || StepFrom(AType(r), d.path[|path|]).None? || StepFrom(AType(v), d.path[|path|]).None?
    ensures !Differs(AType(r), AType(v), Rest(path, d.path), d.aspect)
  {
    hide Differs, StepFrom;
    DiffersHere(AType(r), AType(v), d.aspect);
    var rest := Rest(path, d.path);
    if path == d.path {
      assert rest == [];
    } else {
      assert rest[0] == d.path[|path|];
      DiffersStep(AType(r), AType(v), rest, d.aspect);
    }
  }

  lemma NothingBehind(path: seq<Segment>, r: FieldType, v: FieldType, d: Diff)
    requires !(r.ArrayType? && v.ArrayType?) && !(r.ObjectType? && v.ObjectType?) && !(r.OneOfType? && v.OneOfType?)
    ensures !DiffersUnder(path, AType(r), AType(v), d)
  {
    hide Differs;
    if path <= d.path { NotThere(path, r, v, d); }
  }

  lemma {:induction false} InEntryDrift(path: seq<Segment>, r: FieldType, v: FieldType, k: string, d: Diff)
    requires r.ObjectType? && v.ObjectType? && (k in r.fields || k in v.fields)
    ensures d in EntryDrift(path + [Field(k)], r, v, k) <==>
            path + [Field(k)] <= d.path && DiffersUnder(path, AType(r), AType(v), d)
    decreases r, 0, 0
  {
    hide FieldDrift, Differs, Rest;
    var here := path + [Field(k)];
    FrontStep(path, Field(k), d.path);
    if k in r.fields && k in v.fields {
      InFieldDrift(here, r.fields[k], v.fields[k], d);
      if here <= d.path { DiffersBehind(path, AType(r), AType(v), Field(k), d); }
    } else if here <= d.path {
      DiffersStep(AType(r), AType(v), Rest(path, d.path), d.aspect);
    }
  }

  lemma {:induction false} InEntries(path: seq<Segment>, r: FieldType, v: FieldType, names: seq<string>, d: Diff)
    requires r.ObjectType? && v.ObjectType?
    ensures d in FieldsDrift(path, r, v, names) <==>
            exists k :: k in names && d in EntryDrift(path + [Field(k)], r, v, k)
  {
    hide EntryDrift;
    if names != [] {
      var before, last := names[..|names| - 1], names[|names| - 1];
      assert names == before + [last];
      InEntries(path, r, v, before, d);
    }
  }

  lemma {:induction false} InFieldsDrift(path: seq<Segment>, r: FieldType, v: FieldType, d: Diff)
    requires r.ObjectType? && v.ObjectType?
    ensures d in FieldsDrift(path, r, v, Keys(r.fields.Keys + v.fields.Keys)) <==>
            DiffersUnder(path, AType(r), AType(v), d)
    decreases r, 0, 1
  {
    hide EntryDrift, FieldsDrift, Differs, Sort;
    var names := Keys(r.fields.Keys + v.fields.Keys);
    InEntries(path, r, v, names, d);
    forall k | k in names
      ensures d in EntryDrift(path + [Field(k)], r, v, k) <==>
              path + [Field(k)] <= d.path && DiffersUnder(path, AType(r), AType(v), d)
    {
      InEntryDrift(path, r, v, k, d);
    }
    if DiffersUnder(path, AType(r), AType(v), d) {
      var k := FirstIsField(path, r, v, d);
      assert k in names;
    }
  }

  /** What differs between two objects lies behind a field of one of them. */
  lemma FirstIsField(path: seq<Segment>, r: FieldType, v: FieldType, d: Diff) returns (k: string)
    requires r.ObjectType? && v.ObjectType? && DiffersUnder(path, AType(r), AType(v), d)
    ensures path + [Field(k)] <= d.path && (k in r.fields || k in v.fields)
  {
    hide Differs;
    var rest := Rest(path, d.path);
    DiffersHere(AType(r), AType(v), d.aspect);
    DiffersStep(AType(r), AType(v), rest, d.aspect);
    FrontStep(path, rest[0], d.path);
    k := rest[0].name;
  }

  lemma {:induction false} InBranches(path: seq<Segment>, r: FieldType, v: FieldType, n: nat, d: Diff)
    requires BothUnions(r, v) && n <= |r.branches| && n <= |v.branches|
    ensures d in BranchesDrift(path, r, v, n) <==>
            exists i :: 0 <= i < n && d in TypeDrift(path + [Branch(i)], r.branches[i], v.branches[i])
    decreases r, 0, n
  {
    hide TypeDrift;
    if n > 0 { InBranches(path, r, v, n - 1, d); }
  }

  lemma {:induction false} InUnionDrift(path: seq<Segment>, r: FieldType, v: FieldType, d: Diff)
    requires BothUnions(r, v)
    ensures d in TypeDrift(path, r, v) <==> DiffersUnder(path, AType(r), AType(v), d)
    decreases r, 0, 1
  {
    hide BranchesDrift, Differs, TypeDrift, If;
    var n := if |r.branches| < |v.branches| then |r.branches| else |v.branches|;
    UnionDrift(path, r, v);
    InIf(d, |r.branches| != |v.branches|, path, BranchCount);
    InBranches(path, r, v, n, d);
    forall i: nat | i < n
      ensures d in TypeDrift(path + [Branch(i)], r.branches[i], v.branches[i]) <==>
              path + [Branch(i)] <= d.path && DiffersUnder(path, AType(r), AType(v), d)
    {
      InTypeDrift(path + [Branch(i)], r.branches[i], v.branches[i], d);
      if path + [Branch(i)] <= d.path { DiffersBehind(path, AType(r), AType(v), Branch(i), d); }
    }
    if DiffersUnder(path, AType(r), AType(v), d) { FirstIsBranch(path, r, v, d); }
    if d.path == path {
      assert Rest(path, d.path) == [];
      DiffersHere(AType(r), AType(v), d.aspect);
    }
  }

  lemma FirstIsBranch(path: seq<Segment>, r: FieldType, v: FieldType, d: Diff)
    requires BothUnions(r, v) && DiffersUnder(path, AType(r), AType(v), d)
    ensures d.path == path ||
            exists i: nat :: i < |r.branches| && i < |v.branches| && path + [Branch(i)] <= d.path
  {
    hide Differs;
    if d.path != path {
      var rest := Rest(path, d.path);
      DiffersStep(AType(r), AType(v), rest, d.aspect);
      FrontStep(path, rest[0], d.path);
      assert path + [Branch(rest[0].index)] <= d.path;
    }
  }

  // ---------------------------------------------------------------- the report

  lemma InHeadDrift(r: PluginSchema, v: PluginSchema, d: Diff)
    ensures d in HeadDrift(r, v) <==>
            d.path == [] &&
            ((d.aspect == PluginName && r.name != v.name) || (d.aspect == PluginVersion && r.version != v.version) ||
             (d.aspect == PluginDescription && r.description != v.description) ||
             (d.aspect == ImmutablePaths && multiset(r.immutablePaths) != multiset(v.immutablePaths)) ||
             (d.aspect == Subids && r.subids != v.subids))
  {
    hide If, Sort;
    SortTellsBags(multiset(r.immutablePaths), multiset(v.immutablePaths));
    InIf(d, r.name != v.name, [], PluginName);
    InIf(d, r.version != v.version, [], PluginVersion);
    InIf(d, r.description != v.description, [], PluginDescription);
    InIf(d, Sort(multiset(r.immutablePaths)) != Sort(multiset(v.immutablePaths)), [], ImmutablePaths);
    InIf(d, r.subids != v.subids, [], Subids);
  }

  lemma NoHeadAspects(r: Place, v: Place, path: seq<Segment>, aspect: Aspect)
    requires aspect in {PluginName, PluginVersion, PluginDescription, ImmutablePaths, Subids}
    ensures !Differs(r, v, path, aspect)
  {
    hide Walk;
  }

  /** An entry is in the report exactly when the schemas differ there in that. */
  lemma ReportedIff(r: PluginSchema, v: PluginSchema, d: Diff)
    ensures d in SchemaDrift(r, v) <==> SchemasDiffer(r, v, d.path, d.aspect)
  {
    hide HeadDrift, FieldsDrift, Differs, Sort;
    InHeadDrift(r, v, d);
    InFieldsDrift([], TopFields(r), TopFields(v), d);
    assert Rest([], d.path) == d.path;
    if d.aspect in {PluginName, PluginVersion, PluginDescription, ImmutablePaths, Subids} {
      NoHeadAspects(AType(TopFields(r)), AType(TopFields(v)), d.path, d.aspect);
    }
  }

  // ---------------------------------------------------------------- the order of the report

  predicate SegmentBefore(a: Segment, b: Segment) {
    (a.Field? && b.Field? && Le(a.name, b.name) && a.name != b.name) || (a.Branch? && b.Branch? && a.index < b.index)
  }

  /** A place comes before the places behind it, fields by name and branches by position. */
  predicate PathBefore(p: seq<Segment>, q: seq<Segment>) {
    q != [] && (p == [] || SegmentBefore(p[0], q[0]) || (p[0] == q[0] && PathBefore(p[1..], q[1..])))
  }

  function Rank(a: Aspect): nat {
    match a
    case PluginName => 0 case PluginVersion => 1 case PluginDescription => 2 case ImmutablePaths => 3 case Subids => 4
    case Type => 0 case Required => 1 case Description => 2 case Default => 3 case Example => 4 case Constraints => 5
    case ReadOnly => 6 case BranchCount => 7 case Dropped => 8 case Added => 9
  }

  predicate Before(x: Diff, y: Diff) {
    PathBefore(x.path, y.path) || (x.path == y.path && Rank(x.aspect) < Rank(y.aspect))
  }

  predicate InOrder(ds: seq<Diff>) {
    forall i, j | 0 <= i < j < |ds| :: Before(ds[i], ds[j])
  }

  lemma {:induction false} SameFront(prefix: seq<Segment>, s: Segment, t: Segment, p: seq<Segment>, q: seq<Segment>)
    requires prefix + [s] <= p && prefix + [t] <= q && SegmentBefore(s, t)
    ensures PathBefore(p, q)
  {
    hide SegmentBefore;
    assert p[..|prefix| + 1] == prefix + [s] && q[..|prefix| + 1] == prefix + [t];
    if prefix == [] {
      assert p[0] == p[..1][0] && q[0] == q[..1][0];
    } else {
      var rest := prefix[1..];
      assert p[0] == p[..|prefix| + 1][0] && q[0] == q[..|prefix| + 1][0];
      assert p[1..][..|rest| + 1] == p[..|prefix| + 1][1..] == rest + [s];
      assert q[1..][..|rest| + 1] == q[..|prefix| + 1][1..] == rest + [t];
      SameFront(rest, s, t, p[1..], q[1..]);
    }
  }

  lemma {:induction false} ShorterFirst(p: seq<Segment>, q: seq<Segment>)
    requires p <= q && p != q
    ensures PathBefore(p, q)
  {
    if p != [] { ShorterFirst(p[1..], q[1..]); }
  }

  lemma {:induction false} PathsAsymmetric(p: seq<Segment>, q: seq<Segment>)
    ensures !(PathBefore(p, q) && PathBefore(q, p))
  {
    if p != [] && q != [] {
      PathsAsymmetric(p[1..], q[1..]);
      if p[0].Field? && q[0].Field? && Le(p[0].name, q[0].name) && Le(q[0].name, p[0].name) {
        LeAntisymmetric(p[0].name, q[0].name);
      }
    }
  }

  lemma BeforeAsymmetric(x: Diff, y: Diff)
    ensures !(Before(x, y) && Before(y, x)) && !Before(x, x)
  {
    hide PathBefore;
    PathsAsymmetric(x.path, y.path);
    PathsAsymmetric(x.path, x.path);
  }

  lemma InOrderConcat(a: seq<Diff>, b: seq<Diff>)
    requires InOrder(a) && InOrder(b) && forall x, y | x in a && y in b :: Before(x, y)
    ensures InOrder(a + b)
  {
    hide Before;
    var c := a + b;
    forall i, j | 0 <= i < j < |c| ensures Before(c[i], c[j]) {
      if j < |a| {
        assert c[i] == a[i] && c[j] == a[j];
      } else if i < |a| {
        assert c[i] == a[i] && c[j] == b[j - |a|] && a[i] in a && b[j - |a|] in b;
      } else {
        assert c[i] == b[i - |a|] && c[j] == b[j - |a|];
      }
    }
  }

  /** Entries of one place, all below a rank. */
  predicate AllBelow(ds: seq<Diff>, path: seq<Segment>, n: nat) {
    InOrder(ds) && forall d | d in ds :: d.path == path && Rank(d.aspect) < n
  }

  lemma IfInOrder(ds: seq<Diff>, path: seq<Segment>, differs: bool, aspect: Aspect)
    requires AllBelow(ds, path, Rank(aspect))
    ensures AllBelow(ds + If(differs, path, aspect), path, Rank(aspect) + 1)
  {
    hide PathBefore;
    InOrderConcat(ds, If(differs, path, aspect));
  }

  lemma OwnInOrder(path: seq<Segment>, r: FieldSchema, v: FieldSchema)
    ensures AllBelow(OwnDrift(path, r, v), path, 7)
  {
    hide If, TypeTag, ConstraintTags, AllBelow;
    NoneBelow(path);
    var p1 := [] + If(TypeTag(r.fieldType) != TypeTag(v.fieldType), path, Type);
    IfInOrder([], path, TypeTag(r.fieldType) != TypeTag(v.fieldType), Type);
    var p2 := p1 + If(r.required != v.required, path, Required);
    IfInOrder(p1, path, r.required != v.required, Required);
    var p3 := p2 + If(r.description != v.description, path, Description);
    IfInOrder(p2, path, r.description != v.description, Description);
    var p4 := p3 + If(r.default != v.default, path, Default);
    IfInOrder(p3, path, r.default != v.default, Default);
    var p5 := p4 + If(r.example != v.example, path, Example);
    IfInOrder(p4, path, r.example != v.example, Example);
    var p6 := p5 + If(ConstraintTags(r.constraints) != ConstraintTags(v.constraints), path, Constraints);
    IfInOrder(p5, path, ConstraintTags(r.constraints) != ConstraintTags(v.constraints), Constraints);
    IfInOrder(p6, path, r.readOnly != v.readOnly, ReadOnly);
    assert p1 == If(TypeTag(r.fieldType) != TypeTag(v.fieldType), path, Type);
  }

  lemma NoneBelow(path: seq<Segment>)
    ensures AllBelow([], path, 0)
  {
  }

  lemma HeadInOrder(r: PluginSchema, v: PluginSchema)
    ensures AllBelow(HeadDrift(r, v), [], 5)
  {
    hide If, AllBelow, Sort;
    NoneBelow([]);
    var ir, id := Sort(multiset(r.immutablePaths)), Sort(multiset(v.immutablePaths));
    var p1 := [] + If(r.name != v.name, [], PluginName);
    IfInOrder([], [], r.name != v.name, PluginName);
    var p2 := p1 + If(r.version != v.version, [], PluginVersion);
    IfInOrder(p1, [], r.version != v.version, PluginVersion);
    var p3 := p2 + If(r.description != v.description, [], PluginDescription);
    IfInOrder(p2, [], r.description != v.description, PluginDescription);
    var p4 := p3 + If(ir != id, [], ImmutablePaths);
    IfInOrder(p3, [], ir != id, ImmutablePaths);
    IfInOrder(p4, [], r.subids != v.subids, Subids);
    assert p1 == If(r.name != v.name, [], PluginName);
  }

  lemma {:induction false} FieldInOrder(path: seq<Segment>, r: FieldSchema, v: FieldSchema)
    ensures InOrder(FieldDrift(path, r, v))
    decreases r, 2
  {
    hide OwnDrift, TypeDrift, Differs, InOrder, Before;
    var own, behind := OwnDrift(path, r, v), TypeDrift(path, r.fieldType, v.fieldType);
    OwnIsInOrder(path, r, v);
    TypeInOrder(path, r.fieldType, v.fieldType);
    forall x, y | x in own && y in behind ensures Before(x, y) { OwnFirst(path, r, v, x, y); }
    InOrderConcat(own, behind);
  }

  lemma OwnIsInOrder(path: seq<Segment>, r: FieldSchema, v: FieldSchema)
    ensures InOrder(OwnDrift(path, r, v))
  {
    hide InOrder, OwnDrift;
    OwnInOrder(path, r, v);
  }

  lemma OwnFirst(path: seq<Segment>, r: FieldSchema, v: FieldSchema, x: Diff, y: Diff)
    requires x in OwnDrift(path, r, v) && y in TypeDrift(path, r.fieldType, v.fieldType)
    ensures Before(x, y)
  {
    hide OwnDrift, TypeDrift, Differs, InOrder, PathBefore;
    OwnInOrder(path, r, v);
    InTypeDrift(path, r.fieldType, v.fieldType, y);
    if y.path == path {
      assert Rest(path, y.path) == [];
      DiffersHere(AType(r.fieldType), AType(v.fieldType), y.aspect);
    } else {
      ShorterFirst(path, y.path);
    }
  }

  lemma {:induction false} TypeInOrder(path: seq<Segment>, r: FieldType, v: FieldType)
    ensures InOrder(TypeDrift(path, r, v))
    decreases r, 1
  {
    hide FieldsDrift, BranchesDrift, InOrder, Sort;
    if r.ArrayType? && v.ArrayType? {
      TypeInOrder(path + [Items], r.item, v.item);
    } else if r.ObjectType? && v.ObjectType? {
      NamesInOrder(r.fields.Keys + v.fields.Keys);
      FieldsInOrder(path, r, v, Keys(r.fields.Keys + v.fields.Keys));
    } else if r.OneOfType? && v.OneOfType? {
      UnionInOrder(path, r, v);
    } else {
      NoneBelow([]);
      NoneInOrder();
    }
  }

  lemma NoneInOrder()
    ensures InOrder([])
  {
  }

  /** Names that come one after the other, each once. */
  predicate Ascending(names: seq<string>) {
    forall i, j | 0 <= i < j < |names| :: Le(names[i], names[j]) && names[i] != names[j]
  }

  lemma NamesInOrder(s: set<string>)
    ensures Ascending(Keys(s))
  {
    var names := Keys(s);
    SortSorts(multiset(s));
    hide Sort;
    forall i, j | 0 <= i < j < |names| ensures names[i] != names[j] {
      if names[i] == names[j] { TwiceCounts(names, i, j); }
    }
  }

  lemma TwiceCounts(names: seq<string>, i: nat, j: nat)
    requires i < j < |names| && names[i] == names[j]
    ensures multiset(names)[names[i]] >= 2
  {
    assert names == names[..j] + names[j..];
    assert names[i] == names[..j][i] && names[i] in names[..j];
    assert names[j] == names[j..][0] && names[j] in names[j..];
  }

  lemma EntryIsUnder(path: seq<Segment>, r: FieldType, v: FieldType, k: string, d: Diff)
    requires r.ObjectType? && v.ObjectType? && d in EntryDrift(path + [Field(k)], r, v, k)
    ensures path + [Field(k)] <= d.path
  {
    if k in r.fields || k in v.fields {
      hide EntryDrift, Differs;
      InEntryDrift(path, r, v, k, d);
    }
  }

  lemma {:induction false} EntryInOrder(path: seq<Segment>, r: FieldType, v: FieldType, k: string)
    requires r.ObjectType? && v.ObjectType?
    ensures InOrder(EntryDrift(path, r, v, k))
    decreases r, 0, 0
  {
    hide FieldDrift, Before;
    if k in r.fields && k in v.fields { FieldInOrder(path, r.fields[k], v.fields[k]); }
  }

  lemma {:induction false} FieldsInOrder(path: seq<Segment>, r: FieldType, v: FieldType, names: seq<string>)
    requires r.ObjectType? && v.ObjectType? && Ascending(names)
    ensures InOrder(FieldsDrift(path, r, v, names))
    decreases r, 0, |names| + 1
  {
    hide EntryDrift, InOrder, Before, Le;
    if names == [] {
      NoneInOrder();
    } else {
      var before, k := names[..|names| - 1], names[|names| - 1];
      FieldsInOrder(path, r, v, before);
      EntryInOrder(path + [Field(k)], r, v, k);
      forall x, y | x in FieldsDrift(path, r, v, before) && y in EntryDrift(path + [Field(k)], r, v, k)
        ensures Before(x, y)
      {
        EarlierFields(path, r, v, before, k, x, y);
      }
      InOrderConcat(FieldsDrift(path, r, v, before), EntryDrift(path + [Field(k)], r, v, k));
    }
  }

  lemma EarlierFields(path: seq<Segment>, r: FieldType, v: FieldType, before: seq<string>, k: string, x: Diff, y: Diff)
    requires r.ObjectType? && v.ObjectType? && Ascending(before + [k])
    requires x in FieldsDrift(path, r, v, before) && y in EntryDrift(path + [Field(k)], r, v, k)
    ensures Before(x, y)
  {
    hide EntryDrift, FieldsDrift, PathBefore, Le;
    InEntries(path, r, v, before, x);
    var l :| l in before && x in EntryDrift(path + [Field(l)], r, v, l);
    var i :| 0 <= i < |before| && before[i] == l;
    assert (before + [k])[i] == l && (before + [k])[|before|] == k;
    EntryIsUnder(path, r, v, l, x);
    EntryIsUnder(path, r, v, k, y);
    SameFront(path, Field(l), Field(k), x.path, y.path);
  }

  lemma {:induction false} BranchesInOrder(path: seq<Segment>, r: FieldType, v: FieldType, n: nat)
    requires BothUnions(r, v) && n <= |r.branches| && n <= |v.branches|
    ensures InOrder(BranchesDrift(path, r, v, n))
    decreases r, 0, n
  {
    hide TypeDrift, InOrder, Before;
    if n == 0 {
      NoneInOrder();
    } else {
      var earlier := BranchesDrift(path, r, v, n - 1);
      var last := TypeDrift(path + [Branch(n - 1)], r.branches[n - 1], v.branches[n - 1]);
      BranchesInOrder(path, r, v, n - 1);
      TypeInOrder(path + [Branch(n - 1)], r.branches[n - 1], v.branches[n - 1]);
      forall x, y | x in earlier && y in last ensures Before(x, y) {
        EarlierBranches(path, r, v, n - 1, x, y);
      }
      InOrderConcat(earlier, last);
    }
  }

  lemma EarlierBranches(path: seq<Segment>, r: FieldType, v: FieldType, n: nat, x: Diff, y: Diff)
    requires BothUnions(r, v) && n < |r.branches| && n < |v.branches|
    requires x in BranchesDrift(path, r, v, n) && y in TypeDrift(path + [Branch(n)], r.branches[n], v.branches[n])
    ensures Before(x, y)
  {
    hide TypeDrift, BranchesDrift, PathBefore, Differs;
    InBranches(path, r, v, n, x);
    var i: nat :| i < n && x in TypeDrift(path + [Branch(i)], r.branches[i], v.branches[i]);
    InTypeDrift(path + [Branch(i)], r.branches[i], v.branches[i], x);
    InTypeDrift(path + [Branch(n)], r.branches[n], v.branches[n], y);
    SameFront(path, Branch(i), Branch(n), x.path, y.path);
  }

  lemma {:induction false} UnionInOrder(path: seq<Segment>, r: FieldType, v: FieldType)
    requires BothUnions(r, v)
    ensures InOrder(TypeDrift(path, r, v))
    decreases r, 0
  {
    hide BranchesDrift, TypeDrift, Before, Differs;
    var n := if |r.branches| < |v.branches| then |r.branches| else |v.branches|;
    UnionDrift(path, r, v);
    BranchesInOrder(path, r, v, n);
    var count, rest := If(|r.branches| != |v.branches|, path, BranchCount), BranchesDrift(path, r, v, n);
    forall x, y | x in count && y in rest ensures Before(x, y) { CountFirst(path, r, v, n, x, y); }
    InOrderConcat(count, rest);
  }

  lemma CountFirst(path: seq<Segment>, r: FieldType, v: FieldType, n: nat, x: Diff, y: Diff)
    requires BothUnions(r, v) && n <= |r.branches| && n <= |v.branches|
    requires x.path == path && y in BranchesDrift(path, r, v, n)
    ensures Before(x, y)
  {
    hide TypeDrift, BranchesDrift, PathBefore, Differs;
    InBranches(path, r, v, n, y);
    var i: nat :| i < n && y in TypeDrift(path + [Branch(i)], r.branches[i], v.branches[i]);
    InTypeDrift(path + [Branch(i)], r.branches[i], v.branches[i], y);
    FrontStep(path, Branch(i), y.path);
    ShorterFirst(path, y.path);
  }

  /** The report names the places in order: the schema itself, then each field before what is
      behind it, by name; so every difference once. */
  lemma ReportInOrder(r: PluginSchema, v: PluginSchema)
    ensures InOrder(SchemaDrift(r, v))
    ensures forall i, j | 0 <= i < j < |SchemaDrift(r, v)| :: SchemaDrift(r, v)[i] != SchemaDrift(r, v)[j]
  {
    hide HeadDrift, FieldsDrift, Sort, PathBefore;
    var names := Keys(r.fields.Keys + v.fields.Keys);
    var head, fields := HeadDrift(r, v), FieldsDrift([], TopFields(r), TopFields(v), names);
    HeadInOrder(r, v);
    NamesInOrder(r.fields.Keys + v.fields.Keys);
    FieldsInOrder([], TopFields(r), TopFields(v), names);
    forall x, y | x in head && y in fields ensures Before(x, y) {
      InEntries([], TopFields(r), TopFields(v), names, y);
      var k :| k in names && y in EntryDrift([] + [Field(k)], TopFields(r), TopFields(v), k);
      EntryIsUnder([], TopFields(r), TopFields(v), k, y);
      ShorterFirst(x.path, y.path);
    }
    InOrderConcat(head, fields);
    hide Before;
    forall i, j | 0 <= i < j < |head + fields| ensures (head + fields)[i] != (head + fields)[j] {
      BeforeAsymmetric((head + fields)[i], (head + fields)[j]);
    }
  }

  ghost predicate SameMembers(a: seq<Diff>, b: seq<Diff>) { forall d :: d in a <==> d in b }

  lemma LastsMeet(a: seq<Diff>, b: seq<Diff>)
    requires InOrder(a) && InOrder(b) && a != [] && b != [] && SameMembers(a, b)
    ensures a[|a| - 1] == b[|b| - 1]
  {
    hide Before;
    var x, y := a[|a| - 1], b[|b| - 1];
    assert x in b && y in a;
    var i :| 0 <= i < |b| && b[i] == x;
    var j :| 0 <= j < |a| && a[j] == y;
    BeforeAsymmetric(x, y);
  }

  lemma InitsMeet(a: seq<Diff>, b: seq<Diff>)
    requires InOrder(a) && InOrder(b) && a != [] && b != [] && a[|a| - 1] == b[|b| - 1] && SameMembers(a, b)
    ensures SameMembers(a[..|a| - 1], b[..|b| - 1])
  {
    hide InOrder;
    LastIsNotEarlier(a);
    LastIsNotEarlier(b);
    var front, front', last := a[..|a| - 1], b[..|b| - 1], a[|a| - 1];
    assert a == front + [last] && b == front' + [last];
    forall d ensures d in front <==> d in front' {
      assert d in a <==> d in front || d == last;
      assert d in b <==> d in front' || d == last;
    }
  }

  lemma HasMember(a: seq<Diff>)
    ensures a != [] <==> exists d :: d in a
  {
    if a != [] { assert a[0] in a; }
  }

  lemma {:induction false} SameMembersSameList(a: seq<Diff>, b: seq<Diff>)
    requires InOrder(a) && InOrder(b) && SameMembers(a, b)
    ensures a == b
  {
    hide Before;
    HasMember(a);
    HasMember(b);
    if a != [] && b != [] {
      LastsMeet(a, b);
      InitsMeet(a, b);
      SameMembersSameList(a[..|a| - 1], b[..|b| - 1]);
      assert a == a[..|a| - 1] + [a[|a| - 1]] && b == b[..|b| - 1] + [b[|b| - 1]];
    }
  }

  lemma LastIsNotEarlier(a: seq<Diff>)
    requires InOrder(a) && a != []
    ensures a[|a| - 1] !in a[..|a| - 1]
  {
    hide Before;
    BeforeAsymmetric(a[|a| - 1], a[|a| - 1]);
  }

  /** The report is the only list in that order of exactly the differences. */
  lemma ReportIsTheList(r: PluginSchema, v: PluginSchema, ds: seq<Diff>)
    ensures ds == SchemaDrift(r, v) <==> InOrder(ds) && forall d :: d in ds <==> SchemasDiffer(r, v, d.path, d.aspect)
  {
    hide InOrder, SchemasDiffer, HeadDrift, FieldsDrift, Sort;
    forall d ensures d in SchemaDrift(r, v) <==> SchemasDiffer(r, v, d.path, d.aspect) { ReportedIff(r, v, d); }
    ReportInOrder(r, v);
    if InOrder(ds) && forall d :: d in ds <==> SchemasDiffer(r, v, d.path, d.aspect) {
      SameMembersSameList(ds, SchemaDrift(r, v));
    }
  }
}
