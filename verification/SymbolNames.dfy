/** When the symbols of a method's file are all different, as protobuf wants them: nested
    messages are named after the Pascal-case form of their field, and two names may share
    one. */
module SymbolNames {
  import opened Text
  import opened Messages
  import opened Schema
  import opened Descriptor

  predicate NoDuplicates(s: seq<string>) {
    forall i, j | 0 <= i < j < |s| :: s[i] != s[j]
  }

  /** No two message-typed fields share a Pascal-case form. */
  predicate DistinctForms(fields: seq<FieldDef>) {
    forall i, j | 0 <= i < j < |fields| && fields[i].typeName.Some? && fields[j].typeName.Some? ::
      PascalCase(fields[i].name) != PascalCase(fields[j].name)
  }

  /** And none does in any nested message. */
  predicate DistinctThroughout(m: MessageDef) {
    DistinctForms(m.fields) && forall n | n in m.nested :: DistinctThroughout(n)
  }

  // ---------------------------------------------------------------- siblings

  lemma SameMessageName(a: string, b: string)
    ensures MessageName(a) == MessageName(b) <==> PascalCase(a) == PascalCase(b)
  {
    hide PascalCase;
    var x, y := PascalCase(a), PascalCase(b);
    assert MessageName(a)[..|MessageName(a)| - 3] == x && MessageName(b)[..|MessageName(b)| - 3] == y;
  }

  predicate NamedAfterFields(fields: seq<FieldDef>) {
    forall f | f in fields && f.typeName.Some? :: f.typeName.value == MessageName(f.name)
  }

  lemma {:induction false} TypeNamesComeFromFields(fields: seq<FieldDef>, x: string)
    ensures x in MessageTypeNames(fields) <==> exists i :: 0 <= i < |fields| && fields[i].typeName == Some(x)
  {
    if fields != [] {
      var n := |fields| - 1;
      TypeNamesComeFromFields(fields[..n], x);
      if i :| 0 <= i < n && fields[..n][i].typeName == Some(x) { assert fields[i].typeName == Some(x); }
      if i :| 0 <= i < |fields| && fields[i].typeName == Some(x) {
        if i < n { assert fields[..n][i].typeName == Some(x); }
      }
    }
  }

  lemma DistinctFormsSnoc(fields: seq<FieldDef>)
    requires fields != []
    ensures
      var before, last := fields[..|fields| - 1], fields[|fields| - 1];
      DistinctForms(fields) <==>
      DistinctForms(before) &&
      (last.typeName.Some? ==>
         forall f | f in before && f.typeName.Some? :: PascalCase(f.name) != PascalCase(last.name))
  {
    hide PascalCase;
    var before, last := fields[..|fields| - 1], fields[|fields| - 1];
    forall i | 0 <= i < |before| ensures before[i] == fields[i] && fields[i] in before { }
    if DistinctForms(fields) {
      forall f | f in before ensures exists i :: 0 <= i < |fields| - 1 && fields[i] == f { }
    }
  }

  lemma {:induction false} TypeNamesDistinct(fields: seq<FieldDef>)
    requires NamedAfterFields(fields)
    ensures NoDuplicates(MessageTypeNames(fields)) <==> DistinctForms(fields)
  {
    hide PascalCase, MessageName, DistinctForms;
    if fields == [] {
      NothingIsDistinct();
    } else {
      var before, last := fields[..|fields| - 1], fields[|fields| - 1];
      TypeNamesDistinct(before);
      DistinctFormsSnoc(fields);
      assert fields == before + [last];
      assert MessageTypeNames(before) + [] == MessageTypeNames(before);
      if last.typeName.Some? { LastNameIsNew(before, last); }
    }
  }

  lemma LastNameIsNew(before: seq<FieldDef>, last: FieldDef)
    requires NamedAfterFields(before + [last]) && last.typeName.Some?
    ensures NoDuplicates(MessageTypeNames(before) + [last.typeName.value]) <==>
            NoDuplicates(MessageTypeNames(before)) &&
            forall f | f in before && f.typeName.Some? :: PascalCase(f.name) != PascalCase(last.name)
  {
    hide PascalCase, MessageName, NoDuplicates;
    var x := last.typeName.value;
    LastIsNew(MessageTypeNames(before), x);
    TypeNamesComeFromFields(before, x);
    assert last in before + [last];
    forall f | f in before && f.typeName.Some?
      ensures f.typeName == Some(x) <==> PascalCase(f.name) == PascalCase(last.name)
    {
      assert f in before + [last];
      SameMessageName(f.name, last.name);
    }
    if x in MessageTypeNames(before) {
      var i :| 0 <= i < |before| && before[i].typeName == Some(x);
      assert before[i] in before;
    }
    forall f | f in before && f.typeName == Some(x) ensures x in MessageTypeNames(before) {
      var i :| 0 <= i < |before| && before[i] == f;
      assert before[i].typeName == Some(x);
    }
  }

  lemma NothingIsDistinct()
    ensures DistinctForms([])
  {
  }

  lemma LastIsNew(s: seq<string>, x: string)
    ensures NoDuplicates(s + [x]) <==> NoDuplicates(s) && x !in s
  {
    var t := s + [x];
    if NoDuplicates(t) {
      forall i, j | 0 <= i < j < |s| ensures s[i] != s[j] { assert t[i] != t[j]; }
      forall i | 0 <= i < |s| ensures s[i] != x { assert t[i] != t[|s|]; }
    }
  }

  /** Sibling messages have different names exactly when the fields they come from have
      different Pascal-case forms. */
  lemma SiblingsAreDistinct(m: MessageDef)
    requires WellFormed(m)
    ensures NoDuplicates(NamesOf(m.nested)) <==> DistinctForms(m.fields)
  {
    hide NoDuplicates, DistinctForms, MessageTypeNames, MessageName;
    TypeNamesDistinct(m.fields);
  }

  // ---------------------------------------------------------------- qualified names

  /** The names on the way to a nested message. */
  function Segments(m: MessageDef, p: seq<nat>): seq<string>
    requires IsPath(m, p)
  {
    if p == [] then [] else [m.nested[p[0]].name] + Segments(m.nested[p[0]], p[1..])
  }

  function Joined(segments: seq<string>): string {
    if segments == [] then "" else "." + segments[0] + Joined(segments[1..])
  }

  predicate DotFree(segments: seq<string>) {
    forall s | s in segments :: '.' !in s
  }

  lemma {:induction false} PathNameIsJoined(m: MessageDef, full: string, p: seq<nat>)
    requires IsPath(m, p)
    ensures PathName(m, full, p) == full + Joined(Segments(m, p))
  {
    if p == [] {
      assert full + "" == full;
    } else {
      var n := m.nested[p[0]];
      PathNameIsJoined(n, full + "." + n.name, p[1..]);
      var rest := Segments(n, p[1..]);
      assert ([n.name] + rest)[1..] == rest;
      assert (full + "." + n.name) + Joined(rest) == full + ("." + n.name + Joined(rest));
    }
  }

  lemma DotIsTooEarly(a: string, s: string, b: string, t: string)
    requires '.' !in b && (s == "" || s[0] == '.')
    ensures |a| < |b| ==> a + s != b + t
  {
    if |a| < |b| {
      if s == "" {
        assert |a + s| < |b + t|;
      } else {
        assert (a + s)[|a|] == '.' && (b + t)[|a|] == b[|a|];
      }
    }
  }

  /** Up to the next full stop. */
  lemma SplitAtDot(a: string, s: string, b: string, t: string)
    requires a + s == b + t && '.' !in a && '.' !in b
    requires (s == "" || s[0] == '.') && (t == "" || t[0] == '.')
    ensures a == b && s == t
  {
    DotIsTooEarly(a, s, b, t);
    DotIsTooEarly(b, t, a, s);
    assert a == (a + s)[..|a|] && s == (a + s)[|a|..];
    assert b == (b + t)[..|a|] && t == (b + t)[|a|..];
  }

  lemma {:induction false} JoinedInjective(a: seq<string>, b: seq<string>)
    requires DotFree(a) && DotFree(b) && Joined(a) == Joined(b)
    ensures a == b
  {
    if a != [] && b != [] {
      assert (a[0] + Joined(a[1..])) == Joined(a)[1..] && (b[0] + Joined(b[1..])) == Joined(b)[1..];
      SplitAtDot(a[0], Joined(a[1..]), b[0], Joined(b[1..]));
      JoinedInjective(a[1..], b[1..]);
      assert a == [a[0]] + a[1..] && b == [b[0]] + b[1..];
    }
  }

  // ---------------------------------------------------------------- nested names

  lemma {:induction false} PascalHasNoDot(s: string, upper: bool)
    ensures '.' !in PascalFrom(s, upper)
  {
    if s != "" {
      PascalHasNoDot(s[1..], true);
      PascalHasNoDot(s[1..], false);
    }
  }

  lemma NestedNameHasNoDot(m: MessageDef, i: nat)
    requires WellFormed(m) && i < |m.nested|
    ensures '.' !in m.nested[i].name && WellFormed(m.nested[i])
  {
    hide PascalCase, MessageTypeNames;
    var x := m.nested[i].name;
    assert NamesOf(m.nested)[i] == x && x in MessageTypeNames(m.fields);
    TypeNamesComeFromFields(m.fields, x);
    var k :| 0 <= k < |m.fields| && m.fields[k].typeName == Some(x);
    assert m.fields[k] in m.fields && m.nested[i] in m.nested;
    PascalHasNoDot(m.fields[k].name, true);
    PascalCaseStarts(m.fields[k].name);
  }

  lemma PascalCaseStarts(s: string)
    ensures PascalCase(s) == PascalFrom(s, true)
  {
  }

  lemma {:induction false} SegmentsAreDotFree(m: MessageDef, p: seq<nat>)
    requires WellFormed(m) && IsPath(m, p)
    ensures DotFree(Segments(m, p))
  {
    hide WellFormed;
    if p != [] {
      NestedNameHasNoDot(m, p[0]);
      SegmentsAreDotFree(m.nested[p[0]], p[1..]);
    }
  }

  lemma {:induction false} SegmentsInjective(m: MessageDef, p: seq<nat>, q: seq<nat>)
    requires WellFormed(m) && DistinctThroughout(m) && IsPath(m, p) && IsPath(m, q)
    requires Segments(m, p) == Segments(m, q)
    ensures p == q
  {
    hide WellFormed, DistinctForms;
    if p != [] && q != [] {
      var n := m.nested[p[0]];
      assert Segments(m, p)[0] == n.name && Segments(m, q)[0] == m.nested[q[0]].name;
      assert Segments(m, p)[1..] == Segments(n, p[1..]) && Segments(m, q)[1..] == Segments(m.nested[q[0]], q[1..]);
      SiblingsAreDistinct(m);
      assert NamesOf(m.nested)[p[0]] == NamesOf(m.nested)[q[0]];
      NestedNameHasNoDot(m, p[0]);
      SegmentsInjective(n, p[1..], q[1..]);
      assert p == [p[0]] + p[1..] && q == [q[0]] + q[1..];
    }
  }

  lemma {:induction false} SegmentsCollide(m: MessageDef) returns (p: seq<nat>, q: seq<nat>)
    requires WellFormed(m) && !DistinctThroughout(m)
    ensures IsPath(m, p) && IsPath(m, q) && p != [] && q != [] && p != q && Segments(m, p) == Segments(m, q)
    decreases m
  {
    hide WellFormed, DistinctForms;
    SiblingsAreDistinct(m);
    if !DistinctForms(m.fields) {
      var i, j :| 0 <= i < j < |m.nested| && NamesOf(m.nested)[i] == NamesOf(m.nested)[j];
      p, q := [i], [j];
      assert p[1..] == [] && q[1..] == [];
    } else {
      var n :| n in m.nested && !DistinctThroughout(n);
      var i :| 0 <= i < |m.nested| && m.nested[i] == n;
      NestedNameHasNoDot(m, i);
      var p', q' := SegmentsCollide(n);
      p, q := [i] + p', [i] + q';
      assert p[1..] == p' && q[1..] == q';
    }
  }

  // ---------------------------------------------------------------- the symbols of a message

  lemma SymbolAt(m: MessageDef, full: string, k: nat)
    requires WellFormed(m) && k < |Paths(m)|
    ensures k < |NestedSymbols(m, full)| && IsPath(m, Paths(m)[k]) && Paths(m)[k] != []
    ensures DotFree(Segments(m, Paths(m)[k]))
    ensures NestedSymbols(m, full)[k] == full + Joined(Segments(m, Paths(m)[k]))
  {
    hide WellFormed, NestedSymbols, Paths;
    SymbolsAreThePaths(m, full);
    assert Paths(m)[k] in Paths(m);
    PathNameIsJoined(m, full, Paths(m)[k]);
    SegmentsAreDotFree(m, Paths(m)[k]);
  }

  lemma SameSymbol(m: MessageDef, full: string, j: nat, k: nat)
    requires WellFormed(m) && j < |Paths(m)| && k < |Paths(m)|
    requires |NestedSymbols(m, full)| == |Paths(m)| && NestedSymbols(m, full)[j] == NestedSymbols(m, full)[k]
    ensures IsPath(m, Paths(m)[j]) && IsPath(m, Paths(m)[k])
    ensures Segments(m, Paths(m)[j]) == Segments(m, Paths(m)[k])
  {
    hide WellFormed, NestedSymbols, Paths, Segments;
    SymbolAt(m, full, j);
    SymbolAt(m, full, k);
    var a, b := Joined(Segments(m, Paths(m)[j])), Joined(Segments(m, Paths(m)[k]));
    assert (full + a)[|full|..] == a && (full + b)[|full|..] == b;
    JoinedInjective(Segments(m, Paths(m)[j]), Segments(m, Paths(m)[k]));
  }

  /** The symbols of a message are all different exactly when no two message-typed fields
      of it, or of any message nested in it, share a Pascal-case form. */
  lemma NestedSymbolsDistinct(m: MessageDef, full: string)
    requires WellFormed(m)
    ensures NoDuplicates(NestedSymbols(m, full)) <==> DistinctThroughout(m)
  {
    hide WellFormed, NestedSymbols, Paths, Segments, DistinctThroughout;
    SymbolsAreThePaths(m, full);
    if DistinctThroughout(m) {
      forall j, k | 0 <= j < k < |Paths(m)| ensures NestedSymbols(m, full)[j] != NestedSymbols(m, full)[k] {
        if NestedSymbols(m, full)[j] == NestedSymbols(m, full)[k] {
          SameSymbol(m, full, j, k);
          SegmentsInjective(m, Paths(m)[j], Paths(m)[k]);
        }
      }
    } else {
      var p, q := SegmentsCollide(m);
      PathNameIsJoined(m, full, p);
      PathNameIsJoined(m, full, q);
      assert p in Paths(m) && q in Paths(m);
      var j :| 0 <= j < |Paths(m)| && Paths(m)[j] == p;
      var k :| 0 <= k < |Paths(m)| && Paths(m)[k] == q;
      assert NestedSymbols(m, full)[j] == NestedSymbols(m, full)[k] && j != k;
    }
  }

  // ---------------------------------------------------------------- the symbols of a file

  /** `x` names something in the package: `first` itself, or something inside it. */
  ghost predicate Qualified(x: string, package: string, first: string, inside: bool) {
    exists segments :: DotFree(segments) && x == package + Joined(segments) && segments != [] &&
                       segments[0] == first && (inside <==> |segments| > 1)
  }

  lemma QualifiedApart(x: string, y: string, package: string, a: string, b: string, inA: bool, inB: bool)
    requires Qualified(x, package, a, inA) && Qualified(y, package, b, inB) && (a != b || inA != inB)
    ensures x != y
  {
    if x == y {
      var s :| DotFree(s) && x == package + Joined(s) && s != [] && s[0] == a && (inA <==> |s| > 1);
      var t :| DotFree(t) && y == package + Joined(t) && t != [] && t[0] == b && (inB <==> |t| > 1);
      assert (package + Joined(s))[|package|..] == Joined(s) && (package + Joined(t))[|package|..] == Joined(t);
      JoinedInjective(s, t);
    }
  }

  lemma OneSegment(package: string, a: string)
    requires '.' !in a
    ensures Qualified(package + "." + a, package, a, false)
  {
    assert Joined([a]) == "." + a + "";
    assert package + "." + a == package + Joined([a]);
  }

  lemma TwoSegments(package: string, a: string, b: string)
    requires '.' !in a && '.' !in b
    ensures Qualified(package + "." + a + "." + b, package, a, true)
  {
    var s := [a, b];
    assert s[1..] == [b] && Joined([b]) == "." + b + "";
    assert package + "." + a + "." + b == package + Joined(s);
  }

  lemma NestedIsQualified(m: MessageDef, package: string, k: nat)
    requires WellFormed(m) && k < |Paths(m)| && '.' !in m.name
    ensures |NestedSymbols(m, package + "." + m.name)| == |Paths(m)|
    ensures Qualified(NestedSymbols(m, package + "." + m.name)[k], package, m.name, true)
  {
    hide WellFormed, NestedSymbols, Paths;
    var full := package + "." + m.name;
    SymbolsAreThePaths(m, full);
    SymbolAt(m, full, k);
    var rest := Segments(m, Paths(m)[k]);
    var s := [m.name] + rest;
    assert s[1..] == rest;
    assert full + Joined(rest) == package + Joined(s);
  }

  /** Which part of the file the `k`-th symbol names. */
  ghost function PartNamed(pascal: string, inputs: nat, k: nat): (string, bool) {
    if k == 0 then (pascal + "Service", false)
    else if k == 1 then (pascal + "Input", false)
    else if k == 2 then (pascal + "Output", false)
    else if k == 3 then (pascal + "Service", true)
    else if k < 4 + inputs then (pascal + "Input", true)
    else (pascal + "Output", true)
  }

  lemma SamePart(pascal: string, inputs: nat, j: nat, k: nat)
    requires j < k && PartNamed(pascal, inputs, j) == PartNamed(pascal, inputs, k)
    ensures 4 <= j && (j < 4 + inputs <==> k < 4 + inputs)
  {
    assert |"Service"| == 7 && |"Input"| == 5 && |"Output"| == 6;
  }

  lemma FileSymbolIsQualified(package: string, pascal: string, input: MessageDef, output: MessageDef, k: nat)
    requires WellFormed(input) && WellFormed(output) && '.' !in pascal
    requires input.name == pascal + "Input" && output.name == pascal + "Output"
    requires k < |FileSymbols(package, pascal, input, output)|
    ensures
      var (first, inside) := PartNamed(pascal, |NestedSymbols(input, package + "." + input.name)|, k);
      Qualified(FileSymbols(package, pascal, input, output)[k], package, first, inside)
  {
    hide WellFormed, NestedSymbols, Paths, Qualified;
    var ins := NestedSymbols(input, package + "." + input.name);
    var outs := NestedSymbols(output, package + "." + output.name);
    SymbolsAreThePaths(input, package + "." + input.name);
    SymbolsAreThePaths(output, package + "." + output.name);
    OneSegment(package, pascal + "Service");
    OneSegment(package, pascal + "Input");
    OneSegment(package, pascal + "Output");
    TwoSegments(package, pascal + "Service", pascal);
    SameSpelling(package, pascal);
    if 4 <= k < 4 + |ins| { NestedIsQualified(input, package, k - 4); }
    if 4 + |ins| <= k { NestedIsQualified(output, package, k - 4 - |ins|); }
  }

  lemma SameSpelling(package: string, pascal: string)
    ensures forall s :: package + "." + (pascal + s) == package + "." + pascal + s
    ensures package + "." + (pascal + "Service") + "." + pascal == package + "." + pascal + "Service" + "." + pascal
  {
  }

  /** The symbols of a method's file are all different exactly when, in both its messages
      and at every depth, no two message-typed fields share a Pascal-case form. */
  lemma FileSymbolsDistinct(package: string, pascal: string, input: MessageDef, output: MessageDef)
    requires WellFormed(input) && WellFormed(output) && '.' !in pascal
    requires input.name == pascal + "Input" && output.name == pascal + "Output"
    ensures NoDuplicates(FileSymbols(package, pascal, input, output)) <==>
            DistinctThroughout(input) && DistinctThroughout(output)
  {
    hide WellFormed, NestedSymbols, Paths, DistinctThroughout, Qualified, PartNamed;
    var ins := NestedSymbols(input, package + "." + input.name);
    var outs := NestedSymbols(output, package + "." + output.name);
    var all := FileSymbols(package, pascal, input, output);
    NestedSymbolsDistinct(input, package + "." + input.name);
    NestedSymbolsDistinct(output, package + "." + output.name);
    if NoDuplicates(ins) && NoDuplicates(outs) {
      forall j, k | 0 <= j < k < |all| ensures all[j] != all[k] {
        FileSymbolIsQualified(package, pascal, input, output, j);
        FileSymbolIsQualified(package, pascal, input, output, k);
        var (a, inA) := PartNamed(pascal, |ins|, j);
        var (b, inB) := PartNamed(pascal, |ins|, k);
        if a != b || inA != inB {
          QualifiedApart(all[j], all[k], package, a, b, inA, inB);
        } else {
          SamePart(pascal, |ins|, j, k);
        }
      }
    }
    if NoDuplicates(all) {
      forall j, k | 0 <= j < k < |ins| ensures ins[j] != ins[k] { assert all[4 + j] != all[4 + k]; }
      forall j, k | 0 <= j < k < |outs| ensures outs[j] != outs[k] {
        assert all[4 + |ins| + j] != all[4 + |ins| + k];
      }
    }
  }

  lemma MethodSymbolsDistinct(pluginId: string, method_: MethodDecl)
    requires Synthesizable(method_)
    ensures NoDuplicates(MethodFile(pluginId, method_).symbols) <==>
            DistinctThroughout(InputMessage(method_)) && DistinctThroughout(OutputMessage(method_))
  {
    hide WellFormed, FileSymbols, FileBytes, DistinctThroughout, NoDuplicates, MessageFromSchema, PackageName,
         ProtoFileName, PascalCase, SchemaEnds;
    var pascal := PascalCase(method_.name);
    PascalHasNoDot(method_.name, true);
    PascalCaseStarts(method_.name);
    SynthesisIsWellFormed(pascal + "Input", method_.args);
    SynthesisIsWellFormed(pascal + "Output", OutputSchema(method_));
    FileSymbolsDistinct(PackageName(pluginId, method_), pascal, InputMessage(method_), OutputMessage(method_));
  }
}
