/** What the manifest of a blob says of each method, against what reflection reads off that
    method's own descriptor bytes. */
module ManifestReading {
  import opened Text
  import opened Ordering
  import opened Schema
  import opened Messages
  import opened Blob
  import opened Blobify
  import opened Descriptor
  import opened DescriptorReader

  // ---------------------------------------------------------------- names in a file

  /** One service with one method, between the two messages of the file. */
  predicate IsMethodFile(file: FileRecord) {
    file.name.Some? && file.package.Some? && |file.messages| == 2 && file.messages[0].name.Some? &&
    file.messages[1].name.Some? && |file.services| == 1 && file.services[0].name.Some? &&
    |file.services[0].methods| == 1 && file.services[0].methods[0].name.Some? &&
    file.services[0].methods[0].inputType.Some? && file.services[0].methods[0].outputType.Some?
  }

  /** The route, the service, the file and both messages, by their names in the file; the
      types of a method are written with a leading full stop. */
  predicate NamesOf(file: FileRecord, path: string, service: string, fileName: string, input: string, output: string)
    requires IsMethodFile(file)
  {
    var package, s := file.package.value, file.services[0];
    var m := s.methods[0];
    fileName == file.name.value &&
    service == package + "." + s.name.value &&
    path == "/" + package + "." + s.name.value + "/" + m.name.value &&
    input == package + "." + file.messages[0].name.value && m.inputType.value == "." + input &&
    output == package + "." + file.messages[1].name.value && m.outputType.value == "." + output
  }

  /** The texts of a method's file, put together from its package and its name. */
  lemma PiecesMatch(package: string, pascal: string)
    ensures
      var service := package + "." + pascal + "Service";
      service == package + "." + (pascal + "Service") &&
      "/" + service + "/" + pascal == "/" + package + "." + (pascal + "Service") + "/" + pascal
    ensures package + "." + pascal + "Input" == package + "." + (pascal + "Input")
    ensures package + "." + pascal + "Output" == package + "." + (pascal + "Output")
    ensures "." + package + "." + pascal + "Input" == "." + (package + "." + pascal + "Input")
    ensures "." + package + "." + pascal + "Output" == "." + (package + "." + pascal + "Output")
  {
    var service := package + "." + pascal + "Service";
    assert service == package + "." + (pascal + "Service");
    assert "/" + service == "/" + package + "." + (pascal + "Service");
  }

  lemma NamesMatch(fileName: string, package: string, pascal: string, x: MessageRecord, y: MessageRecord)
    requires x.name == Some(pascal + "Input") && y.name == Some(pascal + "Output")
    ensures
      var service := package + "." + pascal + "Service";
      var file := FileRecord(Some(fileName), Some(package), [x, y], [ServiceRecordOf(package, pascal)], Some("proto3"));
      IsMethodFile(file) &&
      NamesOf(file, "/" + service + "/" + pascal, service, fileName, package + "." + pascal + "Input",
              package + "." + pascal + "Output")
  {
    PiecesMatch(package, pascal);
  }

  lemma Parts(pluginId: string, method_: MethodDecl)
    requires Synthesizable(method_)
    ensures
      var d := MethodFile(pluginId, method_);
      var package, pascal := PackageName(pluginId, method_), PascalCase(method_.name);
      var service := package + "." + pascal + "Service";
      d.fileName == ProtoFileName(pluginId, method_) && d.serviceFull == service &&
      d.grpcPath == "/" + service + "/" + pascal &&
      d.inputFull == package + "." + pascal + "Input" && d.outputFull == package + "." + pascal + "Output"
  {
    hide PackageName, ProtoFileName, PascalCase, FileSymbols, FileBytes, MessageBytes, ServiceBytes, Synthesizable;
  }

  /** The names kept beside a method's file are those reflection reads off its bytes. */
  lemma MethodNamesRead(pluginId: string, method_: MethodDecl)
    requires Synthesizable(method_) && |MethodFile(pluginId, method_).file| < U64
    ensures
      var d, file := MethodFile(pluginId, method_), ReadFile(MethodFile(pluginId, method_).file);
      file.Some? && IsMethodFile(file.value) &&
      NamesOf(file.value, d.grpcPath, d.serviceFull, d.fileName, d.inputFull, d.outputFull) &&
      file.value.services[0].methods[0].name == Some(PascalCase(method_.name))
  {
    hide PackageName, ProtoFileName, PascalCase, ReadFile, InputMessage, OutputMessage, MessageRecordOf, MethodFile,
         Synthesizable, IsMethodFile, NamesOf;
    MethodFileDescribesMethod(pluginId, method_);
    MessageNames(pluginId, method_);
    Parts(pluginId, method_);
    NamesMatch(ProtoFileName(pluginId, method_), PackageName(pluginId, method_), PascalCase(method_.name),
               MessageRecordOf(InputMessage(method_)), MessageRecordOf(OutputMessage(method_)));
  }

  lemma MessageNames(pluginId: string, method_: MethodDecl)
    requires Synthesizable(method_)
    ensures MessageRecordOf(InputMessage(method_)).name == Some(PascalCase(method_.name) + "Input")
    ensures MessageRecordOf(OutputMessage(method_)).name == Some(PascalCase(method_.name) + "Output")
  {
    hide PascalCase;
  }

  // ---------------------------------------------------------------- the manifest

  /** The declaration found for the `i`-th method is that very method: none other is declared
      under its name, and if no key is its name, all of that name are the same. */
  ghost predicate FindsItself(schema: PluginSchema, i: nat)
    requires i < |schema.methods|
  {
    var name := MethodAt(schema, i).name;
    if name in schema.methods then schema.methods[name] == MethodAt(schema, i)
    else forall k | k in schema.methods && schema.methods[k].name == name :: schema.methods[k] == MethodAt(schema, i)
  }

  lemma AtIsMethod(schema: PluginSchema, i: nat)
    requires i < |schema.methods|
    ensures exists k :: k in schema.methods && schema.methods[k] == MethodAt(schema, i)
  {
    assert Keys(schema.methods.Keys)[i] in schema.methods;
  }

  lemma EntryCopies(pluginId: string, schema: PluginSchema, i: nat)
    requires AllSynthesizable(schema) && i < |schema.methods|
    ensures
      var m, d := MethodManifestAt(pluginId, schema, i), InfoAt(pluginId, schema, i);
      m.grpcPath == d.grpcPath && m.grpcService == d.serviceFull && m.grpcFile == d.fileName &&
      m.inputMessage == d.inputFull && m.outputMessage == d.outputFull && m.symbols == d.symbols &&
      m.grpcName == PascalCase(m.schemaName)
  {
    hide PascalCase, MethodFile, MethodAt, Synthesizable, Declaration;
  }

  lemma EntryDeclares(pluginId: string, schema: PluginSchema, i: nat)
    requires AllSynthesizable(schema) && i < |schema.methods|
    ensures
      var m, method_ := MethodManifestAt(pluginId, schema, i), MethodAt(schema, i);
      (m.schemaName == method_.name <==>
       (method_.name in schema.methods ==> schema.methods[method_.name].name == method_.name)) &&
      (FindsItself(schema, i) ==>
         m.schemaName == method_.name && m.subid == method_.subid && m.sideEffect == method_.sideEffect &&
         m.requiredCapability == method_.requiredCapability && m.idempotent == method_.idempotent)
  {
    AtIsMethod(schema, i);
    InfoHasDeclaration(pluginId, schema, i);
    hide PascalCase, MethodFile, MethodAt, Synthesizable;
    NameOfInfo(pluginId, schema, i);
  }

  /** An entry of the manifest names what its method's own bytes name, and carries that
      method's name exactly when the method of that key, if there is one, has it as its name
      too; the rest of the declaration, where it is found again by name. */
  lemma ManifestEntryReads(pluginId: string, schema: PluginSchema, i: nat)
    requires AllSynthesizable(schema) && i < |schema.methods| && |InfoAt(pluginId, schema, i).file| < U64
    ensures
      var m, method_ := MethodManifestAt(pluginId, schema, i), MethodAt(schema, i);
      var file := ReadFile(InfoAt(pluginId, schema, i).file);
      file.Some? && IsMethodFile(file.value) &&
      NamesOf(file.value, m.grpcPath, m.grpcService, m.grpcFile, m.inputMessage, m.outputMessage) &&
      m.symbols == InfoAt(pluginId, schema, i).symbols &&
      (m.schemaName == method_.name <==>
       (method_.name in schema.methods ==> schema.methods[method_.name].name == method_.name)) &&
      (FindsItself(schema, i) ==>
         m.schemaName == method_.name && file.value.services[0].methods[0].name == Some(m.grpcName) &&
         m.subid == method_.subid && m.sideEffect == method_.sideEffect &&
         m.requiredCapability == method_.requiredCapability && m.idempotent == method_.idempotent)
  {
    hide PascalCase, ReadFile, IsMethodFile, NamesOf, MethodFile, MethodAt, Synthesizable, MethodManifestAt,
         FindsItself;
    EntryCopies(pluginId, schema, i);
    EntryDeclares(pluginId, schema, i);
    NameOfInfo(pluginId, schema, i);
    MethodNamesRead(pluginId, MethodAt(schema, i));
  }

  lemma NameOfInfo(pluginId: string, schema: PluginSchema, i: nat)
    requires AllSynthesizable(schema) && i < |schema.methods|
    ensures Synthesizable(MethodAt(schema, i)) && InfoAt(pluginId, schema, i).methodName == MethodAt(schema, i).name
  {
    AtIsMethod(schema, i);
    hide Synthesizable, PascalCase;
  }

  // ---------------------------------------------------------------- the whole manifest

  predicate ByName(ms: seq<MethodManifest>) {
    forall i, j | 0 <= i < j < |ms| :: Le(ms[i].schemaName, ms[j].schemaName)
  }

  lemma ByNameCons(m: MethodManifest, rest: seq<MethodManifest>)
    requires ByName(rest) && forall x | x in multiset(rest) :: Le(m.schemaName, x.schemaName)
    ensures ByName([m] + rest)
  {
    hide Le;
    forall j | 0 <= j < |rest| ensures Le(m.schemaName, rest[j].schemaName) { assert rest[j] in multiset(rest); }
  }

  lemma FirstIsLeast(sorted: seq<MethodManifest>, x: MethodManifest)
    requires ByName(sorted) && sorted != [] && x in multiset(sorted)
    ensures Le(sorted[0].schemaName, x.schemaName)
  {
    hide Le;
    LeTotal(x.schemaName, x.schemaName);
    var i :| 0 <= i < |sorted| && sorted[i] == x;
  }

  lemma {:induction false} InsertedInOrder(m: MethodManifest, sorted: seq<MethodManifest>)
    requires ByName(sorted)
    ensures ByName(InsertByName(m, sorted))
  {
    hide Le;
    if sorted != [] {
      var head, rest := sorted[0], sorted[1..];
      assert sorted == [head] + rest;
      LeTotal(m.schemaName, head.schemaName);
      if Le(m.schemaName, head.schemaName) {
        forall x | x in multiset(sorted) ensures Le(m.schemaName, x.schemaName) {
          FirstIsLeast(sorted, x);
          LeTransitive(m.schemaName, head.schemaName, x.schemaName);
        }
        ByNameCons(m, sorted);
      } else {
        assert ByName(rest);
        InsertedInOrder(m, rest);
        forall x | x in multiset(InsertByName(m, rest)) ensures Le(head.schemaName, x.schemaName) {
          if x != m { FirstIsLeast(sorted, x); }
        }
        ByNameCons(head, InsertByName(m, rest));
      }
    }
  }

  lemma {:induction false} SortedByName(ms: seq<MethodManifest>)
    ensures ByName(SortByName(ms))
  {
    hide Le, InsertByName;
    if ms != [] {
      SortedByName(ms[1..]);
      hide ByName;
      InsertedInOrder(ms[0], SortByName(ms[1..]));
    }
  }

  lemma ManifestIsSorted(pluginId: string, schema: PluginSchema)
    requires AllSynthesizable(schema)
    ensures ByName(Manifests(pluginId, schema))
  {
    hide ByName, SortByName, MethodManifestAt;
    SortedByName(seq(|schema.methods|, i requires 0 <= i < |schema.methods| => MethodManifestAt(pluginId, schema, i)));
  }

  /** The manifest of a blob: the methods by name, and all services and files they name, each
      list sorted. */
  lemma ManifestReads(schema: PluginSchema, schemaJson: string, metaJson: string, identity: Option<BlobIdentity>)
    requires AllSynthesizable(schema)
    ensures
      var m := BlobifyCanonical(schema, schemaJson, metaJson, identity).manifest;
      (var lower := LOWERCASE(schema.name);
       |m.pluginId| == |lower| &&
       forall i | 0 <= i < |lower| :: m.pluginId[i] == if lower[i] == '-' then '_' else lower[i]) &&
      m.blobType == "active_reflection" && m.schemaVersion == schema.version && m.identity == identity &&
      m.dbus.busName == "org.opdbus.v1.plugins" && m.dbus.interfaceName == "org.opdbus.v1.PluginV1" &&
      m.dbus.objectPath == "/org/opdbus/v1/plugins/" + m.pluginId &&
      m.schemaHash == Hex(SHA256(Utf8(schemaJson))) &&
      ByName(m.methods) && Sorted(m.grpc.services) && Sorted(m.grpc.files) &&
      (forall s :: s in m.grpc.services <==> exists i :: 0 <= i < |m.methods| && m.methods[i].grpcService == s) &&
      forall f :: f in m.grpc.files <==> exists i :: 0 <= i < |m.methods| && m.methods[i].grpcFile == f
  {
    hide ByName, Manifests, Services, Files, Sorted, Sort, DescriptorSet, Hex, HyphensToUnderscores, AllSynthesizable;
    var methods := BlobifyCanonical(schema, schemaJson, metaJson, identity).manifest.methods;
    HyphensReplaced(LOWERCASE(schema.name));
    ManifestIsSorted(CanonicalPluginId(schema.name), schema);
    SortSorts(multiset(Services(methods)));
    SortSorts(multiset(Files(methods)));
    InSorted(Services(methods));
    InSorted(Files(methods));
  }

  lemma {:induction false} HyphensReplaced(s: string)
    ensures
      var r := HyphensToUnderscores(s);
      |r| == |s| && forall i | 0 <= i < |s| :: r[i] == if s[i] == '-' then '_' else s[i]
  {
    if s != "" { HyphensReplaced(s[1..]); }
  }

  lemma InSorted(names: seq<string>)
    ensures forall s :: s in Sort(multiset(names)) <==> exists i :: 0 <= i < |names| && names[i] == s
  {
    hide Sort;
    forall s ensures s in Sort(multiset(names)) <==> s in names {
      assert s in multiset(Sort(multiset(names))) <==> s in multiset(names);
    }
  }
}
