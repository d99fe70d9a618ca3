/** The pipeline end to end: schema, descriptor synthesis, sealing, reopening, indexing. What
    reflection serves for a method is byte for byte what was synthesized for it. */
module ZeroCopy {
  import opened Text
  import opened Schema
  import opened Summaries
  import opened Messages
  import opened Descriptor
  import opened Blob
  import opened Blobify
  import opened ReflectionIndex

  // ---------------------------------------------------------------- names

  lemma {:induction false} SymbolsExtend(m: MessageDef, full: string, i: nat, s: string)
    requires i <= |m.nested| && s in SymbolsFrom(m, full, i)
    ensures HasPrefix(s, full + ".")
    decreases m, |m.nested| - i
  {
    var child := full + "." + m.nested[i].name;
    assert HasPrefix(child, full + ".");
    if s != child {
      if s in NestedSymbols(m.nested[i], child) {
        SymbolsExtend(m.nested[i], child, 0, s);
        assert HasPrefix(child + ".", full + ".");
        PrefixChain(s, child + ".", full + ".");
      } else {
        SymbolsExtend(m, full, i + 1, s);
      }
    }
  }

  lemma FileSymbolIsInPackage(package: string, pascal: string, input: MessageDef, output: MessageDef, s: string)
    requires s in FileSymbols(package, pascal, input, output)
    ensures HasPrefix(s, package + ".")
  {
    hide NestedSymbols;
    if s in NestedSymbols(input, package + "." + input.name) {
      NestedIsInPackage(package, input, s);
    } else if s in NestedSymbols(output, package + "." + output.name) {
      NestedIsInPackage(package, output, s);
    } else {
      assert s[..|package| + 1] == package + ".";
    }
  }

  /** Every symbol a method defines lies in that method's package. */
  lemma SymbolIsInPackage(pluginId: string, method_: MethodDecl, s: string)
    requires Synthesizable(method_) && s in MethodFile(pluginId, method_).symbols
    ensures HasPrefix(s, PackageName(pluginId, method_) + ".")
  {
    hide FileSymbols, PackageName, FileBytes, Synthesizable;
    FileSymbolIsInPackage(PackageName(pluginId, method_), PascalCase(method_.name), InputMessage(method_),
                          OutputMessage(method_), s);
  }

  lemma NestedIsInPackage(package: string, m: MessageDef, s: string)
    requires s in NestedSymbols(m, package + "." + m.name)
    ensures HasPrefix(s, package + ".")
  {
    var full := package + "." + m.name;
    SymbolsExtend(m, full, 0, s);
    assert HasPrefix(full + ".", package + ".");
    PrefixChain(s, full + ".", package + ".");
  }

  lemma SharedSymbolSharesSnake(pluginId: string, m1: MethodDecl, m2: MethodDecl, s: string)
    requires Synthesizable(m1) && Synthesizable(m2)
    requires s in MethodFile(pluginId, m1).symbols && s in MethodFile(pluginId, m2).symbols
    ensures SnakeCase(m1.name) == SnakeCase(m2.name)
  {
    SymbolIsInPackage(pluginId, m1, s);
    SymbolIsInPackage(pluginId, m2, s);
    hide MethodFile, Synthesizable;
    SnakeFromHasNoDot(m1.name, "", true);
    SnakeFromHasNoDot(m2.name, "", true);
    SeparatedHead(s, "operation.method." + pluginId + ".", SnakeCase(m1.name), SnakeCase(m2.name), '.');
  }

  lemma SameFileName(pluginId: string, m1: MethodDecl, m2: MethodDecl)
    ensures ProtoFileName(pluginId, m1) == ProtoFileName(pluginId, m2) <==> SnakeCase(m1.name) == SnakeCase(m2.name)
  {
    hide SnakeCase;
    var front := "operation/method/" + pluginId + "/";
    var f1, f2 := ProtoFileName(pluginId, m1), ProtoFileName(pluginId, m2);
    assert f1 == front + SnakeCase(m1.name) + ".proto" && f2 == front + SnakeCase(m2.name) + ".proto";
    if f1 == f2 {
      assert SnakeCase(m1.name) == f1[|front|..|f1| - 6];
      assert SnakeCase(m2.name) == f2[|front|..|f2| - 6];
    }
  }

  // ---------------------------------------------------------------- end to end

  /** `b` is what `blobify_canonical` makes of `schema`, with some JSON texts and identity. */
  ghost predicate Projects(b: PluginObjectBlob, schema: PluginSchema) {
    AllSynthesizable(schema) &&
    b == BlobifyCanonical(schema, b.schemaJson, b.metaJson, b.manifest.identity)
  }

  /** Methods whose names have one snake-case form have one descriptor file. */
  ghost predicate Unambiguous(pluginId: string, schema: PluginSchema)
    requires AllSynthesizable(schema)
  {
    forall i, j | 0 <= i < j < |schema.methods| ::
      SnakeCase(MethodAt(schema, i).name) == SnakeCase(MethodAt(schema, j).name) ==>
        InfoAt(pluginId, schema, i).file == InfoAt(pluginId, schema, j).file
  }

  lemma SetFits(b: PluginObjectBlob, json: ManifestJson)
    ensures |b.descriptorSet| <= |Seal(b, json)|
  {
    var sections := SectionsOf(b, json);
    RowFits(sections, SHA256(Utf8(b.schemaJson)), 2);
  }

  /** A blob made from a schema always indexes. */
  lemma ProjectionIsIndexed(path: string, b: PluginObjectBlob, schema: PluginSchema, json: ManifestJson)
    requires Projects(b, schema) && json.Inverse() && |Seal(b, json)| < U64
    ensures IndexEntry(path, Seal(b, json), json).Some? && InBounds(IndexEntry(path, Seal(b, json), json).value)
  {
    hide Seal, AllSynthesizable, IndexEntry, FilesAt, DescriptorSet;
    SetFits(b, json);
    DescriptorSetReadsBack(b.manifest.pluginId, schema);
    SealedIsIndexed(path, b, json);
    IndexIsInBounds(path, Seal(b, json), json);
  }

  /** Any file a sealed image's entry records is a range of its descriptor set. */
  lemma RecordedRange(path: string, b: PluginObjectBlob, json: ManifestJson, f: string) returns (k: nat)
    requires json.Inverse() && |Seal(b, json)| < U64
    requires var r := IndexEntry(path, Seal(b, json), json); r.Some? && InBounds(r.value) && f in r.value.files
    ensures FilesAt(b.descriptorSet, 0).Some?
    ensures
      var fs := FilesAt(b.descriptorSet, 0).value;
      k < |fs| && fs[k].names.name == f && fs[k].lo <= fs[k].hi <= |b.descriptorSet| &&
      FileIn(IndexEntry(path, Seal(b, json), json).value, f) == Some(b.descriptorSet[fs[k].lo..fs[k].hi])
  {
    hide Seal, FilesAt, IndexEntry, FileMap, SetStart, DescriptorSetOf, SealedRef, FileIn, InBounds;
    SealedIsIndexed(path, b, json);
    var fs, start := FilesAt(b.descriptorSet, 0).value, SetStart(SealedRef(b, json));
    SlicesInOrder(b.descriptorSet, 0);
    FileMapRanges(fs, start, |fs|, f);
    k :| 0 <= k < |fs| && fs[k].names.name == f &&
      FileMap(fs, start, |fs|)[f] == (start + fs[k].lo, fs[k].hi - fs[k].lo);
    SealedRefBytes(b, json);
    RangeServed(SealedRef(b, json), IndexEntry(path, Seal(b, json), json).value, f, fs[k].lo, fs[k].hi);
  }

  lemma SealedRefBytes(b: PluginObjectBlob, json: ManifestJson)
    ensures SealedRef(b, json).bytes == Seal(b, json)
  {
    hide Seal, Placement;
  }

  /** A file recorded under a name is a method's with that file name, and its bytes are the
      ones synthesized for that method. */
  lemma RecordedFile(path: string, b: PluginObjectBlob, schema: PluginSchema, json: ManifestJson, f: string)
    returns (k: nat)
    requires Projects(b, schema) && json.Inverse() && |Seal(b, json)| < U64
    requires var r := IndexEntry(path, Seal(b, json), json); r.Some? && InBounds(r.value) && f in r.value.files
    ensures k < |schema.methods| && f == ProtoFileName(b.manifest.pluginId, MethodAt(schema, k))
    ensures FileIn(IndexEntry(path, Seal(b, json), json).value, f) == Some(InfoAt(b.manifest.pluginId, schema, k).file)
  {
    k := RecordedRange(path, b, json, f);
    SetFits(b, json);
    SetOfProjection(b, schema);
    hide Seal, AllSynthesizable, FilesAt, DescriptorSet, InfoAt, MethodAt, IndexEntry, FileIn, InBounds,
         BlobifyCanonical;
    DescriptorSetReadsBack(b.manifest.pluginId, schema);
  }

  lemma SetOfProjection(b: PluginObjectBlob, schema: PluginSchema)
    requires Projects(b, schema)
    ensures b.descriptorSet == DescriptorSet(b.manifest.pluginId, schema)
    ensures b.manifest.methods == Manifests(b.manifest.pluginId, schema)
    ensures |b.manifest.schemaHash| == 64
    ensures multiset(b.manifest.grpc.services) == multiset(Services(b.manifest.methods))
  {
    hide DescriptorSet, Manifests;
  }

  lemma RangeServed(r: BlobRef, e: Entry, f: string, lo: nat, hi: nat)
    requires lo <= hi <= |DescriptorSetOf(r)| && e.bytes == r.bytes && InBounds(e)
    requires f in e.files && e.files[f] == (SetStart(r) + lo, hi - lo)
    ensures FileIn(e, f) == Some(DescriptorSetOf(r)[lo..hi])
  {
    hide DescriptorSetOf, SetStart;
    var set_, s := DescriptorSetOf(r), SetStart(r);
    if set_ != [] {
      SetIsInImage(r);
      SliceOfSlice(r.bytes, s, |set_|, lo, hi);
    } else {
      assert r.bytes[s..s] == set_[0..0];
    }
  }

  lemma FileIsRecorded(path: string, b: PluginObjectBlob, schema: PluginSchema, json: ManifestJson, i: nat)
    requires Projects(b, schema) && json.Inverse() && |Seal(b, json)| < U64 && i < |schema.methods|
    requires IndexEntry(path, Seal(b, json), json).Some?
    ensures ProtoFileName(b.manifest.pluginId, MethodAt(schema, i)) in IndexEntry(path, Seal(b, json), json).value.files
  {
    SetFits(b, json);
    SetOfProjection(b, schema);
    hide Seal, AllSynthesizable, FilesAt, DescriptorSet, InfoAt, MethodAt, IndexEntry, SetStart, SealedRef,
         BlobifyCanonical;
    DescriptorSetReadsBack(b.manifest.pluginId, schema);
    SealedIsIndexed(path, b, json);
    var fs := FilesAt(b.descriptorSet, 0).value;
    FileMapDomain(fs, SetStart(SealedRef(b, json)), |fs|, i);
  }

  /** `file_by_filename` after sealing and indexing: every method's name serves exactly the
      bytes synthesized for it, if and only if methods sharing a snake-case form have one and
      the same descriptor; and no other file is served. */
  lemma FilesAreServed(path: string, b: PluginObjectBlob, schema: PluginSchema, json: ManifestJson)
    requires Projects(b, schema) && json.Inverse() && |Seal(b, json)| < U64
    requires var r := IndexEntry(path, Seal(b, json), json); r.Some? && InBounds(r.value)
    ensures
      var e, id := IndexEntry(path, Seal(b, json), json).value, b.manifest.pluginId;
      Unambiguous(id, schema) <==>
      forall i | 0 <= i < |schema.methods| ::
        FileIn(e, ProtoFileName(id, MethodAt(schema, i))) == Some(InfoAt(id, schema, i).file)
    ensures
      var e := IndexEntry(path, Seal(b, json), json).value;
      forall f | f in e.files ::
        exists i :: 0 <= i < |schema.methods| && f == ProtoFileName(b.manifest.pluginId, MethodAt(schema, i))
  {
    hide Seal, AllSynthesizable, InfoAt, MethodAt, IndexEntry, FileIn, InBounds, BlobifyCanonical, ProtoFileName,
         SnakeCase;
    var e, id := IndexEntry(path, Seal(b, json), json).value, b.manifest.pluginId;
    forall i | 0 <= i < |schema.methods|
      ensures Unambiguous(id, schema) ==>
                FileIn(e, ProtoFileName(id, MethodAt(schema, i))) == Some(InfoAt(id, schema, i).file)
    {
      FileIsRecorded(path, b, schema, json, i);
      var k := RecordedFile(path, b, schema, json, ProtoFileName(id, MethodAt(schema, i)));
      SameFileName(id, MethodAt(schema, i), MethodAt(schema, k));
    }
    forall i, j | 0 <= i < j < |schema.methods|
      ensures SnakeCase(MethodAt(schema, i).name) == SnakeCase(MethodAt(schema, j).name) ==>
                ProtoFileName(id, MethodAt(schema, i)) == ProtoFileName(id, MethodAt(schema, j))
    {
      SameFileName(id, MethodAt(schema, i), MethodAt(schema, j));
    }
    forall f | f in e.files
      ensures exists i :: 0 <= i < |schema.methods| && f == ProtoFileName(id, MethodAt(schema, i))
    {
      var k := RecordedFile(path, b, schema, json, f);
    }
  }

  lemma ManifestAtHasInfo(pluginId: string, schema: PluginSchema, i: nat)
    requires AllSynthesizable(schema) && i < |schema.methods|
    ensures
      var m, d := MethodManifestAt(pluginId, schema, i), InfoAt(pluginId, schema, i);
      m.symbols == d.symbols && m.grpcFile == d.fileName && m.grpcService == d.serviceFull
    ensures InfoAt(pluginId, schema, i).fileName == ProtoFileName(pluginId, MethodAt(schema, i))
    ensures InfoAt(pluginId, schema, i).serviceFull in InfoAt(pluginId, schema, i).symbols
  {
    hide AllSynthesizable, Declaration;
    MethodIsSynthesizable(schema, i);
    InfoHasDeclaration(pluginId, schema, i);
    assert FileSymbols(PackageName(pluginId, MethodAt(schema, i)), PascalCase(MethodAt(schema, i).name),
                       InputMessage(MethodAt(schema, i)), OutputMessage(MethodAt(schema, i)))[0]
           == InfoAt(pluginId, schema, i).serviceFull;
  }

  /** The method a manifest entry was made from. */
  lemma ManifestOwner(b: PluginObjectBlob, schema: PluginSchema, m: MethodManifest) returns (k: nat)
    requires Projects(b, schema) && m in b.manifest.methods
    ensures k < |schema.methods| && m.symbols == InfoAt(b.manifest.pluginId, schema, k).symbols
    ensures m.grpcFile == ProtoFileName(b.manifest.pluginId, MethodAt(schema, k))
    ensures m.grpcService == InfoAt(b.manifest.pluginId, schema, k).serviceFull && m.grpcService in m.symbols
  {
    SetOfProjection(b, schema);
    hide AllSynthesizable, InfoAt, MethodAt, BlobifyCanonical, ProtoFileName, Manifests, MethodManifestAt;
    ManifestCoversMethods(b.manifest.pluginId, schema, m);
    k :| 0 <= k < |schema.methods| && m == MethodManifestAt(b.manifest.pluginId, schema, k);
    ManifestAtHasInfo(b.manifest.pluginId, schema, k);
  }

  /** A symbol recorded by the entry belongs to a method, and is kept with that method's
      file name. */
  lemma RecordedSymbolOwner(path: string, b: PluginObjectBlob, schema: PluginSchema, json: ManifestJson, s: string)
    returns (k: nat)
    requires Projects(b, schema) && json.Inverse() && |Seal(b, json)| < U64
    requires var r := IndexEntry(path, Seal(b, json), json); r.Some? && s in r.value.symbols
    ensures k < |schema.methods| && s in InfoAt(b.manifest.pluginId, schema, k).symbols
    ensures IndexEntry(path, Seal(b, json), json).value.symbols[s] ==
            ProtoFileName(b.manifest.pluginId, MethodAt(schema, k))
  {
    hide Seal, Projects, AllSynthesizable, InfoAt, MethodAt, IndexEntry, ProtoFileName, SymbolMap;
    SealedIsIndexed(path, b, json);
    var ms := b.manifest.methods;
    RecordedSymbol(ms, |ms|, s);
    var j :| 0 <= j < |ms| && s in ms[j].symbols && SymbolMap(ms, |ms|)[s] == ms[j].grpcFile;
    k := ManifestOwner(b, schema, ms[j]);
  }

  lemma SymbolIsRecorded(path: string, b: PluginObjectBlob, schema: PluginSchema, json: ManifestJson, i: nat, s: string)
    requires Projects(b, schema) && json.Inverse() && |Seal(b, json)| < U64 && i < |schema.methods|
    requires IndexEntry(path, Seal(b, json), json).Some?
    requires s in InfoAt(b.manifest.pluginId, schema, i).symbols
    ensures s in IndexEntry(path, Seal(b, json), json).value.symbols
  {
    SetOfProjection(b, schema);
    hide Seal, AllSynthesizable, InfoAt, MethodAt, IndexEntry, BlobifyCanonical, ProtoFileName, Manifests,
         MethodManifestAt, SymbolMap;
    SealedIsIndexed(path, b, json);
    var id, ms := b.manifest.pluginId, b.manifest.methods;
    ManifestAtHasInfo(id, schema, i);
    ManifestCoversMethods(id, schema, MethodManifestAt(id, schema, i));
    RecordedSymbol(ms, |ms|, s);
  }

  /** `file_containing_symbol` after sealing and indexing: every symbol a method defines is
      answered with that method's own descriptor bytes. */
  lemma SymbolIsServed(
    path: string, b: PluginObjectBlob, schema: PluginSchema, json: ManifestJson, i: nat, s: string)
    requires Projects(b, schema) && json.Inverse() && |Seal(b, json)| < U64 && i < |schema.methods|
    requires Unambiguous(b.manifest.pluginId, schema)
    requires var r := IndexEntry(path, Seal(b, json), json); r.Some? && InBounds(r.value)
    requires s in InfoAt(b.manifest.pluginId, schema, i).symbols
    ensures SymbolIn(IndexEntry(path, Seal(b, json), json).value, s) ==
            Some(InfoAt(b.manifest.pluginId, schema, i).file)
  {
    var id := b.manifest.pluginId;
    SymbolIsRecorded(path, b, schema, json, i, s);
    var k := RecordedSymbolOwner(path, b, schema, json, s);
    MethodIsSynthesizable(schema, i);
    MethodIsSynthesizable(schema, k);
    SharedSymbolSharesSnake(id, MethodAt(schema, i), MethodAt(schema, k), s);
    SameFileName(id, MethodAt(schema, i), MethodAt(schema, k));
    hide Seal, AllSynthesizable, InfoAt, MethodAt, IndexEntry, FileIn, InBounds, BlobifyCanonical, ProtoFileName,
         SnakeCase;
    FilesAreServed(path, b, schema, json);
  }

  /** No phantom services: every advertised service is some method's, and looking it up
      serves that method's descriptor. */
  lemma ServicesAreServed(path: string, b: PluginObjectBlob, schema: PluginSchema, json: ManifestJson, service: string)
    returns (i: nat)
    requires Projects(b, schema) && json.Inverse() && |Seal(b, json)| < U64
    requires Unambiguous(b.manifest.pluginId, schema)
    requires var r := IndexEntry(path, Seal(b, json), json); r.Some? && InBounds(r.value)
    requires service in b.manifest.grpc.services
    ensures i < |schema.methods| && service == InfoAt(b.manifest.pluginId, schema, i).serviceFull
    ensures SymbolIn(IndexEntry(path, Seal(b, json), json).value, service) ==
            Some(InfoAt(b.manifest.pluginId, schema, i).file)
  {
    var ms := b.manifest.methods;
    ServiceIsListed(b, schema, service);
    var j :| 0 <= j < |ms| && service == ms[j].grpcService;
    hide Seal, Projects, AllSynthesizable, InfoAt, MethodAt, IndexEntry, SymbolIn, InBounds, Unambiguous, ProtoFileName;
    i := ManifestOwner(b, schema, ms[j]);
    SymbolIsServed(path, b, schema, json, i, service);
  }

  lemma ListedService(services: seq<string>, methods: seq<MethodManifest>, service: string)
    requires multiset(services) == multiset(Services(methods)) && service in services
    ensures exists j :: 0 <= j < |methods| && service == methods[j].grpcService
  {
    assert service in multiset(services);
    assert service in Services(methods);
  }

  lemma ServiceIsListed(b: PluginObjectBlob, schema: PluginSchema, service: string)
    requires Projects(b, schema) && service in b.manifest.grpc.services
    ensures exists j :: 0 <= j < |b.manifest.methods| && service == b.manifest.methods[j].grpcService
  {
    SetOfProjection(b, schema);
    ListedService(b.manifest.grpc.services, b.manifest.methods, service);
  }
}
