/** Lookups over a whole catalog: with plugin ids free of '.' and '/', no plugin's answers can
    come from another plugin's blob, whatever the order the entries are asked in. */
module Serving {
  import opened Text
  import opened Schema
  import opened Messages
  import opened Descriptor
  import opened Blob
  import opened ReflectionIndex
  import opened ZeroCopy

  /** One active plugin: its entry, the blob it was sealed from, the schema behind that. */
  datatype Active = Active(entry: Entry, blob: PluginObjectBlob, schema: PluginSchema)

  ghost predicate IsActive(id: string, a: Active, json: ManifestJson) {
    Projects(a.blob, a.schema) && |Seal(a.blob, json)| < U64 && a.blob.manifest.pluginId == id &&
    Unambiguous(id, a.schema) && '.' !in id && '/' !in id &&
    IndexEntry(a.entry.path, Seal(a.blob, json), json) == Some(a.entry) && InBounds(a.entry)
  }

  ghost predicate AllActive(catalog: map<string, Active>, json: ManifestJson) {
    forall id | id in catalog :: IsActive(id, catalog[id], json)
  }

  lemma FileNameNamesPlugin(id: string, q: string, m: MethodDecl, m': MethodDecl)
    requires '/' !in id && '/' !in q && ProtoFileName(id, m) == ProtoFileName(q, m')
    ensures id == q
  {
    hide SnakeCase;
    var s, front := ProtoFileName(id, m), "operation/method/";
    assert s[..|front| + |id| + 1] == front + id + "/";
    assert ProtoFileName(q, m')[..|front| + |q| + 1] == front + q + "/";
    SeparatedHead(s, front, id, q, '/');
  }

  /** `file_by_filename` of a method's file: that plugin has it, byte for byte, and no other
      plugin has a file of that name. */
  lemma OnlyOwnerServesFile(catalog: map<string, Active>, json: ManifestJson, id: string, i: nat)
    requires AllActive(catalog, json) && json.Inverse() && id in catalog && i < |catalog[id].schema.methods|
    ensures
      var f := ProtoFileName(id, MethodAt(catalog[id].schema, i));
      FileIn(catalog[id].entry, f) == Some(InfoAt(id, catalog[id].schema, i).file) &&
      forall q | q in catalog && q != id :: FileIn(catalog[q].entry, f).None?
  {
    hide Projects, AllSynthesizable, Unambiguous, InfoAt, MethodAt, Seal, IndexEntry, ProtoFileName;
    var a := catalog[id];
    FilesAreServed(a.entry.path, a.blob, a.schema, json);
    var f := ProtoFileName(id, MethodAt(a.schema, i));
    forall q | q in catalog && q != id ensures FileIn(catalog[q].entry, f).None? {
      if f in catalog[q].entry.files {
        var k := RecordedFile(catalog[q].entry.path, catalog[q].blob, catalog[q].schema, json, f);
        FileNameNamesPlugin(id, q, MethodAt(a.schema, i), MethodAt(catalog[q].schema, k));
      }
    }
  }

  lemma SymbolStartsWithPlugin(id: string, m: MethodDecl, s: string)
    requires Synthesizable(m) && s in MethodFile(id, m).symbols
    ensures HasPrefix(s, "operation.method." + id + ".")
  {
    hide MethodFile, Synthesizable, PackageName;
    SymbolIsInPackage(id, m, s);
    PackageStartsWithPlugin(id, m);
    PrefixChain(s, PackageName(id, m) + ".", "operation.method." + id + ".");
  }

  lemma PackageStartsWithPlugin(id: string, m: MethodDecl)
    ensures HasPrefix(PackageName(id, m) + ".", "operation.method." + id + ".")
  {
    hide SnakeCase;
    var front := "operation.method." + id + ".";
    assert PackageName(id, m) + "." == front + (SnakeCase(m.name) + ".");
  }

  lemma SymbolNamesPlugin(id: string, q: string, m: MethodDecl, m': MethodDecl, s: string)
    requires '.' !in id && '.' !in q && Synthesizable(m) && Synthesizable(m')
    requires s in MethodFile(id, m).symbols && s in MethodFile(q, m').symbols
    ensures id == q
  {
    hide MethodFile, Synthesizable;
    SymbolStartsWithPlugin(id, m, s);
    SymbolStartsWithPlugin(q, m', s);
    SeparatedHead(s, "operation.method.", id, q, '.');
  }

  /** `symbol_by_name` of a symbol a method defines. */
  lemma OnlyOwnerServesSymbol(catalog: map<string, Active>, json: ManifestJson, id: string, i: nat, s: string)
    requires AllActive(catalog, json) && json.Inverse() && id in catalog && i < |catalog[id].schema.methods|
    requires Projects(catalog[id].blob, catalog[id].schema) && s in InfoAt(id, catalog[id].schema, i).symbols
    ensures SymbolIn(catalog[id].entry, s) == Some(InfoAt(id, catalog[id].schema, i).file)
    ensures forall q | q in catalog && q != id :: SymbolIn(catalog[q].entry, s).None?
  {
    hide AllSynthesizable, Unambiguous, MethodAt, Seal, IndexEntry, ProtoFileName, MethodFile;
    var a := catalog[id];
    SymbolIsServed(a.entry.path, a.blob, a.schema, json, i, s);
    MethodIsSynthesizable(a.schema, i);
    forall q | q in catalog && q != id ensures SymbolIn(catalog[q].entry, s).None? {
      if s in catalog[q].entry.symbols {
        var k := RecordedSymbolOwner(catalog[q].entry.path, catalog[q].blob, catalog[q].schema, json, s);
        MethodIsSynthesizable(catalog[q].schema, k);
        SymbolNamesPlugin(id, q, MethodAt(a.schema, i), MethodAt(catalog[q].schema, k), s);
      }
    }
  }
}
