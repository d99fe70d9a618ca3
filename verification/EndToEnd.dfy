/** All layers at once: what the catalog serves after any run of operations is what was
    synthesized from the schema last published under that plugin id. */
module EndToEnd {
  import opened Text
  import opened Schema
  import opened Descriptor
  import opened Blob
  import opened Blobify
  import opened ReflectionIndex
  import opened Summaries
  import opened CatalogState
  import opened ZeroCopy
  import opened Serving

  /** The blob a plugin id stands for after some operations: the last one published under
      it, unless it was removed or not retained since. Reopening changes nothing. */
  function Latest(ops: seq<Op>, id: string): Option<PluginObjectBlob> {
    if ops == [] then None else After(ops[|ops| - 1], id, Latest(ops[..|ops| - 1], id))
  }

  function After(op: Op, id: string, before: Option<PluginObjectBlob>): Option<PluginObjectBlob> {
    match op
    case UpsertOp(b) => if b.manifest.pluginId == id then Some(b) else before
    case RemoveOp(gone) => if gone == id then None else before
    case RetainOp(keep) => if id in keep then before else None
    case ReopenOp => before
  }

  /** The entry is that of the sealed image of `b`. */
  ghost predicate IsEntryFor(e: Entry, b: PluginObjectBlob, json: CatalogState.Json)
  {
    |b.manifest.schemaHash| >= 16 &&
    IndexEntry(FileName(b.manifest), Seal(b, json.blobs), json.blobs) == Some(e)
  }

  /** The active entries are exactly those of the latest blobs. */
  ghost predicate Reflects(entries: Entries, ops: seq<Op>, json: CatalogState.Json) {
    forall id :: ReflectsAt(entries, ops, json, id)
  }

  lemma UpsertReflects(s: State, b: PluginObjectBlob, json: CatalogState.Json)
    requires json.Inverse() && Publishable(b, json) && FilesAt(b.descriptorSet, 0).Some?
    ensures
      var after := Upsert(s, b, json).0.entries;
      b.manifest.pluginId in after && IsEntryFor(after[b.manifest.pluginId], b, json) &&
      after == s.entries[b.manifest.pluginId := after[b.manifest.pluginId]]
  {
    hide Published, WithManifest, FileName, Seal, FilesAt, IndexEntry;
    SealedIsIndexed(FileName(b.manifest), b, json.blobs);
  }

  ghost predicate ReflectsAt(entries: Entries, ops: seq<Op>, json: CatalogState.Json, id: string) {
    match Latest(ops, id)
    case None => id !in entries
    case Some(b) => id in entries && IsEntryFor(entries[id], b, json)
  }

  lemma LatestAfter(ops: seq<Op>, op: Op, id: string)
    ensures Latest(ops + [op], id) == After(op, id, Latest(ops, id))
  {
    assert (ops + [op])[..|ops|] == ops;
  }

  lemma StepReflects(s: State, ops: seq<Op>, op: Op, s': State, json: CatalogState.Json)
    requires Agreement(s, json) && DotFree(s.entries) && json.Inverse()
    requires DotFreeOps([op], json) && Step(s, op, s', json) && Reflects(s.entries, ops, json)
    ensures Reflects(s'.entries, ops + [op], json)
  {
    hide Agreement, IsEntryFor, WithManifest, Publishable, FilesAt, Opened, Upsert, DotFree, Latest;
    match op {
      case UpsertOp(b) =>
        assert op in [op];
        UpsertReflects(s, b, json);
      case ReopenOp => ReopenRebuilds(s, s'.entries, json);
      case RemoveOp(gone) => assert s'.entries == s.entries - {gone};
      case RetainOp(keep) => assert s'.entries == s.entries - (s.entries.Keys - keep);
    }
    forall id ensures ReflectsAt(s'.entries, ops + [op], json, id) {
      LatestAfter(ops, op, id);
      assert ReflectsAt(s.entries, ops, json, id);
    }
  }

  /** After any run from an empty catalog the active plugins are exactly those published and
      not removed since, each with the entry of the blob published last. */
  lemma {:induction false} RunReflects(states: seq<State>, ops: seq<Op>, json: CatalogState.Json)
    requires Run(states, ops, json) && DotFreeOps(ops, json) && json.Inverse()
    requires states[0].entries == map[] && forall n | n in states[0].files :: !IsBlobName(n)
    ensures Reflects(states[|ops|].entries, ops, json)
    decreases |ops|
  {
    hide Step, Agreement, DotFree, IsBlobName, DotFreeOps, Reflects;
    RunAgrees(states, ops, json);
    if ops == [] {
      NothingReflects(json);
    } else {
      var n := |ops| - 1;
      RunPrefix(states, ops, json);
      DotFreeParts(ops, json);
      RunReflects(states[..n + 1], ops[..n], json);
      StepReflects(states[n], ops[..n], ops[n], states[n + 1], json);
      assert ops[..n] + [ops[n]] == ops;
    }
  }

  lemma NothingReflects(json: CatalogState.Json)
    ensures Reflects(map[], [], json)
  {
  }

  // ---------------------------------------------------------------- served bytes

  /** Every published blob is the projection of its schema, methods with one file name have
      one file, and no id contains a slash. */
  ghost predicate FromSchemas(ops: seq<Op>, schemas: map<PluginObjectBlob, PluginSchema>) {
    forall op | op in ops && op.UpsertOp? ::
      op.blob in schemas && Projects(op.blob, schemas[op.blob]) && '/' !in op.blob.manifest.pluginId &&
      Unambiguous(op.blob.manifest.pluginId, schemas[op.blob])
  }

  lemma {:induction false} LatestWasPublished(ops: seq<Op>, id: string)
    requires Latest(ops, id).Some?
    ensures UpsertOp(Latest(ops, id).value) in ops && Latest(ops, id).value.manifest.pluginId == id
  {
    var n := |ops| - 1;
    assert ops == ops[..n] + [ops[n]];
    if Latest(ops[..n], id).Some? { LatestWasPublished(ops[..n], id); }
  }

  /** The active plugins with the blobs and schemas behind them. */
  ghost function Actives(entries: Entries, ops: seq<Op>, schemas: map<PluginObjectBlob, PluginSchema>)
    : map<string, Active>
    requires FromSchemas(ops, schemas) && forall id | id in entries :: Latest(ops, id).Some?
  {
    map id | id in entries ::
      LatestWasPublished(ops, id);
      Active(entries[id], Latest(ops, id).value, schemas[Latest(ops, id).value])
  }

  lemma EntryIsActive(
    entries: Entries, ops: seq<Op>, schemas: map<PluginObjectBlob, PluginSchema>, json: CatalogState.Json, id: string)
    requires json.Inverse() && DotFreeOps(ops, json) && FromSchemas(ops, schemas) && Reflects(entries, ops, json)
    requires id in entries
    ensures Latest(ops, id).Some? && Latest(ops, id).value in schemas
    ensures IsActive(id, Active(entries[id], Latest(ops, id).value, schemas[Latest(ops, id).value]), json.blobs)
  {
    hide Projects, Unambiguous, IndexEntry, FilesAt, Seal, InBounds, FileName;
    assert ReflectsAt(entries, ops, json, id);
    LatestWasPublished(ops, id);
    var b := Latest(ops, id).value;
    IndexIsInBounds(FileName(b.manifest), Seal(b, json.blobs), json.blobs);
    EntryPath(FileName(b.manifest), Seal(b, json.blobs), json.blobs);
  }

  lemma RunIsActive(entries: Entries, ops: seq<Op>, schemas: map<PluginObjectBlob, PluginSchema>,
                    json: CatalogState.Json)
    requires json.Inverse() && DotFreeOps(ops, json) && FromSchemas(ops, schemas) && Reflects(entries, ops, json)
    ensures forall id | id in entries :: Latest(ops, id).Some?
    ensures AllActive(Actives(entries, ops, schemas), json.blobs)
  {
    hide DotFreeOps, FromSchemas, Reflects, IsActive, Latest;
    forall id | id in entries
      ensures Latest(ops, id).Some? && Latest(ops, id).value in schemas &&
              IsActive(id, Active(entries[id], Latest(ops, id).value, schemas[Latest(ops, id).value]), json.blobs)
    {
      EntryIsActive(entries, ops, schemas, json, id);
    }
  }

  lemma EntryPath(path: string, bytes: Bytes, json: ManifestJson)
    requires IndexEntry(path, bytes, json).Some?
    ensures IndexEntry(path, bytes, json).value.path == path
  {
  }

  lemma ActivesAreTheEntries(entries: Entries, ops: seq<Op>, schemas: map<PluginObjectBlob, PluginSchema>, q: string)
    requires FromSchemas(ops, schemas) && forall id | id in entries :: Latest(ops, id).Some?
    ensures q in entries <==> q in Actives(entries, ops, schemas)
    ensures q in entries ==> Latest(ops, q).Some? && Latest(ops, q).value in schemas
    ensures q in entries ==>
              Actives(entries, ops, schemas)[q] ==
              Active(entries[q], Latest(ops, q).value, schemas[Latest(ops, q).value])
  {
    hide Projects, Unambiguous;
    if q in entries { LatestWasPublished(ops, q); }
  }

  /** The entry of `id` has the file of that method, every symbol it defines leads there, and
      no other entry answers. */
  ghost predicate ServesOnly(entries: Entries, id: string, fileName: string, d: MethodDescriptor)
    requires id in entries && forall q | q in entries :: InBounds(entries[q])
  {
    FileIn(entries[id], fileName) == Some(d.file) &&
    (forall q | q in entries && q != id :: FileIn(entries[q], fileName).None?) &&
    forall s | s in d.symbols ::
      SymbolIn(entries[id], s) == Some(d.file) && forall q | q in entries && q != id :: SymbolIn(entries[q], s).None?
  }

  lemma ActivesServe(
    entries: Entries, ops: seq<Op>, schemas: map<PluginObjectBlob, PluginSchema>, json: CatalogState.Json,
    id: string, i: nat)
    requires json.Inverse() && DotFreeOps(ops, json) && FromSchemas(ops, schemas) && Reflects(entries, ops, json)
    requires id in entries && Latest(ops, id).Some? && Latest(ops, id).value in schemas
    requires AllSynthesizable(schemas[Latest(ops, id).value]) && i < |schemas[Latest(ops, id).value].methods|
    ensures forall q | q in entries :: InBounds(entries[q])
    ensures
      var schema := schemas[Latest(ops, id).value];
      ServesOnly(entries, id, ProtoFileName(id, MethodAt(schema, i)), InfoAt(id, schema, i))
  {
    hide DotFreeOps, FromSchemas, Latest, InfoAt, MethodAt, ProtoFileName, AllSynthesizable, Unambiguous, Projects,
         IndexEntry, Seal, FileIn, SymbolIn, InBounds;
    RunIsActive(entries, ops, schemas, json);
    hide Reflects;
    var catalog, schema := Actives(entries, ops, schemas), schemas[Latest(ops, id).value];
    forall q | q in entries || q in catalog
      ensures q in entries && q in catalog && catalog[q].entry == entries[q] && InBounds(entries[q])
    {
      ActivesAreTheEntries(entries, ops, schemas, q);
      assert IsActive(q, catalog[q], json.blobs);
    }
    ActivesAreTheEntries(entries, ops, schemas, id);
    hide Actives;
    OnlyOwnerServesFile(catalog, json.blobs, id, i);
    forall s | s in InfoAt(id, schema, i).symbols
      ensures SymbolIn(entries[id], s) == Some(InfoAt(id, schema, i).file)
      ensures forall q | q in entries && q != id :: SymbolIn(entries[q], s).None?
    {
      assert IsActive(id, catalog[id], json.blobs);
      OnlyOwnerServesSymbol(catalog, json.blobs, id, i, s);
      forall q | q in entries && q != id ensures SymbolIn(entries[q], s).None? {
        assert q in catalog && SymbolIn(catalog[q].entry, s).None?;
      }
    }
  }

  /** After any run of publications, removals, retentions and reopenings: the catalog serves,
      for every method of the schema last published under an active id, the bytes synthesized
      for that method, under its file name and under each symbol it defines; and no other
      plugin answers for them. */
  lemma RunServesLatest(
    states: seq<State>, ops: seq<Op>, schemas: map<PluginObjectBlob, PluginSchema>, json: CatalogState.Json,
    id: string, i: nat)
    requires Run(states, ops, json) && DotFreeOps(ops, json) && FromSchemas(ops, schemas) && json.Inverse()
    requires states[0].entries == map[] && forall n | n in states[0].files :: !IsBlobName(n)
    requires Latest(ops, id).Some? && Latest(ops, id).value in schemas
    requires AllSynthesizable(schemas[Latest(ops, id).value]) && i < |schemas[Latest(ops, id).value].methods|
    ensures id in states[|ops|].entries && forall q | q in states[|ops|].entries :: InBounds(states[|ops|].entries[q])
    ensures
      var schema := schemas[Latest(ops, id).value];
      ServesOnly(states[|ops|].entries, id, ProtoFileName(id, MethodAt(schema, i)), InfoAt(id, schema, i))
  {
    hide Step, DotFreeOps, FromSchemas, IsBlobName, Latest, InfoAt, MethodAt, ProtoFileName, AllSynthesizable, InBounds,
         ServesOnly, IsEntryFor;
    RunReflects(states, ops, json);
    assert ReflectsAt(states[|ops|].entries, ops, json, id);
    ActivesServe(states[|ops|].entries, ops, schemas, json, id, i);
  }

  /** The simplest case: one publication into an empty directory. Its conditions are about
      the published schema alone, and they are all that the theorem above asks of it. */
  lemma FirstPublicationServes(b: PluginObjectBlob, schema: PluginSchema, json: CatalogState.Json, i: nat)
    requires json.Inverse() && Publishable(b, json) && Projects(b, schema)
    requires '.' !in b.manifest.pluginId && '/' !in b.manifest.pluginId && Unambiguous(b.manifest.pluginId, schema)
    requires i < |schema.methods|
    ensures
      var id, entries := b.manifest.pluginId, Upsert(State(map[], map[]), b, json).0.entries;
      id in entries && (forall q | q in entries :: InBounds(entries[q])) &&
      ServesOnly(entries, id, ProtoFileName(id, MethodAt(schema, i)), InfoAt(id, schema, i))
  {
    hide Upsert, Projects, Unambiguous, Publishable, InfoAt, MethodAt, ProtoFileName, InBounds, ServesOnly, IsBlobName,
         Run, DotFreeOps, FromSchemas, Latest, Reflects, AllSynthesizable;
    SetDecodesOf(b, schema, json);
    FirstRun(b, json);
    FirstOps(b, schema, json);
    RunServesLatest(FirstStates(b, json), [UpsertOp(b)], map[b := schema], json, b.manifest.pluginId, i);
  }

  function FirstStates(b: PluginObjectBlob, json: CatalogState.Json): seq<State>
    requires |b.manifest.schemaHash| >= 16
  {
    [State(map[], map[]), Upsert(State(map[], map[]), b, json).0]
  }

  lemma FirstRun(b: PluginObjectBlob, json: CatalogState.Json)
    requires |b.manifest.schemaHash| >= 16
    ensures Run(FirstStates(b, json), [UpsertOp(b)], json)
  {
    hide Upsert;
  }

  lemma FirstOps(b: PluginObjectBlob, schema: PluginSchema, json: CatalogState.Json)
    requires Publishable(b, json) && Projects(b, schema) && FilesAt(b.descriptorSet, 0).Some?
    requires '.' !in b.manifest.pluginId && '/' !in b.manifest.pluginId && Unambiguous(b.manifest.pluginId, schema)
    ensures DotFreeOps([UpsertOp(b)], json) && FromSchemas([UpsertOp(b)], map[b := schema])
    ensures Latest([UpsertOp(b)], b.manifest.pluginId) == Some(b)
  {
    hide Projects, Unambiguous, FilesAt, Publishable;
  }

  lemma SetDecodesOf(b: PluginObjectBlob, schema: PluginSchema, json: CatalogState.Json)
    requires json.Inverse() && Publishable(b, json) && Projects(b, schema)
    ensures AllSynthesizable(schema) && FilesAt(b.descriptorSet, 0).Some? && |b.manifest.schemaHash| >= 16
  {
    hide IndexEntry, FilesAt, Seal, BlobifyCanonical, AllSynthesizable, InBounds;
    ProjectionIsIndexed("", b, schema, json.blobs);
    SealedIsIndexed("", b, json.blobs);
  }
}
