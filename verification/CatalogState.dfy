/** The catalog as a state machine over (directory, active entries): publishing, removing,
    retaining and reopening, and the agreement between memory and disk every run keeps. */
module CatalogState {
  import opened Text
  import opened Summaries
  import opened Blob
  import opened ReflectionIndex
  import opened CatalogIdentity

  /** A directory: file name to content. */
  type FileMap = map<string, Bytes>
  type Entries = map<string, Entry>
  datatype State = State(files: FileMap, entries: Entries)

  const MANIFEST := ".manifest.json"
  const MANIFEST_TMP := ".manifest.json.tmp"

  datatype CatalogManifest = CatalogManifest(
    catalogHash: string, previousCatalogHash: string, generation: nat, plugins: map<string, string>)

  /** JSON text of catalog manifests. `generationOf` and `hashOf` read one member of any
      text, `parse` the whole of a well-formed one. */
  datatype Json = Json(
    blobs: ManifestJson,
    print_: CatalogManifest -> Bytes,
    parse: Bytes -> Option<CatalogManifest>,
    generationOf: Bytes -> Option<nat>,
    hashOf: Bytes -> Option<string>)
  {
    ghost predicate Inverse() {
      blobs.Inverse() &&
      forall m: CatalogManifest | m.generation < U64 ::
        parse(print_(m)) == Some(m) && generationOf(print_(m)) == Some(m.generation) &&
        hashOf(print_(m)) == Some(m.catalogHash)
    }
  }

  // ---------------------------------------------------------------- file names

  /** `path.extension() == Some("blob")`. */
  predicate IsBlobName(n: string) { |n| > 5 && HasSuffix(n, ".blob") }

  /** A file that publishing `path` for plugin `id` deletes. */
  predicate IsStale(n: string, id: string, path: string) {
    n != path && HasPrefix(n, id + ".") && HasSuffix(n, ".blob")
  }

  /** A blob can be published: its hash has the sixteen characters a file name needs and its
      image fits the format's 64-bit offsets. */
  predicate Publishable(b: PluginObjectBlob, json: Json) {
    |b.manifest.schemaHash| >= 16 && |Seal(b, json.blobs)| < U64
  }

  lemma BlobNameShape(m: BlobManifest)
    requires |m.schemaHash| >= 16
    ensures IsBlobName(FileName(m)) && HasPrefix(FileName(m), m.pluginId + ".") && |FileName(m)| == |m.pluginId| + 22
    ensures FileName(m) != MANIFEST && FileName(m) != MANIFEST_TMP && !IsBlobName(FileName(m) + ".tmp")
  {
    var f := FileName(m);
    assert f[|f| - 5..] == ".blob";
    assert f[..|m.pluginId| + 1] == m.pluginId + ".";
    assert f[|f| - 1] == 'b' && MANIFEST[|MANIFEST| - 1] == 'n' && MANIFEST_TMP[|MANIFEST_TMP| - 1] == 'p';
    var t := f + ".tmp";
    assert t[|t| - 5..][4] == 'p' && ".blob"[4] == 'b';
  }

  /** Different plugins never share a file name. */
  lemma BlobNamesDiffer(m: BlobManifest, m': BlobManifest)
    requires |m.schemaHash| >= 16 && |m'.schemaHash| >= 16 && FileName(m) == FileName(m')
    ensures m.pluginId == m'.pluginId
  {
    BlobNameShape(m);
    BlobNameShape(m');
    assert FileName(m)[..|m.pluginId|] == m.pluginId && FileName(m')[..|m'.pluginId|] == m'.pluginId;
  }

  // ---------------------------------------------------------------- operations

  /** The directory after `write_to_dir` and the removal of superseded versions. */
  function Published(files: FileMap, b: PluginObjectBlob, json: Json): FileMap
    requires |b.manifest.schemaHash| >= 16
  {
    var path := FileName(b.manifest);
    var renamed := (files - {path + ".tmp"})[path := Seal(b, json.blobs)];
    map n | n in renamed && !IsStale(n, b.manifest.pluginId, path) :: renamed[n]
  }

  function PluginHashes(entries: Entries): map<string, string> {
    map id | id in entries :: entries[id].manifest.schemaHash
  }

  function NextManifest(files: FileMap, entries: Entries, json: Json): CatalogManifest {
    var plugins := PluginHashes(entries);
    var old_ := if MANIFEST in files then Some(files[MANIFEST]) else None;
    var generation := match old_ case Some(text) => json.generationOf(text).GetOr(0) case None => 0;
    var previous := match old_ case Some(text) => json.hashOf(text).GetOr("") case None => "";
    CatalogManifest(CatalogHash(plugins), previous, (generation + 1) % U64, plugins)
  }

  /** `write_manifest`: temporary file, then rename. */
  function WithManifest(files: FileMap, entries: Entries, json: Json): FileMap {
    (files - {MANIFEST_TMP})[MANIFEST := json.print_(NextManifest(files, entries, json))]
  }

  /** `upsert_blob`, and whether it succeeded: an image that cannot be indexed is an error,
      raised after the directory has been changed. */
  function Upsert(s: State, b: PluginObjectBlob, json: Json): (State, bool)
    requires |b.manifest.schemaHash| >= 16
  {
    var files := Published(s.files, b, json);
    match IndexEntry(FileName(b.manifest), Seal(b, json.blobs), json.blobs)
    case None => (State(files, s.entries), false)
    case Some(e) =>
      var entries := s.entries[b.manifest.pluginId := e];
      (State(WithManifest(files, entries, json), entries), true)
  }

  function PathsOf(entries: Entries, ids: set<string>): set<string> {
    set id | id in ids && id in entries :: entries[id].path
  }

  /** Both removals: entries out, files out, manifest last. */
  function Drop(s: State, ids: set<string>, json: Json): State {
    var files, entries := s.files - PathsOf(s.entries, ids), s.entries - ids;
    State(WithManifest(files, entries, json), entries)
  }

  /** `remove_blob`. */
  function Remove(s: State, id: string, json: Json): State {
    if id in s.entries then Drop(s, {id}, json) else s
  }

  /** `retain_plugins`. */
  function Retain(s: State, keep: set<string>, json: Json): State {
    var stale := s.entries.Keys - keep;
    if stale == {} then s else Drop(s, stale, json)
  }

  /** Some `*.blob` file of the directory loads as the entry `e` of plugin `id`. */
  ghost predicate LoadedFrom(files: FileMap, id: string, e: Entry, json: Json) {
    exists n ::
      n in files && IsBlobName(n) && IndexEntry(n, files[n], json.blobs) == Some(e) && e.manifest.pluginId == id
  }

  /** What `open` can make of a directory: an entry for every plugin some loadable `*.blob`
      file names, taken from one such file. */
  ghost predicate Opened(files: FileMap, entries: Entries, json: Json) {
    (forall id | id in entries :: LoadedFrom(files, id, entries[id], json)) &&
    forall n | n in files && IsBlobName(n) && IndexEntry(n, files[n], json.blobs).Some? ::
      IndexEntry(n, files[n], json.blobs).value.manifest.pluginId in entries
  }

  // ---------------------------------------------------------------- agreement

  predicate IsEntryOf(files: FileMap, id: string, e: Entry, json: Json) {
    e.manifest.pluginId == id && |e.manifest.schemaHash| >= 16 && e.path == FileName(e.manifest) &&
    e.path in files && files[e.path] == e.bytes && IndexEntry(e.path, e.bytes, json.blobs) == Some(e)
  }

  ghost predicate Owned(entries: Entries, n: string) {
    exists id :: id in entries && entries[id].path == n
  }

  /** The `*.blob` files are exactly the active entries' files, each with its entry's bytes. */
  ghost predicate Agreement(s: State, json: Json) {
    (forall id | id in s.entries :: IsEntryOf(s.files, id, s.entries[id], json)) &&
    forall n | n in s.files && IsBlobName(n) :: Owned(s.entries, n)
  }

  /** The same, except that versions of one plugin may be left over on disk. */
  ghost predicate AgreementBut(s: State, id: string, json: Json) {
    (forall q | q in s.entries :: IsEntryOf(s.files, q, s.entries[q], json)) &&
    forall n | n in s.files && IsBlobName(n) :: Owned(s.entries, n) || HasPrefix(n, id + ".")
  }

  /** The guard that fails: publishing `id` deletes another active plugin's file. */
  ghost predicate Captures(entries: Entries, id: string) {
    exists q :: q in entries && q != id && HasPrefix(entries[q].path, id + ".")
  }

  lemma PathsDiffer(s: State, json: Json, p: string, q: string)
    requires Agreement(s, json) && p in s.entries && q in s.entries && p != q
    ensures s.entries[p].path != s.entries[q].path
  {
    hide FileName, IndexEntry;
    if s.entries[p].path == s.entries[q].path {
      BlobNamesDiffer(s.entries[p].manifest, s.entries[q].manifest);
    }
  }

  lemma ManifestIsNoBlob()
    ensures !IsBlobName(MANIFEST) && !IsBlobName(MANIFEST_TMP)
  {
    assert MANIFEST[|MANIFEST| - 5..][4] == 'n' && MANIFEST_TMP[|MANIFEST_TMP| - 5..][4] == 'p' && ".blob"[4] == 'b';
  }

  /** The manifest files are no blobs: writing them changes nothing agreement looks at. */
  lemma ManifestIsInvisible(files: FileMap, entries: Entries, for_: Entries, json: Json)
    ensures Agreement(State(files, entries), json) <==> Agreement(State(WithManifest(files, for_, json), entries), json)
  {
    hide FileName, IndexEntry, NextManifest;
    var more := WithManifest(files, for_, json);
    ManifestIsNoBlob();
    forall id | id in entries
      ensures IsEntryOf(files, id, entries[id], json) <==> IsEntryOf(more, id, entries[id], json)
    {
      if |entries[id].manifest.schemaHash| >= 16 { BlobNameShape(entries[id].manifest); }
    }
    assert forall n | IsBlobName(n) :: n in files <==> n in more;
  }

  /** After publishing, the plugin's one visible file holds the new image; every other blob
      file that was no version of this plugin is as it was. */
  lemma PublishedFiles(files: FileMap, b: PluginObjectBlob, json: Json, n: string)
    requires |b.manifest.schemaHash| >= 16
    ensures
      var path, after := FileName(b.manifest), Published(files, b, json);
      path in after && after[path] == Seal(b, json.blobs) &&
      (n != path && IsBlobName(n) ==>
         (n in after <==> n in files && !IsStale(n, b.manifest.pluginId, path)) &&
         (n in after ==> after[n] == files[n]))
  {
    BlobNameShape(b.manifest);
    hide FileName, Seal, IsStale, IsBlobName;
    assert !IsStale(FileName(b.manifest), b.manifest.pluginId, FileName(b.manifest)) by {
      NotStaleItself(b.manifest.pluginId, FileName(b.manifest));
    }
    if n == FileName(b.manifest) + ".tmp" { assert !IsBlobName(n); }
  }

  lemma NotStaleItself(id: string, path: string)
    ensures !IsStale(path, id, path)
  {
  }

  /** An entry other than the published plugin's survives unless its file is captured. */
  lemma OtherEntrySurvives(s: State, b: PluginObjectBlob, json: Json, q: string)
    requires AgreementBut(s, b.manifest.pluginId, json) && |b.manifest.schemaHash| >= 16
    requires q in s.entries && q != b.manifest.pluginId
    ensures IsEntryOf(Published(s.files, b, json), q, s.entries[q], json) <==>
            !HasPrefix(s.entries[q].path, b.manifest.pluginId + ".")
  {
    var e, path := s.entries[q], FileName(b.manifest);
    BlobNameShape(e.manifest);
    if e.path == path { BlobNamesDiffer(e.manifest, b.manifest); }
    PublishedFiles(s.files, b, json, e.path);
    hide FileName, Seal, IndexEntry, Published;
  }

  /** Whatever is still visible belongs to the published plugin or to another entry. */
  lemma VisibleIsOwned(s: State, b: PluginObjectBlob, json: Json, n: string)
    requires AgreementBut(s, b.manifest.pluginId, json) && |b.manifest.schemaHash| >= 16
    requires n in Published(s.files, b, json) && IsBlobName(n) && n != FileName(b.manifest)
    ensures exists q :: q in s.entries && q != b.manifest.pluginId && s.entries[q].path == n
  {
    PublishedFiles(s.files, b, json, n);
    hide Seal, IndexEntry, Published;
    assert Owned(s.entries, n);
    var q :| q in s.entries && s.entries[q].path == n;
    BlobNameShape(s.entries[q].manifest);
  }

  lemma FailedUpsertDisagrees(s: State, b: PluginObjectBlob, json: Json)
    requires json.Inverse() && Publishable(b, json) && FilesAt(b.descriptorSet, 0).None?
    ensures !Upsert(s, b, json).1 && !Agreement(Upsert(s, b, json).0, json)
  {
    var path := FileName(b.manifest);
    BlobNameShape(b.manifest);
    PublishedFiles(s.files, b, json, path);
    SealedIsIndexed(path, b, json.blobs);
    hide Published, FileName, Seal, IndexEntry, FilesAt, WithManifest, IsEntryOf, IsBlobName;
    var files := Published(s.files, b, json);
    forall q | q in s.entries && s.entries[q].path == path
      ensures !IsEntryOf(files, q, s.entries[q], json)
    {
      NotAnEntry(files, q, s.entries[q], json);
    }
  }

  lemma NotAnEntry(files: FileMap, q: string, e: Entry, json: Json)
    requires e.path in files && IndexEntry(e.path, files[e.path], json.blobs).None?
    ensures !IsEntryOf(files, q, e, json)
  {
  }

  /** What a successful publication leaves, before the manifest is written. */
  lemma PublishedAgrees(s: State, b: PluginObjectBlob, e: Entry, json: Json)
    requires AgreementBut(s, b.manifest.pluginId, json) && json.Inverse() && Publishable(b, json)
    requires IndexEntry(FileName(b.manifest), Seal(b, json.blobs), json.blobs) == Some(e)
    ensures Agreement(State(Published(s.files, b, json), s.entries[b.manifest.pluginId := e]), json) <==>
            !Captures(s.entries, b.manifest.pluginId)
  {
    var id, path := b.manifest.pluginId, FileName(b.manifest);
    PublishedFiles(s.files, b, json, path);
    var files, entries := Published(s.files, b, json), s.entries[id := e];
    PublishedEntry(files, b, e, json);
    hide Published, FileName, Seal, IndexEntry, IsEntryOf, IsBlobName;
    forall q | q in s.entries && q != id
      ensures IsEntryOf(files, q, entries[q], json) <==> !HasPrefix(s.entries[q].path, id + ".")
    {
      OtherEntrySurvives(s, b, json, q);
    }
    forall n | n in files && IsBlobName(n) ensures Owned(entries, n) { PublishedIsOwned(s, b, e, json, n); }
    hide HasPrefix, Owned;
    AllButOne(s.entries, id, entries, files, json);
  }

  lemma PublishedIsOwned(s: State, b: PluginObjectBlob, e: Entry, json: Json, n: string)
    requires AgreementBut(s, b.manifest.pluginId, json) && |b.manifest.schemaHash| >= 16
    requires e.path == FileName(b.manifest) && n in Published(s.files, b, json) && IsBlobName(n)
    ensures Owned(s.entries[b.manifest.pluginId := e], n)
  {
    hide Published, FileName, Seal, IndexEntry, IsEntryOf, IsBlobName, AgreementBut;
    var id := b.manifest.pluginId;
    var entries := s.entries[id := e];
    if n == e.path {
      assert entries[id].path == n;
    } else {
      VisibleIsOwned(s, b, json, n);
      var q :| q in s.entries && q != id && s.entries[q].path == n;
      assert entries[q].path == n;
    }
  }

  lemma AllButOne(before: Entries, id: string, entries: Entries, files: FileMap, json: Json)
    requires id in entries && entries == before[id := entries[id]] && IsEntryOf(files, id, entries[id], json)
    requires forall q | q in before && q != id ::
               IsEntryOf(files, q, entries[q], json) <==> !HasPrefix(before[q].path, id + ".")
    ensures (forall q | q in entries :: IsEntryOf(files, q, entries[q], json)) <==> !Captures(before, id)
  {
    hide IsEntryOf, HasPrefix;
    if q :| q in before && q != id && HasPrefix(before[q].path, id + ".") {
      assert q in entries && !IsEntryOf(files, q, entries[q], json);
    }
  }

  /** Publishing brings memory and disk into agreement exactly when the image can be indexed
      and the id captures no other active plugin's file. Leftover versions of the plugin
      beforehand, as a crash leaves them, do no harm. */
  lemma UpsertRestoresAgreement(s: State, b: PluginObjectBlob, json: Json)
    requires AgreementBut(s, b.manifest.pluginId, json) && json.Inverse() && Publishable(b, json)
    ensures Agreement(Upsert(s, b, json).0, json) <==>
            FilesAt(b.descriptorSet, 0).Some? && !Captures(s.entries, b.manifest.pluginId)
    ensures Upsert(s, b, json).1 <==> FilesAt(b.descriptorSet, 0).Some?
  {
    if FilesAt(b.descriptorSet, 0).None? {
      FailedUpsertDisagrees(s, b, json);
    } else {
      SealedIsIndexed(FileName(b.manifest), b, json.blobs);
      var e := IndexEntry(FileName(b.manifest), Seal(b, json.blobs), json.blobs).value;
      hide Published, FileName, Seal, IndexEntry, FilesAt, WithManifest, Agreement, AgreementBut, Captures;
      PublishedAgrees(s, b, e, json);
      var entries := s.entries[b.manifest.pluginId := e];
      ManifestIsInvisible(Published(s.files, b, json), entries, entries, json);
    }
  }

  /** Publishing keeps agreement exactly under these conditions. */
  lemma UpsertKeepsAgreement(s: State, b: PluginObjectBlob, json: Json)
    requires Agreement(s, json) && json.Inverse() && Publishable(b, json)
    ensures Agreement(Upsert(s, b, json).0, json) <==>
            FilesAt(b.descriptorSet, 0).Some? && !Captures(s.entries, b.manifest.pluginId)
    ensures Upsert(s, b, json).1 <==> FilesAt(b.descriptorSet, 0).Some?
  {
    hide Upsert, IsEntryOf, IsBlobName, Owned, Publishable, FilesAt, Captures;
    assert AgreementBut(s, b.manifest.pluginId, json);
    hide Agreement, AgreementBut;
    UpsertRestoresAgreement(s, b, json);
  }

  lemma EntryIsLoadable(files: FileMap, id: string, e: Entry, json: Json)
    requires IsEntryOf(files, id, e, json)
    ensures e.path in files && IndexEntry(e.path, files[e.path], json.blobs) == Some(e)
    ensures e.manifest.pluginId == id && IsBlobName(e.path)
  {
    hide FileName, IndexEntry;
    BlobNameShape(e.manifest);
  }

  lemma PublishedEntry(files: FileMap, b: PluginObjectBlob, e: Entry, json: Json)
    requires json.Inverse() && Publishable(b, json)
    requires IndexEntry(FileName(b.manifest), Seal(b, json.blobs), json.blobs) == Some(e)
    requires FileName(b.manifest) in files && files[FileName(b.manifest)] == Seal(b, json.blobs)
    ensures IsEntryOf(files, b.manifest.pluginId, e, json) && e.path == FileName(b.manifest)
  {
    SealedIsIndexed(FileName(b.manifest), b, json.blobs);
    hide FileName, Seal, IndexEntry, FilesAt;
  }

  lemma DropKeepsAgreement(s: State, ids: set<string>, json: Json)
    requires Agreement(s, json)
    ensures Agreement(Drop(s, ids, json), json)
  {
    hide FileName, IndexEntry, WithManifest, IsBlobName;
    var files, entries := s.files - PathsOf(s.entries, ids), s.entries - ids;
    forall id | id in entries ensures IsEntryOf(files, id, entries[id], json) {
      forall p | p in ids && p in s.entries ensures s.entries[p].path != entries[id].path {
        PathsDiffer(s, json, id, p);
      }
    }
    forall n | n in files && IsBlobName(n) ensures Owned(entries, n) {
      assert Owned(s.entries, n);
      var q :| q in s.entries && s.entries[q].path == n;
      assert q in entries;
    }
    ManifestIsInvisible(files, entries, entries, json);
  }

  /** Reopening the directory rebuilds the same entries, in whatever order it is read. */
  lemma ReopenRebuilds(s: State, reopened: Entries, json: Json)
    requires Agreement(s, json) && Opened(s.files, reopened, json)
    ensures reopened == s.entries
  {
    hide Agreement, Opened, LoadedFrom;
    forall id | id in s.entries ensures id in reopened { ActiveIsReopened(s, reopened, id, json); }
    forall id | id in reopened ensures id in s.entries && reopened[id] == s.entries[id] {
      OpenedIsLoaded(s.files, reopened, id, json);
      LoadedIsActive(s, id, reopened[id], json);
    }
  }

  lemma ActiveIsReopened(s: State, reopened: Entries, id: string, json: Json)
    requires Agreement(s, json) && Opened(s.files, reopened, json) && id in s.entries
    ensures id in reopened
  {
    hide FileName, IndexEntry, IsBlobName, LoadedFrom;
    EntryIsLoadable(s.files, id, s.entries[id], json);
  }

  lemma OpenedIsLoaded(files: FileMap, entries: Entries, id: string, json: Json)
    requires Opened(files, entries, json) && id in entries
    ensures LoadedFrom(files, id, entries[id], json)
  {
    hide IndexEntry, IsBlobName, LoadedFrom;
  }

  lemma LoadedIsActive(s: State, id: string, e: Entry, json: Json)
    requires Agreement(s, json) && LoadedFrom(s.files, id, e, json)
    ensures id in s.entries && s.entries[id] == e
  {
    hide FileName, IndexEntry, IsEntryOf, IsBlobName;
    var n :|
      n in s.files && IsBlobName(n) && IndexEntry(n, s.files[n], json.blobs) == Some(e) && e.manifest.pluginId == id;
    assert Owned(s.entries, n);
    var q :| q in s.entries && s.entries[q].path == n;
    EntryIsLoadable(s.files, q, s.entries[q], json);
  }

  // ---------------------------------------------------------------- runs

  datatype Op = UpsertOp(blob: PluginObjectBlob) | RemoveOp(id: string) | RetainOp(keep: set<string>) | ReopenOp

  ghost predicate Step(s: State, op: Op, s': State, json: Json) {
    match op
    case UpsertOp(b) => |b.manifest.schemaHash| >= 16 && s' == Upsert(s, b, json).0
    case RemoveOp(id) => s' == Remove(s, id, json)
    case RetainOp(keep) => s' == Retain(s, keep, json)
    case ReopenOp => s'.files == s.files && Opened(s.files, s'.entries, json)
  }

  /** A run of operations, with every intermediate state. */
  ghost predicate Run(states: seq<State>, ops: seq<Op>, json: Json) {
    |states| == |ops| + 1 && forall i | 0 <= i < |ops| :: Step(states[i], ops[i], states[i + 1], json)
  }

  /** What the operations are given: images that can be published and indexed, under plugin
      ids without a full stop; with a slash in it an id names no file of the directory. */
  ghost predicate DotFreeOps(ops: seq<Op>, json: Json) {
    forall op | op in ops && op.UpsertOp? ::
      Publishable(op.blob, json) && FilesAt(op.blob.descriptorSet, 0).Some? &&
      '.' !in op.blob.manifest.pluginId && '/' !in op.blob.manifest.pluginId
  }

  predicate DotFree(entries: Entries) { forall id | id in entries :: '.' !in id }

  lemma DotFreeNeverCaptures(s: State, id: string, json: Json)
    requires Agreement(s, json) && DotFree(s.entries) && '.' !in id
    ensures !Captures(s.entries, id)
  {
    hide FileName, IndexEntry;
    forall q | q in s.entries && q != id ensures !HasPrefix(s.entries[q].path, id + ".") {
      var path := s.entries[q].path;
      BlobNameShape(s.entries[q].manifest);
      if HasPrefix(path, id + ".") {
        assert "" + id + "." == id + "." && "" + q + "." == q + ".";
        SeparatedHead(path, "", id, q, '.');
      }
    }
  }

  lemma StepKeepsAgreement(s: State, op: Op, s': State, json: Json)
    requires Agreement(s, json) && DotFree(s.entries) && json.Inverse()
    requires DotFreeOps([op], json) && Step(s, op, s', json)
    ensures Agreement(s', json) && DotFree(s'.entries)
  {
    hide Agreement, Publishable, FilesAt, Opened, Published, Captures, IndexEntry, WithManifest, FileName;
    match op
    case UpsertOp(b) =>
      assert op in [op];
      DotFreeNeverCaptures(s, b.manifest.pluginId, json);
      UpsertKeepsAgreement(s, b, json);
    case RemoveOp(id) => DropKeepsAgreement(s, {id}, json);
    case RetainOp(keep) => DropKeepsAgreement(s, s.entries.Keys - keep, json);
    case ReopenOp =>
      ReopenRebuilds(s, s'.entries, json);
      assert s' == s;
  }

  lemma RunPrefix(states: seq<State>, ops: seq<Op>, json: Json)
    requires Run(states, ops, json) && ops != []
    ensures Run(states[..|ops|], ops[..|ops| - 1], json)
    ensures Step(states[|ops| - 1], ops[|ops| - 1], states[|ops|], json)
  {
    hide Step;
    var n := |ops| - 1;
    forall i | 0 <= i < n ensures Step(states[..n + 1][i], ops[..n][i], states[..n + 1][i + 1], json) {
      assert Step(states[i], ops[i], states[i + 1], json);
    }
  }

  lemma DotFreeParts(ops: seq<Op>, json: Json)
    requires DotFreeOps(ops, json) && ops != []
    ensures DotFreeOps(ops[..|ops| - 1], json) && DotFreeOps([ops[|ops| - 1]], json)
  {
    assert ops[|ops| - 1] in ops && forall op | op in ops[..|ops| - 1] :: op in ops;
  }

  /** In every run from a directory without blobs, the blob files and the active entries
      agree at every point. */
  lemma {:induction false} RunAgrees(states: seq<State>, ops: seq<Op>, json: Json)
    requires Run(states, ops, json) && DotFreeOps(ops, json) && json.Inverse()
    requires states[0].entries == map[] && forall n | n in states[0].files :: !IsBlobName(n)
    ensures forall i | 0 <= i < |states| :: Agreement(states[i], json) && DotFree(states[i].entries)
    decreases |ops|
  {
    if ops == [] {
      assert Agreement(states[0], json) && DotFree(states[0].entries);
    } else {
      hide Step, Agreement, DotFree, IsBlobName, FilesAt, Publishable;
      var n := |ops| - 1;
      RunPrefix(states, ops, json);
      DotFreeParts(ops, json);
      hide DotFreeOps;
      RunAgrees(states[..n + 1], ops[..n], json);
      assert states[..n + 1][n] == states[n];
      StepKeepsAgreement(states[n], ops[n], states[n + 1], json);
      forall i | 0 <= i < |states| ensures Agreement(states[i], json) && DotFree(states[i].entries) {
        if i <= n { assert states[..n + 1][i] == states[i]; }
      }
    }
  }

  /** Which plugins an id captures: those it is a dotted prefix of, and the one whose blob it
      is named after up to the hash. */
  lemma CaptureShape(m: BlobManifest, id: string)
    requires |m.schemaHash| >= 16 && '.' !in m.schemaHash[..16] && id != m.pluginId
    ensures HasPrefix(FileName(m), id + ".") <==>
            HasPrefix(m.pluginId, id + ".") || id == m.pluginId + "." + m.schemaHash[..16]
  {
    var q, h := m.pluginId, m.schemaHash[..16];
    var path := FileName(m);
    assert path == q + "." + h + ".blob";
    assert forall k | 0 <= k < |q| :: path[k] == q[k];
    assert forall k | 0 <= k < 16 :: path[|q| + 1 + k] == h[k];
    assert path[..|q|] == q && path[..|q| + 17] == q + "." + h;
    if HasPrefix(path, id + ".") {
      assert path[..|id|] == id && path[|id|] == '.';
      if |id| < |q| { assert q[..|id| + 1] == id + "."; }
      assert path[|q| + 17..] == ".blob";
      assert forall k | 0 < k < 5 :: path[|q| + 17 + k] == ".blob"[k];
    }
    if HasPrefix(q, id + ".") { assert path[..|id| + 1] == q[..|id| + 1]; }
    if id == q + "." + h { assert path[..|id| + 1] == id + "."; }
  }

  // ---------------------------------------------------------------- the manifest

  /** The manifest on disk names exactly the active plugins and their catalog hash. */
  ghost predicate ManifestCurrent(s: State, json: Json) {
    MANIFEST in s.files &&
    var m := json.parse(s.files[MANIFEST]);
    m.Some? && m.value.generation < U64 && s.files[MANIFEST] == json.print_(m.value) &&
    m.value.plugins == PluginHashes(s.entries) && m.value.catalogHash == CatalogHash(PluginHashes(s.entries))
  }

  /** An operation that reaches `write_manifest`. */
  ghost predicate Mutates(s: State, op: Op) {
    match op
    case UpsertOp(b) => true
    case RemoveOp(id) => id in s.entries
    case RetainOp(keep) => s.entries.Keys - keep != {}
    case ReopenOp => false
  }

  lemma PublishedKeepsManifest(files: FileMap, b: PluginObjectBlob, json: Json)
    requires |b.manifest.schemaHash| >= 16
    ensures SameManifest(Published(files, b, json), files)
  {
    BlobNameShape(b.manifest);
    hide FileName, Seal;
    assert !HasSuffix(MANIFEST, ".blob") by {
      assert MANIFEST[|MANIFEST| - 5..][4] == 'n' && ".blob"[4] == 'b';
    }
    var t := FileName(b.manifest) + ".tmp";
    assert t[|t| - 1] == 'p' && MANIFEST[|MANIFEST| - 1] == 'n';
  }

  /** Both directories have the same manifest file, or none. */
  predicate SameManifest(f: FileMap, g: FileMap) {
    (MANIFEST in f <==> MANIFEST in g) && (MANIFEST in f ==> f[MANIFEST] == g[MANIFEST])
  }

  lemma WrittenOver(files: FileMap, before: FileMap, entries: Entries, json: Json)
    requires SameManifest(files, before)
    ensures MANIFEST in WithManifest(files, entries, json)
    ensures WithManifest(files, entries, json)[MANIFEST] == json.print_(NextManifest(before, entries, json))
  {
  }

  lemma DropKeepsManifest(s: State, ids: set<string>, json: Json)
    requires Agreement(s, json)
    ensures SameManifest(s.files - PathsOf(s.entries, ids), s.files)
  {
    forall id | id in s.entries ensures s.entries[id].path != MANIFEST {
      assert IsEntryOf(s.files, id, s.entries[id], json);
      BlobNameShape(s.entries[id].manifest);
    }
  }

  /** What a mutation leaves as the manifest file: the next one after the file it found. */
  lemma MutationWrites(s: State, op: Op, s': State, json: Json)
    requires Agreement(s, json) && json.Inverse() && Step(s, op, s', json) && DotFreeOps([op], json) && Mutates(s, op)
    ensures MANIFEST in s'.files && s'.files[MANIFEST] == json.print_(NextManifest(s.files, s'.entries, json))
  {
    match op
    case UpsertOp(b) =>
      assert op in [op];
      SealedIsIndexed(FileName(b.manifest), b, json.blobs);
      PublishedKeepsManifest(s.files, b, json);
      hide Published, FileName, Seal, IndexEntry, FilesAt, Agreement, WithManifest, NextManifest;
      WrittenOver(Published(s.files, b, json), s.files, s'.entries, json);
    case RemoveOp(id) => DropWrites(s, {id}, json);
    case RetainOp(keep) => DropWrites(s, s.entries.Keys - keep, json);
    case ReopenOp =>
  }

  lemma DropWrites(s: State, ids: set<string>, json: Json)
    requires Agreement(s, json)
    ensures MANIFEST in Drop(s, ids, json).files
    ensures Drop(s, ids, json).files[MANIFEST] == json.print_(NextManifest(s.files, s.entries - ids, json))
  {
    DropKeepsManifest(s, ids, json);
    hide WithManifest, NextManifest, Agreement;
    WrittenOver(s.files - PathsOf(s.entries, ids), s.files, s.entries - ids, json);
  }

  lemma NextIsCurrent(before: FileMap, s: State, json: Json)
    requires json.Inverse() && MANIFEST in s.files
    requires s.files[MANIFEST] == json.print_(NextManifest(before, s.entries, json))
    ensures ManifestCurrent(s, json) && json.parse(s.files[MANIFEST]) == Some(NextManifest(before, s.entries, json))
  {
  }

  /** The next manifest names the hash of the one it finds and is one generation on; where it
      finds none it is the first generation, with no hash. */
  lemma NextFollows(before: FileMap, entries: Entries, json: Json)
    requires json.Inverse()
    ensures MANIFEST !in before ==>
              NextManifest(before, entries, json).previousCatalogHash == "" &&
              NextManifest(before, entries, json).generation == 1
    ensures forall m: CatalogManifest |
              MANIFEST in before && m.generation < U64 && before[MANIFEST] == json.print_(m) ::
              NextManifest(before, entries, json).previousCatalogHash == m.catalogHash &&
              NextManifest(before, entries, json).generation == (m.generation + 1) % U64
  {
    hide PluginHashes, CatalogHash;
  }

  /** Operations that write no manifest change nothing. */
  lemma OtherStepsKeepState(s: State, op: Op, s': State, json: Json)
    requires Agreement(s, json) && Step(s, op, s', json) && !Mutates(s, op)
    ensures s' == s
  {
    hide Agreement, Opened, WithManifest;
    if op.ReopenOp? { ReopenRebuilds(s, s'.entries, json); }
  }

  lemma StepKeepsManifest(s: State, op: Op, s': State, json: Json)
    requires Agreement(s, json) && json.Inverse() && Step(s, op, s', json) && DotFreeOps([op], json)
    ensures Mutates(s, op) || ManifestCurrent(s, json) ==> ManifestCurrent(s', json)
  {
    hide Agreement, Step, DotFreeOps, Mutates, ManifestCurrent, NextManifest;
    if Mutates(s, op) {
      MutationWrites(s, op, s', json);
      NextIsCurrent(s.files, s', json);
    } else {
      OtherStepsKeepState(s, op, s', json);
    }
  }

  /** `after` was written over `before`: it names the hash of the one it replaces and is one
      generation on, modulo 2^64. */
  ghost predicate Chained(before: Bytes, after: Bytes, json: Json) {
    var old_, new_ := json.parse(before), json.parse(after);
    old_.Some? && new_.Some? && new_.value.previousCatalogHash == old_.value.catalogHash &&
    new_.value.generation == (old_.value.generation + 1) % U64
  }

  /** Every operation that writes a manifest over a current one chains to it. */
  lemma StepChains(s: State, op: Op, s': State, json: Json)
    requires Agreement(s, json) && json.Inverse() && ManifestCurrent(s, json)
    requires Step(s, op, s', json) && DotFreeOps([op], json) && Mutates(s, op)
    ensures MANIFEST in s'.files && Chained(s.files[MANIFEST], s'.files[MANIFEST], json)
  {
    hide Agreement, Step, DotFreeOps, Mutates, NextManifest, PluginHashes;
    MutationWrites(s, op, s', json);
    NextIsCurrent(s.files, s', json);
    NextFollows(s.files, s'.entries, json);
  }

  /** A run from an empty catalog over a directory without blobs. */
  ghost predicate FreshRun(states: seq<State>, ops: seq<Op>, json: Json) {
    Run(states, ops, json) && DotFreeOps(ops, json) &&
    states[0].entries == map[] && forall n | n in states[0].files :: !IsBlobName(n)
  }

  lemma StepOfRun(states: seq<State>, ops: seq<Op>, json: Json, i: nat)
    requires FreshRun(states, ops, json) && json.Inverse() && i < |ops|
    ensures Agreement(states[i], json) && Step(states[i], ops[i], states[i + 1], json) && DotFreeOps([ops[i]], json)
  {
    hide Step, Agreement, DotFree, IsBlobName, FilesAt, Publishable;
    RunAgrees(states, ops, json);
    assert ops[i] in ops;
  }

  /** In every such run, from the first mutation on, the manifest is current at every point. */
  lemma {:induction false} RunManifest(states: seq<State>, ops: seq<Op>, json: Json, j: nat, i: nat)
    requires FreshRun(states, ops, json) && json.Inverse()
    requires j < i <= |ops| && Mutates(states[j], ops[j])
    ensures ManifestCurrent(states[i], json)
    decreases i
  {
    hide Step, ManifestCurrent, Mutates, Agreement, DotFreeOps;
    if j < i - 1 { RunManifest(states, ops, json, j, i - 1); }
    StepOfRun(states, ops, json, i - 1);
    StepKeepsManifest(states[i - 1], ops[i - 1], states[i], json);
  }

  /** Over every such run each manifest chains to the one it replaces. */
  lemma ManifestChain(states: seq<State>, ops: seq<Op>, json: Json, j: nat, i: nat)
    requires FreshRun(states, ops, json) && json.Inverse()
    requires j < i < |ops| && Mutates(states[j], ops[j]) && Mutates(states[i], ops[i])
    ensures MANIFEST in states[i].files && MANIFEST in states[i + 1].files
    ensures Chained(states[i].files[MANIFEST], states[i + 1].files[MANIFEST], json)
  {
    RunManifest(states, ops, json, j, i);
    StepOfRun(states, ops, json, i);
    StepChains(states[i], ops[i], states[i + 1], json);
  }

  /** How many of the first `n` operations wrote a manifest. */
  ghost function Mutations(states: seq<State>, ops: seq<Op>, n: nat): nat
    requires n <= |ops| && |states| == |ops| + 1
  {
    if n == 0 then 0 else Mutations(states, ops, n - 1) + if Mutates(states[n - 1], ops[n - 1]) then 1 else 0
  }

  /** The manifest after `count` mutations where there was none before. */
  ghost predicate CountedManifest(s: State, count: nat, json: Json) {
    if count == 0 then MANIFEST !in s.files
    else
      ManifestCurrent(s, json) &&
      json.parse(s.files[MANIFEST]).value.generation == count % U64 &&
      (count == 1 ==> json.parse(s.files[MANIFEST]).value.previousCatalogHash == "")
  }

  lemma MutationCounts(s: State, op: Op, s': State, count: nat, json: Json)
    requires Agreement(s, json) && json.Inverse() && Step(s, op, s', json) && DotFreeOps([op], json) && Mutates(s, op)
    requires CountedManifest(s, count, json)
    ensures CountedManifest(s', count + 1, json)
  {
    hide Agreement, Step, DotFreeOps, Mutates, NextManifest, PluginHashes;
    MutationWrites(s, op, s', json);
    NextIsCurrent(s.files, s', json);
    NextFollows(s.files, s'.entries, json);
    OneMoreModulo(count);
  }

  lemma OneMoreModulo(count: nat)
    ensures (count % U64 + 1) % U64 == (count + 1) % U64
  {
  }

  /** Where there was no manifest, the first one is generation 1 with no previous hash, and at
      every point of a run the generation is the number of mutations so far, modulo 2^64. */
  lemma {:induction false} GenerationCounts(states: seq<State>, ops: seq<Op>, json: Json, n: nat)
    requires FreshRun(states, ops, json) && json.Inverse() && MANIFEST !in states[0].files && n <= |ops|
    ensures CountedManifest(states[n], Mutations(states, ops, n), json)
  {
    hide Step, Mutates, Agreement, DotFreeOps, IsBlobName, ManifestCurrent;
    if n > 0 {
      hide FreshRun, Run, CountedManifest;
      var s, op, s' := states[n - 1], ops[n - 1], states[n];
      GenerationCounts(states, ops, json, n - 1);
      StepOfRun(states, ops, json, n - 1);
      if Mutates(s, op) {
        MutationCounts(s, op, s', Mutations(states, ops, n - 1), json);
      } else {
        OtherStepsKeepState(s, op, s', json);
      }
    }
  }
}
