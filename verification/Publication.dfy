/** What a reader, or a restart after a crash, can see while a blob is being published. */
module Publication {
  import opened Text
  import opened Summaries
  import opened Blob
  import opened ReflectionIndex
  import opened CatalogState

  /** Directory `f` as far as blob files go, somewhere between `before` and the end of
      publishing `image` as `path` for plugin `id`: another file goes only when it is
      superseded and the new image is already there. */
  ghost predicate BlobsBetween(before: FileMap, f: FileMap, id: string, path: string, image: Bytes) {
    (forall n | IsBlobName(n) && n != path && n in f :: n in before && f[n] == before[n]) &&
    (forall n | IsBlobName(n) && n != path && n in before && n !in f ::
       IsStale(n, id, path) && path in f && f[path] == image) &&
    (path in f ==> f[path] == image || (path in before && f[path] == before[path])) &&
    (path in before ==> path in f)
  }

  /** The manifest file is untouched or wholly the new one. */
  ghost predicate ManifestBetween(before: FileMap, f: FileMap, text: Bytes) {
    (MANIFEST in f && f[MANIFEST] == text) ||
    ((MANIFEST in f <==> MANIFEST in before) && (MANIFEST in f ==> f[MANIFEST] == before[MANIFEST]))
  }

  /** A directory met while `b` is being published over state `s`. */
  ghost predicate DuringUpsert(s: State, b: PluginObjectBlob, json: Json, f: FileMap)
    requires |b.manifest.schemaHash| >= 16
  {
    BlobsBetween(s.files, f, b.manifest.pluginId, FileName(b.manifest), Seal(b, json.blobs)) &&
    var after := Upsert(s, b, json).0.files;
    ManifestBetween(s.files, f, if MANIFEST in after then after[MANIFEST] else [])
  }

  /** A file is the complete new image, or an active entry's file with its bytes. */
  ghost predicate Complete(s: State, n: string, content: Bytes, path: string, image: Bytes) {
    (n == path && content == image) ||
    exists q :: q in s.entries && s.entries[q].path == n && s.entries[q].bytes == content
  }

  lemma EntrySurvivesMidway(s: State, b: PluginObjectBlob, json: Json, f: FileMap, q: string)
    requires Agreement(s, json) && json.Inverse() && Publishable(b, json) && !Captures(s.entries, b.manifest.pluginId)
    requires DuringUpsert(s, b, json, f) && q in s.entries && q != b.manifest.pluginId
    ensures IsEntryOf(f, q, s.entries[q], json)
  {
    var e := s.entries[q];
    BlobNameShape(e.manifest);
    if e.path == FileName(b.manifest) { BlobNamesDiffer(e.manifest, b.manifest); }
    hide FileName, Seal, IndexEntry, ManifestBetween, WithManifest, Published;
    assert IsEntryOf(s.files, q, e, json) && !HasPrefix(e.path, b.manifest.pluginId + ".");
  }

  /** At every point every visible blob is complete, other plugins' blobs are untouched, and
      a plugin that was active still has a visible blob that loads as it. */
  lemma PublicationIsSafe(s: State, b: PluginObjectBlob, json: Json, f: FileMap)
    requires Agreement(s, json) && json.Inverse() && Publishable(b, json) && !Captures(s.entries, b.manifest.pluginId)
    requires FilesAt(b.descriptorSet, 0).Some? && DuringUpsert(s, b, json, f)
    ensures forall n | n in f && IsBlobName(n) :: Complete(s, n, f[n], FileName(b.manifest), Seal(b, json.blobs))
    ensures forall q | q in s.entries && q != b.manifest.pluginId :: IsEntryOf(f, q, s.entries[q], json)
    ensures forall q | q in s.entries :: exists e :: LoadedFrom(f, q, e, json)
  {
    var id, path, image := b.manifest.pluginId, FileName(b.manifest), Seal(b, json.blobs);
    forall n | n in f && IsBlobName(n) ensures Complete(s, n, f[n], path, image) {
      if !(n == path && f[n] == image) {
        VisibleIsEntry(s, id, path, image, f, n, json);
      }
    }
    hide FileName, Seal, IndexEntry, FilesAt, IsBlobName;
    forall q | q in s.entries && q != id ensures IsEntryOf(f, q, s.entries[q], json) {
      EntrySurvivesMidway(s, b, json, f, q);
    }
    forall q | q in s.entries ensures exists e :: LoadedFrom(f, q, e, json) {
      if q != id {
        EntryLoads(f, q, s.entries[q], json);
      } else {
        PublishedLoads(s, b, json, f);
      }
    }
  }

  lemma VisibleIsEntry(s: State, id: string, path: string, image: Bytes, f: FileMap, n: string, json: Json)
    requires Agreement(s, json) && BlobsBetween(s.files, f, id, path, image)
    requires n in f && IsBlobName(n) && !(n == path && f[n] == image)
    ensures n in s.files && f[n] == s.files[n] && Complete(s, n, f[n], path, image)
  {
    hide FileName, IndexEntry, IsBlobName;
    assert Owned(s.entries, n);
    var q :| q in s.entries && s.entries[q].path == n;
    assert IsEntryOf(s.files, q, s.entries[q], json);
  }

  lemma EntryLoads(f: FileMap, q: string, e: Entry, json: Json)
    requires IsEntryOf(f, q, e, json)
    ensures LoadedFrom(f, q, e, json)
  {
    EntryIsLoadable(f, q, e, json);
    hide FileName, IndexEntry, IsBlobName;
    assert e.path in f;
  }

  /** The published plugin itself: its old file is there until the new one is. */
  lemma PublishedLoads(s: State, b: PluginObjectBlob, json: Json, f: FileMap)
    requires Agreement(s, json) && json.Inverse() && Publishable(b, json) && b.manifest.pluginId in s.entries
    requires FilesAt(b.descriptorSet, 0).Some? && DuringUpsert(s, b, json, f)
    ensures exists e :: LoadedFrom(f, b.manifest.pluginId, e, json)
  {
    var id, path, image := b.manifest.pluginId, FileName(b.manifest), Seal(b, json.blobs);
    var old_ := s.entries[id];
    EntryIsLoadable(s.files, id, old_, json);
    BlobNameShape(b.manifest);
    SealedIsIndexed(path, b, json.blobs);
    hide FileName, Seal, IndexEntry, FilesAt, IsBlobName, ManifestBetween, Upsert, IsStale, Agreement;
    if path in f && f[path] == image {
      var e := IndexEntry(path, image, json.blobs).value;
      assert path in f && IsBlobName(path) && IndexEntry(path, f[path], json.blobs) == Some(e) &&
        e.manifest.pluginId == id;
      assert LoadedFrom(f, id, e, json);
    } else {
      assert old_.path in f && f[old_.path] == s.files[old_.path];
      assert LoadedFrom(f, id, old_, json);
    }
  }

  /** Crash anywhere in a publication, then reopen: every other plugin comes back as it was,
      none is lost, and the published one is the old entry or the new one. */
  lemma CrashThenReopen(s: State, b: PluginObjectBlob, json: Json, f: FileMap, reopened: Entries)
    requires Agreement(s, json) && json.Inverse() && Publishable(b, json) && !Captures(s.entries, b.manifest.pluginId)
    requires FilesAt(b.descriptorSet, 0).Some? && DuringUpsert(s, b, json, f) && Opened(f, reopened, json)
    ensures s.entries.Keys <= reopened.Keys <= s.entries.Keys + {b.manifest.pluginId}
    ensures forall q | q in reopened && q != b.manifest.pluginId :: reopened[q] == s.entries[q]
    ensures
      var id := b.manifest.pluginId;
      id in reopened ==>
        IndexEntry(FileName(b.manifest), Seal(b, json.blobs), json.blobs) == Some(reopened[id]) ||
        (id in s.entries && reopened[id] == s.entries[id])
  {
    PublicationIsSafe(s, b, json, f);
    var id := b.manifest.pluginId;
    hide FileName, Seal, IndexEntry, FilesAt, IsBlobName, DuringUpsert, Agreement, Publishable, Captures, Complete,
         IsEntryOf;
    forall q | q in s.entries ensures q in reopened {
      var e :| LoadedFrom(f, q, e, json);
    }
    forall q | q in reopened
      ensures (q in s.entries && reopened[q] == s.entries[q]) ||
              (q == id && IndexEntry(FileName(b.manifest), Seal(b, json.blobs), json.blobs) == Some(reopened[q]))
    {
      LoadedMidway(s, b, json, f, q, reopened[q]);
    }
  }

  lemma LoadedMidway(s: State, b: PluginObjectBlob, json: Json, f: FileMap, q: string, e: Entry)
    requires Agreement(s, json) && json.Inverse() && Publishable(b, json) && FilesAt(b.descriptorSet, 0).Some?
    requires DuringUpsert(s, b, json, f) && LoadedFrom(f, q, e, json)
    ensures (q in s.entries && e == s.entries[q]) ||
            (q == b.manifest.pluginId && IndexEntry(FileName(b.manifest), Seal(b, json.blobs), json.blobs) == Some(e))
  {
    var path, image := FileName(b.manifest), Seal(b, json.blobs);
    SealedIsIndexed(path, b, json.blobs);
    hide FileName, Seal, FilesAt, IsBlobName, ManifestBetween, Upsert, IsEntryOf;
    hide IndexEntry;
    var n :| n in f && IsBlobName(n) && IndexEntry(n, f[n], json.blobs) == Some(e) && e.manifest.pluginId == q;
    if !(n == path && f[n] == image) {
      VisibleIsEntry(s, b.manifest.pluginId, path, image, f, n, json);
      assert LoadedFrom(s.files, q, e, json);
      LoadedIsActive(s, q, e, json);
    }
  }

  /** A version of the plugin that should have gone is still visible beside the new one. */
  ghost predicate TwoVersions(f: FileMap, id: string, path: string) {
    path in f && exists n :: n in f && IsBlobName(n) && IsStale(n, id, path)
  }

  lemma EntryOfLoaded(f: FileMap, n: string, e: Entry, json: Json)
    requires n in f && IndexEntry(n, f[n], json.blobs) == Some(e)
    ensures e.path == n && e.bytes == f[n]
  {
  }

  /** Whatever entry a crashed directory gives, its file is there and under its own name. */
  lemma ReopenedIsEntry(s: State, b: PluginObjectBlob, json: Json, f: FileMap, reopened: Entries, q: string)
    requires Agreement(s, json) && json.Inverse() && Publishable(b, json)
    requires FilesAt(b.descriptorSet, 0).Some? && DuringUpsert(s, b, json, f) && Opened(f, reopened, json)
    requires q in reopened
    ensures IsEntryOf(f, q, reopened[q], json)
  {
    var e, path := reopened[q], FileName(b.manifest);
    OpenedIsLoaded(f, reopened, q, json);
    LoadedMidway(s, b, json, f, q, e);
    SealedIsIndexed(path, b, json.blobs);
    hide FileName, Seal, FilesAt, IsBlobName, DuringUpsert, IndexEntry;
    var n :| n in f && IsBlobName(n) && IndexEntry(n, f[n], json.blobs) == Some(e) && e.manifest.pluginId == q;
    EntryOfLoaded(f, n, e, json);
    if q in s.entries && e == s.entries[q] { assert IsEntryOf(s.files, q, e, json); }
    else { NewEntryPath(path, b, e, json); }
  }

  lemma NewEntryPath(path: string, b: PluginObjectBlob, e: Entry, json: Json)
    requires json.Inverse() && |Seal(b, json.blobs)| < U64
    requires IndexEntry(path, Seal(b, json.blobs), json.blobs) == Some(e)
    ensures e.path == path && e.manifest == b.manifest
  {
    SealedIsIndexed(path, b, json.blobs);
    hide Seal, IndexEntry, FilesAt;
  }

  /** After a crash and a reopening only leftover versions of the published plugin can be in
      the way of agreement. */
  lemma CrashAgreesButForVersions(s: State, b: PluginObjectBlob, json: Json, f: FileMap, reopened: Entries)
    requires Agreement(s, json) && json.Inverse() && Publishable(b, json) && !Captures(s.entries, b.manifest.pluginId)
    requires FilesAt(b.descriptorSet, 0).Some? && DuringUpsert(s, b, json, f) && Opened(f, reopened, json)
    ensures AgreementBut(State(f, reopened), b.manifest.pluginId, json)
  {
    hide DuringUpsert, Publishable, Opened, Agreement, Captures;
    ReopenedAreEntries(s, b, json, f, reopened);
    MidwayAreOwned(s, b, json, f, reopened);
    hide IsEntryOf, Owned, IsBlobName, HasPrefix;
  }

  lemma ReopenedAreEntries(s: State, b: PluginObjectBlob, json: Json, f: FileMap, reopened: Entries)
    requires Agreement(s, json) && json.Inverse() && Publishable(b, json)
    requires FilesAt(b.descriptorSet, 0).Some? && DuringUpsert(s, b, json, f) && Opened(f, reopened, json)
    ensures forall q | q in reopened :: IsEntryOf(f, q, reopened[q], json)
  {
    hide DuringUpsert, Publishable, Opened, Agreement, FilesAt, IsEntryOf;
    forall q | q in reopened ensures IsEntryOf(f, q, reopened[q], json) {
      ReopenedIsEntry(s, b, json, f, reopened, q);
    }
  }

  lemma MidwayAreOwned(s: State, b: PluginObjectBlob, json: Json, f: FileMap, reopened: Entries)
    requires Agreement(s, json) && json.Inverse() && Publishable(b, json) && !Captures(s.entries, b.manifest.pluginId)
    requires FilesAt(b.descriptorSet, 0).Some? && DuringUpsert(s, b, json, f) && Opened(f, reopened, json)
    ensures forall n | n in f && IsBlobName(n) :: Owned(reopened, n) || HasPrefix(n, b.manifest.pluginId + ".")
  {
    PublicationIsSafe(s, b, json, f);
    CrashThenReopen(s, b, json, f, reopened);
    var id, path, image := b.manifest.pluginId, FileName(b.manifest), Seal(b, json.blobs);
    BlobNameShape(b.manifest);
    hide FileName, Seal, FilesAt, IsBlobName, DuringUpsert, IndexEntry, Publishable, Opened, Captures, IsEntryOf,
         Agreement, HasPrefix, Owned, Complete;
    forall n | n in f && IsBlobName(n) ensures Owned(reopened, n) || HasPrefix(n, id + ".") {
      assert Complete(s, n, f[n], path, image);
      MidwayIsOwned(s, id, json, path, image, n, f[n], reopened);
    }
  }

  lemma MidwayIsOwned(s: State, id: string, json: Json, path: string, image: Bytes, n: string, content: Bytes,
                      reopened: Entries)
    requires Agreement(s, json) && Complete(s, n, content, path, image) && HasPrefix(path, id + ".")
    requires forall q | q in s.entries && q != id :: q in reopened && reopened[q] == s.entries[q]
    ensures Owned(reopened, n) || HasPrefix(n, id + ".")
  {
    hide HasPrefix, IsBlobName;
    if n != path {
      var q :| q in s.entries && s.entries[q].path == n && s.entries[q].bytes == content;
      if q == id { OwnPath(s, q, json); } else { assert reopened[q].path == n; }
    }
  }

  lemma OwnPath(s: State, q: string, json: Json)
    requires Agreement(s, json) && q in s.entries
    ensures HasPrefix(s.entries[q].path, q + ".")
  {
    assert IsEntryOf(s.files, q, s.entries[q], json);
    BlobNameShape(s.entries[q].manifest);
  }

  /** In the crashed directory a file under the plugin's prefix can only be the plugin's. */
  lemma OwnerByPrefix(before: Entries, after: Entries, id: string, n: string)
    requires Owned(after, n) && HasPrefix(n, id + ".") && !Captures(before, id)
    requires forall q | q in after && q != id :: q in before && after[q] == before[q]
    ensures id in after && after[id].path == n
  {
    hide HasPrefix;
    var q :| q in after && after[q].path == n;
  }

  /** A visible file without an entry: it and the plugin's own entry are two versions. */
  lemma LeftoverIsVersion(s: State, b: PluginObjectBlob, json: Json, f: FileMap, reopened: Entries, n: string)
    requires Agreement(s, json) && json.Inverse() && Publishable(b, json) && !Captures(s.entries, b.manifest.pluginId)
    requires FilesAt(b.descriptorSet, 0).Some? && DuringUpsert(s, b, json, f) && Opened(f, reopened, json)
    requires n in f && IsBlobName(n) && !Owned(reopened, n)
    ensures TwoVersions(f, b.manifest.pluginId, FileName(b.manifest))
  {
    var id, path, image := b.manifest.pluginId, FileName(b.manifest), Seal(b, json.blobs);
    PublicationIsSafe(s, b, json, f);
    CrashThenReopen(s, b, json, f, reopened);
    CrashAgreesButForVersions(s, b, json, f, reopened);
    SealedIsIndexed(path, b, json.blobs);
    hide FileName, Seal, FilesAt, DuringUpsert, IndexEntry, Publishable, Captures, HasPrefix, Agreement, IsBlobName,
         Owned;
    assert Complete(s, n, f[n], path, image);
    if !(n == path && f[n] == image) {
      var q :| q in s.entries && s.entries[q].path == n;
      if q != id { OwnedByOther(reopened, q, n); }
      assert id in s.entries && s.entries[id].path == n;
    }
    assert id in reopened;
    var m := reopened[id].path;
    assert IsEntryOf(f, id, reopened[id], json) && m != n;
    NewPath(path, b, reopened[id], json);
    EntryIsLoadable(f, id, reopened[id], json);
    if n == path {
      VersionIsStale(m, reopened[id], id, path);
    } else {
      assert s.entries[id].path == n && reopened[id] != s.entries[id] && m == path;
      ActiveIsEntry(s, id, json);
      VersionIsStale(n, s.entries[id], id, path);
    }
  }

  lemma OwnedByOther(entries: Entries, q: string, n: string)
    requires q in entries && entries[q].path == n
    ensures Owned(entries, n)
  {
  }

  lemma ActiveIsEntry(s: State, q: string, json: Json)
    requires Agreement(s, json) && q in s.entries
    ensures IsEntryOf(s.files, q, s.entries[q], json)
  {
  }

  lemma NewPath(path: string, b: PluginObjectBlob, e: Entry, json: Json)
    ensures IndexEntry(path, Seal(b, json.blobs), json.blobs) == Some(e) ==> e.path == path
  {
    hide Seal;
  }

  lemma VersionIsStale(n: string, e: Entry, id: string, path: string)
    requires |e.manifest.schemaHash| >= 16 && e.path == n == FileName(e.manifest) && e.manifest.pluginId == id &&
             n != path
    ensures IsStale(n, id, path) && IsBlobName(n)
  {
    BlobNameShape(e.manifest);
  }

  /** After a crash and a reopening memory and disk agree exactly when no superseded version
      is left beside the new one. */
  lemma CrashAgreesIff(s: State, b: PluginObjectBlob, json: Json, f: FileMap, reopened: Entries)
    requires Agreement(s, json) && json.Inverse() && Publishable(b, json) && !Captures(s.entries, b.manifest.pluginId)
    requires FilesAt(b.descriptorSet, 0).Some? && DuringUpsert(s, b, json, f) && Opened(f, reopened, json)
    ensures Agreement(State(f, reopened), json) <==> !TwoVersions(f, b.manifest.pluginId, FileName(b.manifest))
  {
    hide FileName, Seal, FilesAt, DuringUpsert, IndexEntry, Captures, Opened, IsBlobName, TwoVersions, AgreementBut;
    CrashThenReopen(s, b, json, f, reopened);
    CrashAgreesButForVersions(s, b, json, f, reopened);
    if TwoVersions(f, b.manifest.pluginId, FileName(b.manifest)) {
      TwoVersionsDisagree(s.entries, State(f, reopened), b.manifest, json);
    } else {
      forall n | n in f && IsBlobName(n) ensures Owned(reopened, n) {
        if !Owned(reopened, n) { LeftoverIsVersion(s, b, json, f, reopened, n); }
      }
      AllOwnedAgrees(State(f, reopened), b.manifest.pluginId, json);
    }
  }

  lemma AllOwnedAgrees(s: State, id: string, json: Json)
    requires AgreementBut(s, id, json) && forall n | n in s.files && IsBlobName(n) :: Owned(s.entries, n)
    ensures Agreement(s, json)
  {
  }

  lemma TwoVersionsDisagree(before: Entries, s: State, m: BlobManifest, json: Json)
    requires |m.schemaHash| >= 16 && !Captures(before, m.pluginId) && TwoVersions(s.files, m.pluginId, FileName(m))
    requires forall q | q in s.entries && q != m.pluginId :: q in before && s.entries[q] == before[q]
    ensures !Agreement(s, json)
  {
    BlobNameShape(m);
    hide FileName, IndexEntry, Captures, IsBlobName, IsEntryOf, HasPrefix, Owned;
    if Agreement(s, json) {
      var n :| n in s.files && IsBlobName(n) && IsStale(n, m.pluginId, FileName(m));
      OwnerByPrefix(before, s.entries, m.pluginId, n);
      OwnerByPrefix(before, s.entries, m.pluginId, FileName(m));
      assert false;
    }
  }

  /** Publishing the plugin again after the crash restores agreement, on the conditions of any
      publication. */
  lemma RepublishingRestores(
    s: State, b: PluginObjectBlob, json: Json, f: FileMap, reopened: Entries, again: PluginObjectBlob)
    requires Agreement(s, json) && json.Inverse() && Publishable(b, json) && !Captures(s.entries, b.manifest.pluginId)
    requires FilesAt(b.descriptorSet, 0).Some? && DuringUpsert(s, b, json, f) && Opened(f, reopened, json)
    requires Publishable(again, json) && again.manifest.pluginId == b.manifest.pluginId
    ensures Agreement(Upsert(State(f, reopened), again, json).0, json) <==> FilesAt(again.descriptorSet, 0).Some?
  {
    hide Seal, FilesAt, DuringUpsert, IndexEntry, Upsert, Opened, Agreement, AgreementBut, Publishable, HasPrefix;
    CrashThenReopen(s, b, json, f, reopened);
    CrashAgreesButForVersions(s, b, json, f, reopened);
    UpsertRestoresAgreement(State(f, reopened), again, json);
  }

  // ---------------------------------------------------------------- removing after a crash

  lemma RemovedFiles(f: FileMap, reopened: Entries, id: string, json: Json, n: string)
    requires id in reopened && IsBlobName(n)
    ensures
      var after := Remove(State(f, reopened), id, json).files;
      (n in after <==> n in f && n != reopened[id].path) && (n in after ==> after[n] == f[n])
  {
    hide IsBlobName, NextManifest;
    ManifestIsNoBlob();
  }

  /** Every visible file under the plugin's prefix loads as the plugin. */
  lemma VersionLoads(s: State, b: PluginObjectBlob, json: Json, f: FileMap, n: string)
    requires Agreement(s, json) && json.Inverse() && Publishable(b, json) && !Captures(s.entries, b.manifest.pluginId)
    requires FilesAt(b.descriptorSet, 0).Some? && DuringUpsert(s, b, json, f)
    requires n in f && IsBlobName(n) && HasPrefix(n, b.manifest.pluginId + ".")
    ensures
      var e := IndexEntry(n, f[n], json.blobs);
      e.Some? && e.value.manifest.pluginId == b.manifest.pluginId
  {
    hide FileName, Seal, FilesAt, DuringUpsert, IndexEntry, HasPrefix, Agreement, IsBlobName;
    var id, path, image := b.manifest.pluginId, FileName(b.manifest), Seal(b, json.blobs);
    PublicationIsSafe(s, b, json, f);
    assert Complete(s, n, f[n], path, image);
    if n == path && f[n] == image {
      SealedIsIndexed(path, b, json.blobs);
    } else {
      var q :| q in s.entries && s.entries[q].path == n && s.entries[q].bytes == f[n];
      ActiveIsEntry(s, q, json);
    }
  }

  /** Removing the plugin after the crash deletes one file: the next opening brings the
      plugin back exactly when two versions of it were visible. */
  lemma RemovedReturnsIff(
    s: State, b: PluginObjectBlob, json: Json, f: FileMap, reopened: Entries, again: Entries)
    requires Agreement(s, json) && json.Inverse() && Publishable(b, json) && !Captures(s.entries, b.manifest.pluginId)
    requires FilesAt(b.descriptorSet, 0).Some? && DuringUpsert(s, b, json, f) && Opened(f, reopened, json)
    requires b.manifest.pluginId in reopened
    requires Opened(Remove(State(f, reopened), b.manifest.pluginId, json).files, again, json)
    ensures b.manifest.pluginId in again <==> TwoVersions(f, b.manifest.pluginId, FileName(b.manifest))
  {
    hide FileName, Seal, FilesAt, DuringUpsert, IndexEntry, Captures, HasPrefix, Agreement, Remove, Opened;
    var id := b.manifest.pluginId;
    if TwoVersions(f, id, FileName(b.manifest)) {
      OneVersionStays(s, b, json, f, reopened, again);
    } else if id in again {
      var n := LoadedElsewhere(f, reopened, again, id, json);
      if Owned(reopened, n) {
        var q :| q in reopened && reopened[q].path == n;
        ReopenedIsEntry(s, b, json, f, reopened, q);
        EntryIsLoadable(f, q, reopened[q], json);
      } else {
        LeftoverIsVersion(s, b, json, f, reopened, n);
      }
    }
  }

  /** The file behind an entry that came back. */
  lemma LoadedElsewhere(f: FileMap, reopened: Entries, again: Entries, id: string, json: Json) returns (n: string)
    requires id in reopened && id in again && Opened(Remove(State(f, reopened), id, json).files, again, json)
    ensures n in f && IsBlobName(n) && n != reopened[id].path
    ensures IndexEntry(n, f[n], json.blobs).Some? && IndexEntry(n, f[n], json.blobs).value.manifest.pluginId == id
  {
    hide IndexEntry, Remove, IsBlobName;
    var after := Remove(State(f, reopened), id, json).files;
    n :| n in after && IsBlobName(n) && IndexEntry(n, after[n], json.blobs) == Some(again[id]) &&
         again[id].manifest.pluginId == id;
    RemovedFiles(f, reopened, id, json, n);
  }

  lemma OneVersionStays(s: State, b: PluginObjectBlob, json: Json, f: FileMap, reopened: Entries, again: Entries)
    requires Agreement(s, json) && json.Inverse() && Publishable(b, json) && !Captures(s.entries, b.manifest.pluginId)
    requires FilesAt(b.descriptorSet, 0).Some? && DuringUpsert(s, b, json, f) && b.manifest.pluginId in reopened
    requires TwoVersions(f, b.manifest.pluginId, FileName(b.manifest))
    requires Opened(Remove(State(f, reopened), b.manifest.pluginId, json).files, again, json)
    ensures b.manifest.pluginId in again
  {
    hide FileName, Seal, FilesAt, DuringUpsert, IndexEntry, Captures, HasPrefix, Agreement, Remove, IsBlobName;
    var id, path := b.manifest.pluginId, FileName(b.manifest);
    BlobNameShape(b.manifest);
    var n :| n in f && IsBlobName(n) && IsStale(n, id, path);
    var left := if path == reopened[id].path then n else path;
    VersionLoads(s, b, json, f, left);
    RemovedFiles(f, reopened, id, json, left);
  }
}
