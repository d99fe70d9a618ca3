/** `ActiveReflectionCatalog` over a directory. Every method is tied to the state machine of
    `CatalogState`, and `UpsertBlob` also to what may be seen while it runs. */
module Catalog {
  import opened Text
  import opened Ordering
  import opened Blob
  import opened ReflectionIndex
  import opened CatalogIdentity
  import opened CatalogState
  import opened Publication

  /** `f` is `base` with some content, perhaps half written, in the file `name`. */
  ghost predicate Rewritten(base: FileMap, f: FileMap, name: string) {
    name in f && f == base[name := f[name]]
  }

  /** A content was there to be read at some time from `start` on. */
  ghost predicate Seen(history: seq<FileMap>, start: nat, f: FileMap) {
    exists i :: start <= i < |history| && history[i] == f
  }

  lemma SeenLater(before: seq<FileMap>, after: seq<FileMap>, start: nat, f: FileMap)
    requires before <= after && Seen(before, start, f)
    ensures Seen(after, start, f)
  {
    var i :| start <= i < |before| && before[i] == f;
    assert after[i] == f;
  }

  lemma LastIsSeen(history: seq<FileMap>, start: nat)
    requires start < |history|
    ensures Seen(history, start, history[|history| - 1])
  {
  }

  lemma ManifestNamesDiffer()
    ensures MANIFEST_TMP != MANIFEST
  {
  }

  /** A directory whose operations succeed. `history` records every content another process
      could have read: a write is visible at every prefix, a rename or removal at once. */
  class Directory {
    var files: FileMap
    ghost var history: seq<FileMap>

    constructor (files: FileMap)
      ensures this.files == files && history == []
    {
      this.files := files;
      history := [];
    }

    method Write(name: string, content: Bytes)
      modifies this
      ensures files == old(files)[name := content]
      ensures old(history) <= history
      ensures forall i | |old(history)| <= i < |history| :: Rewritten(old(files), history[i], name)
      ensures forall k | 0 <= k <= |content| :: Seen(history, |old(history)|, old(files)[name := content[..k]])
    {
      var before := files;
      ghost var seen := seq(|content| + 1, i requires 0 <= i <= |content| => before[name := content[..i]]);
      history := history + seen;
      files := files[name := content];
      forall k | 0 <= k <= |content| ensures Seen(history, |old(history)|, before[name := content[..k]]) {
        assert history[|old(history)| + k] == before[name := content[..k]];
      }
    }

    method Rename(from: string, to: string)
      requires from in files && from != to
      modifies this
      ensures files == (old(files) - {from})[to := old(files)[from]]
      ensures history == old(history) + [files]
    {
      files := (files - {from})[to := files[from]];
      history := history + [files];
    }

    method Remove(name: string)
      modifies this
      ensures files == old(files) - {name}
      ensures history == old(history) + [files]
    {
      files := files - {name};
      history := history + [files];
    }
  }

  // ---------------------------------------------------------------- phases of an upsert

  /** The temporary file was there to be read at every length, then the renamed image. */
  ghost predicate PublicationSeen(history: seq<FileMap>, start: nat, before: FileMap, b: PluginObjectBlob, json: Json)
    requires |b.manifest.schemaHash| >= 16
  {
    var path, image := FileName(b.manifest), Seal(b, json.blobs);
    (forall k | 0 <= k <= |image| :: Seen(history, start, before[path + ".tmp" := image[..k]])) &&
    Seen(history, start, (before - {path + ".tmp"})[path := image])
  }

  lemma PublicationSeenLater(
    seen: seq<FileMap>, later: seq<FileMap>, start: nat, before: FileMap, b: PluginObjectBlob, json: Json)
    requires |b.manifest.schemaHash| >= 16 && seen <= later && PublicationSeen(seen, start, before, b, json)
    ensures PublicationSeen(later, start, before, b, json)
  {
    hide FileName, Seal, Seen;
    var path, image := FileName(b.manifest), Seal(b, json.blobs);
    forall k | 0 <= k <= |image| ensures Seen(later, start, before[path + ".tmp" := image[..k]]) {
      SeenLater(seen, later, start, before[path + ".tmp" := image[..k]]);
    }
    SeenLater(seen, later, start, (before - {path + ".tmp"})[path := image]);
  }

  /** The new image is in place; some superseded files are gone. */
  ghost predicate Renamed(s: State, b: PluginObjectBlob, json: Json, f: FileMap)
    requires |b.manifest.schemaHash| >= 16
  {
    var id, path := b.manifest.pluginId, FileName(b.manifest);
    var renamed := (s.files - {path + ".tmp"})[path := Seal(b, json.blobs)];
    (forall n | n in f :: n in renamed && f[n] == renamed[n]) &&
    forall n | n in renamed && n !in f :: IsStale(n, id, path)
  }

  lemma TmpNameShape(m: BlobManifest)
    requires |m.schemaHash| >= 16
    ensures var tmp := FileName(m) + ".tmp"; !IsBlobName(tmp) && tmp != MANIFEST && tmp != FileName(m)
  {
    BlobNameShape(m);
    var tmp := FileName(m) + ".tmp";
    assert tmp[|tmp| - 1] == 'p' && MANIFEST[|MANIFEST| - 1] == 'n';
  }

  lemma ManifestNameShape(id: string, path: string)
    ensures !IsBlobName(MANIFEST) && !IsBlobName(MANIFEST_TMP) && MANIFEST != MANIFEST_TMP
    ensures !IsStale(MANIFEST, id, path)
  {
    assert MANIFEST[|MANIFEST| - 5..][4] == 'n' && MANIFEST_TMP[|MANIFEST_TMP| - 5..][4] == 'p' && ".blob"[4] == 'b';
  }

  /** Only blob files and the manifest matter. */
  ghost predicate SameVisible(f: FileMap, g: FileMap) {
    forall n | IsBlobName(n) || n == MANIFEST :: (n in f <==> n in g) && (n in f ==> f[n] == g[n])
  }

  lemma DuringFrame(s: State, b: PluginObjectBlob, json: Json, f: FileMap, g: FileMap)
    requires |b.manifest.schemaHash| >= 16 && DuringUpsert(s, b, json, f) && SameVisible(f, g)
    ensures DuringUpsert(s, b, json, g)
  {
    BlobNameShape(b.manifest);
    hide FileName, Seal, Upsert, IsBlobName, IsStale;
  }

  lemma StartIsDuring(s: State, b: PluginObjectBlob, json: Json)
    requires |b.manifest.schemaHash| >= 16
    ensures DuringUpsert(s, b, json, s.files)
  {
    hide FileName, Seal, Upsert, IsBlobName, IsStale;
  }

  lemma TmpIsDuring(s: State, b: PluginObjectBlob, json: Json, f: FileMap)
    requires |b.manifest.schemaHash| >= 16 && Rewritten(s.files, f, FileName(b.manifest) + ".tmp")
    ensures DuringUpsert(s, b, json, f)
  {
    StartIsDuring(s, b, json);
    TmpNameShape(b.manifest);
    hide FileName, DuringUpsert, IsBlobName;
    DuringFrame(s, b, json, s.files, f);
  }

  lemma RenamedIsDuring(s: State, b: PluginObjectBlob, json: Json, f: FileMap)
    requires |b.manifest.schemaHash| >= 16 && Renamed(s, b, json, f)
    ensures DuringUpsert(s, b, json, f)
  {
    var id, path := b.manifest.pluginId, FileName(b.manifest);
    BlobNameShape(b.manifest);
    TmpNameShape(b.manifest);
    NotStaleItself(id, path);
    ManifestNameShape(id, path);
    hide FileName, Seal, Upsert, IsBlobName, IsStale;
    assert path in f;
  }

  lemma JustRenamed(s: State, b: PluginObjectBlob, json: Json)
    requires |b.manifest.schemaHash| >= 16
    ensures Renamed(s, b, json,
                    (s.files - {FileName(b.manifest) + ".tmp"})[FileName(b.manifest) := Seal(b, json.blobs)])
  {
    hide FileName, Seal, IsStale;
  }

  lemma TmpVanishes(files: FileMap, tmp: string, image: Bytes)
    ensures files[tmp := image] - {tmp} == files - {tmp}
  {
  }

  lemma RenamedWithout(s: State, b: PluginObjectBlob, json: Json, f: FileMap, n: string)
    requires |b.manifest.schemaHash| >= 16 && Renamed(s, b, json, f)
    requires IsStale(n, b.manifest.pluginId, FileName(b.manifest))
    ensures Renamed(s, b, json, f - {n})
  {
    hide FileName, Seal, IsStale;
  }

  lemma NothingStaleIsPublished(s: State, b: PluginObjectBlob, json: Json, f: FileMap)
    requires |b.manifest.schemaHash| >= 16 && Renamed(s, b, json, f)
    requires forall n | n in f :: !IsStale(n, b.manifest.pluginId, FileName(b.manifest))
    ensures f == Published(s.files, b, json)
  {
    hide FileName, Seal, IsStale;
  }

  lemma PublishedIsRenamed(s: State, b: PluginObjectBlob, json: Json)
    requires |b.manifest.schemaHash| >= 16
    ensures Renamed(s, b, json, Published(s.files, b, json))
  {
    hide FileName, Seal, IsStale;
  }

  lemma ManifestTmpIsDuring(s: State, b: PluginObjectBlob, json: Json, f: FileMap)
    requires |b.manifest.schemaHash| >= 16 && Rewritten(Published(s.files, b, json), f, MANIFEST_TMP)
    ensures DuringUpsert(s, b, json, f)
  {
    PublishedIsRenamed(s, b, json);
    RenamedIsDuring(s, b, json, Published(s.files, b, json));
    ManifestNameShape("", "");
    hide DuringUpsert, IsBlobName, Published, Renamed;
    DuringFrame(s, b, json, Published(s.files, b, json), f);
  }

  lemma BlobsFrame(before: FileMap, f: FileMap, g: FileMap, id: string, path: string, image: Bytes)
    requires BlobsBetween(before, f, id, path, image) && IsBlobName(path)
    requires forall n | IsBlobName(n) :: (n in f <==> n in g) && (n in f ==> f[n] == g[n])
    ensures BlobsBetween(before, g, id, path, image)
  {
    hide IsBlobName, IsStale;
  }

  lemma WithManifestFrame(files: FileMap, entries: Entries, json: Json)
    ensures MANIFEST in WithManifest(files, entries, json)
    ensures
      var g := WithManifest(files, entries, json);
      forall n | IsBlobName(n) :: (n in files <==> n in g) && (n in files ==> files[n] == g[n])
  {
    ManifestNameShape("", "");
    hide IsBlobName, NextManifest;
  }

  lemma UpsertIsDuring(s: State, b: PluginObjectBlob, json: Json)
    requires |b.manifest.schemaHash| >= 16 && Upsert(s, b, json).1
    ensures DuringUpsert(s, b, json, Upsert(s, b, json).0.files)
  {
    var f := Published(s.files, b, json);
    PublishedIsRenamed(s, b, json);
    RenamedIsDuring(s, b, json, f);
    BlobNameShape(b.manifest);
    WithManifestFrame(f, Upsert(s, b, json).0.entries, json);
    hide FileName, Seal, IsBlobName, IsStale, Published, IndexEntry, WithManifest, BlobsBetween, Renamed;
    BlobsFrame(s.files, f, Upsert(s, b, json).0.files, b.manifest.pluginId, FileName(b.manifest), Seal(b, json.blobs));
  }

  // ---------------------------------------------------------------- the catalog

  class ActiveReflectionCatalog {
    const dir: Directory
    const json: Json
    var entries: Entries

    ghost function Current(): State
      reads this, dir
    {
      State(dir.files, entries)
    }

    /** `open`: the directory is read in any order; unreadable blobs are skipped. */
    constructor Open(dir: Directory, json: Json)
      ensures this.dir == dir && this.json == json
      ensures Opened(dir.files, entries, json)
    {
      this.dir := dir;
      this.json := json;
      entries := map[];
      new;
      hide IndexEntry, IsBlobName, Opened, AlreadyRead;
      var files := dir.files;
      var todo := files.Keys;
      NothingRead(files, json);
      while todo != {}
        invariant todo <= files.Keys && dir.files == files
        invariant Opened(AlreadyRead(files, todo), entries, json)
      {
        var n :| n in todo;
        ReadOneMore(files, todo, n, entries, json);
        todo := todo - {n};
        if IsBlobName(n) {
          var e := BuildIndex(n, files[n], json.blobs);
          if e.Some? {
            entries := entries[e.value.manifest.pluginId := e.value];
          }
        }
      }
      AllRead(files);
    }

    /** The manifest to write: the current plugins, after whatever manifest is on disk. */
    method ComposeManifest() returns (manifest: CatalogManifest)
      ensures manifest == NextManifest(dir.files, entries, json)
    {
      hide PluginHashes, CatalogHash;
      var generation, previous := 0, "";
      if MANIFEST in dir.files {
        generation := json.generationOf(dir.files[MANIFEST]).GetOr(0);
        previous := json.hashOf(dir.files[MANIFEST]).GetOr("");
      }
      var hash := Hash();
      return CatalogManifest(hash, previous, (generation + 1) % U64, PluginHashes(entries));
    }

    method WriteManifest()
      modifies dir
      ensures dir.files == WithManifest(old(dir.files), entries, json)
      ensures old(dir.history) <= dir.history
      ensures forall i | |old(dir.history)| <= i < |dir.history| ::
                dir.history[i] == dir.files || Rewritten(old(dir.files), dir.history[i], MANIFEST_TMP)
      ensures Seen(dir.history, |old(dir.history)|, dir.files)
    {
      hide NextManifest, Seen, MANIFEST, MANIFEST_TMP;
      var manifest := ComposeManifest();
      dir.Write(MANIFEST_TMP, json.print_(manifest));
      ManifestNamesDiffer();
      dir.Rename(MANIFEST_TMP, MANIFEST);
      LastIsSeen(dir.history, |old(dir.history)|);
    }

    /** `write_to_dir`: temporary file, then rename. */
    method WriteToDir(b: PluginObjectBlob)
      requires |b.manifest.schemaHash| >= 16
      modifies dir
      ensures Renamed(old(Current()), b, json, dir.files)
      ensures dir.files ==
              (old(dir.files) - {FileName(b.manifest) + ".tmp"})[FileName(b.manifest) := Seal(b, json.blobs)]
      ensures old(dir.history) <= dir.history
      ensures forall i | |old(dir.history)| <= i < |dir.history| ::
                DuringUpsert(old(Current()), b, json, dir.history[i])
      ensures PublicationSeen(dir.history, |old(dir.history)|, old(dir.files), b, json)
    {
      ghost var s := Current();
      var path := FileName(b.manifest);
      var image := SealImage(b, json.blobs);
      TmpNameShape(b.manifest);
      JustRenamed(s, b, json);
      hide FileName, Seal, DuringUpsert, IsStale, IsBlobName, Rewritten, Renamed;
      dir.Write(path + ".tmp", image);
      forall i | |old(dir.history)| <= i < |dir.history| ensures DuringUpsert(s, b, json, dir.history[i]) {
        TmpIsDuring(s, b, json, dir.history[i]);
      }
      ghost var written := dir.history;
      dir.Rename(path + ".tmp", path);
      TmpVanishes(s.files, path + ".tmp", image);
      RenamedIsDuring(s, b, json, dir.files);
      LastIsSeen(dir.history, |old(dir.history)|);
      forall k | 0 <= k <= |image|
        ensures Seen(dir.history, |old(dir.history)|, s.files[path + ".tmp" := image[..k]])
      {
        SeenLater(written, dir.history, |old(dir.history)|, s.files[path + ".tmp" := image[..k]]);
      }
    }

    /** Remove superseded hash versions, in any order. */
    method RemoveSuperseded(b: PluginObjectBlob, ghost s: State)
      requires |b.manifest.schemaHash| >= 16 && Renamed(s, b, json, dir.files)
      modifies dir
      ensures dir.files == Published(s.files, b, json)
      ensures old(dir.history) <= dir.history
      ensures forall i | |old(dir.history)| <= i < |dir.history| :: DuringUpsert(s, b, json, dir.history[i])
    {
      hide FileName, DuringUpsert, IsStale, Renamed, Published;
      var path := FileName(b.manifest);
      var todo := dir.files.Keys;
      while todo != {}
        invariant Renamed(s, b, json, dir.files)
        invariant forall n | n in dir.files && IsStale(n, b.manifest.pluginId, path) :: n in todo
        invariant old(dir.history) <= dir.history
        invariant forall i | |old(dir.history)| <= i < |dir.history| :: DuringUpsert(s, b, json, dir.history[i])
      {
        var n :| n in todo;
        todo := todo - {n};
        if IsStale(n, b.manifest.pluginId, path) {
          RenamedWithout(s, b, json, dir.files, n);
          dir.Remove(n);
          RenamedIsDuring(s, b, json, dir.files);
        }
      }
      NothingStaleIsPublished(s, b, json, dir.files);
    }

    /** `upsert_blob` up to the index: write, rename, remove superseded versions. */
    method Publish(b: PluginObjectBlob)
      requires |b.manifest.schemaHash| >= 16
      modifies dir
      ensures dir.files == Published(old(dir.files), b, json)
      ensures old(dir.history) <= dir.history
      ensures PublicationSeen(dir.history, |old(dir.history)|, old(dir.files), b, json)
      ensures forall i | |old(dir.history)| <= i < |dir.history| ::
                DuringUpsert(old(Current()), b, json, dir.history[i])
    {
      hide FileName, Seal, DuringUpsert, Published, Renamed, Seen;
      ghost var s := Current();
      WriteToDir(b);
      ghost var renamed := dir.history;
      assert PublicationSeen(renamed, |old(dir.history)|, s.files, b, json);
      RemoveSuperseded(b, s);
      PublicationSeenLater(renamed, dir.history, |old(dir.history)|, s.files, b, json);
    }

    /** `upsert_blob`: every content that could be read meanwhile is one of a publication, and
        among them are the temporary file at every length, the renamed image beside the files
        it supersedes, and in the end the directory with its new manifest. */
    method UpsertBlob(b: PluginObjectBlob) returns (ok: bool)
      requires |b.manifest.schemaHash| >= 16
      modifies this, dir
      ensures Current() == Upsert(old(Current()), b, json).0 && ok == Upsert(old(Current()), b, json).1
      ensures old(dir.history) <= dir.history
      ensures PublicationSeen(dir.history, |old(dir.history)|, old(dir.files), b, json)
      ensures ok ==> Seen(dir.history, |old(dir.history)|, dir.files)
      ensures forall i | |old(dir.history)| <= i < |dir.history| ::
                DuringUpsert(old(Current()), b, json, dir.history[i])
    {
      ghost var s := Current();
      var path := FileName(b.manifest);
      PublishedFiles(s.files, b, json, path);
      hide FileName, Seal, DuringUpsert, IndexEntry, Published, WithManifest, Rewritten, IsBlobName, IsStale,
           PublicationSeen;
      Publish(b);
      var e := BuildIndex(path, dir.files[path], json.blobs);
      if e.None? { return false; }
      entries := entries[b.manifest.pluginId := e.value];
      ghost var seen := dir.history;
      WriteManifest();
      PublicationSeenLater(seen, dir.history, |old(dir.history)|, s.files, b, json);
      assert Current() == Upsert(s, b, json).0;
      UpsertIsDuring(s, b, json);
      forall i | |seen| <= i < |dir.history| ensures DuringUpsert(s, b, json, dir.history[i]) {
        if dir.history[i] != dir.files { ManifestTmpIsDuring(s, b, json, dir.history[i]); }
      }
      return true;
    }

    method RemoveBlob(id: string) returns (found: bool)
      modifies this, dir
      ensures Current() == Remove(old(Current()), id, json) && found == (id in old(entries))
    {
      hide WithManifest;
      if id !in entries { return false; }
      ghost var s := Current();
      var path := entries[id].path;
      entries := entries - {id};
      if path in dir.files { dir.Remove(path); }
      assert dir.files == s.files - {path};
      DropOne(s, id, json);
      WriteManifest();
      return true;
    }

    method RetainPlugins(keep: set<string>) returns (stale: set<string>)
      modifies this, dir
      ensures Current() == Retain(old(Current()), keep, json) && stale == old(entries).Keys - keep
    {
      hide WithManifest;
      ghost var s := Current();
      stale := entries.Keys - keep;
      var todo := stale;
      while todo != {}
        invariant todo <= stale <= s.entries.Keys && entries == s.entries - (stale - todo)
        invariant dir.files == s.files - PathsOf(s.entries, stale - todo)
      {
        var id :| id in todo;
        ghost var gone := stale - todo;
        todo := todo - {id};
        assert stale - todo == gone + {id};
        var path := entries[id].path;
        entries := entries - {id};
        if path in dir.files { dir.Remove(path); }
        DropOneMore(s, gone, id);
      }
      assert stale - todo == stale;
      if stale != {} { WriteManifest(); }
    }

    /** The hash over the current entries, collected in any order. */
    method Hash() returns (h: string)
      ensures h == CatalogHash(PluginHashes(entries))
    {
      var plugins := PluginHashes(entries);
      h := HashCatalog(plugins, Keys(plugins.Keys));
    }

    ghost predicate Indexed()
      reads this
    {
      forall id | id in entries :: InBounds(entries[id])
    }

    /** Reflection `file_by_filename`: the first entry, in any order, that has the file. */
    method FileByFilename(filename: string) returns (r: Option<Bytes>)
      requires Indexed()
      ensures r.Some? ==> exists id :: id in entries && FileIn(entries[id], filename) == r
      ensures r.None? ==> forall id | id in entries :: FileIn(entries[id], filename).None?
    {
      var todo := entries.Keys;
      while todo != {}
        invariant todo <= entries.Keys
        invariant forall id | id in entries && id !in todo :: FileIn(entries[id], filename).None?
      {
        var id :| id in todo;
        todo := todo - {id};
        r := FileIn(entries[id], filename);
        if r.Some? { return; }
      }
      return None;
    }

    /** Reflection `file_containing_symbol`. */
    method SymbolByName(symbol: string) returns (r: Option<Bytes>)
      requires Indexed()
      ensures r.Some? ==> exists id :: id in entries && SymbolIn(entries[id], symbol) == r
      ensures r.None? ==> forall id | id in entries :: SymbolIn(entries[id], symbol).None?
    {
      var todo := entries.Keys;
      while todo != {}
        invariant todo <= entries.Keys
        invariant forall id | id in entries && id !in todo :: SymbolIn(entries[id], symbol).None?
      {
        var id :| id in todo;
        todo := todo - {id};
        r := SymbolIn(entries[id], symbol);
        if r.Some? { return; }
      }
      return None;
    }

    /** Reflection `ListServices`: every service of every active blob, as often as it is
        advertised, in sorted order; whatever order the entries are visited in. */
    method ListServices() returns (services: seq<string>)
      ensures Sorted(services) && multiset(services) == Advertised(entries, Keys(entries.Keys))
    {
      hide Sorted, Sort;
      var all: seq<string> := [];
      var todo := entries.Keys;
      ghost var order: seq<string> := [];
      while todo != {}
        invariant todo <= entries.Keys && multiset(order) + multiset(todo) == multiset(entries.Keys)
        invariant forall id | id in order :: id in entries
        invariant multiset(all) == Advertised(entries, order)
      {
        var id :| id in todo;
        todo := todo - {id};
        all := all + entries[id].manifest.grpc.services;
        AdvertisedStep(entries, order, id);
        order := order + [id];
      }
      AdvertisedInAnyOrder(entries, order, Keys(entries.Keys));
      services := Sort(multiset(all));
      SortSorts(multiset(all));
    }
  }

  /** The services the plugins in `ids` advertise. */
  ghost function Advertised(entries: Entries, ids: seq<string>): multiset<string>
    requires forall id | id in ids :: id in entries
  {
    if ids == [] then multiset{} else
      Advertised(entries, ids[..|ids| - 1]) + multiset(entries[ids[|ids| - 1]].manifest.grpc.services)
  }

  lemma AdvertisedStep(entries: Entries, ids: seq<string>, id: string)
    requires id in entries && forall i | i in ids :: i in entries
    ensures Advertised(entries, ids + [id]) == Advertised(entries, ids) + multiset(entries[id].manifest.grpc.services)
  {
    assert (ids + [id])[..|ids|] == ids;
  }

  lemma {:induction false} AdvertisedConcat(entries: Entries, a: seq<string>, b: seq<string>)
    requires (forall id | id in a :: id in entries) && forall id | id in b :: id in entries
    ensures Advertised(entries, a + b) == Advertised(entries, a) + Advertised(entries, b)
  {
    if b == [] {
      assert a + b == a;
    } else {
      var front, last := b[..|b| - 1], b[|b| - 1];
      assert a + b == (a + front) + [last] && b == front + [last];
      AdvertisedStep(entries, a + front, last);
      AdvertisedStep(entries, front, last);
      AdvertisedConcat(entries, a, front);
    }
  }

  /** Taking one plugin out of a list of them takes its services out of the sum. */
  lemma AdvertisedWithout(entries: Entries, b: seq<string>, j: nat)
    requires (forall id | id in b :: id in entries) && j < |b|
    ensures multiset(b) == multiset(b[..j] + b[j + 1..]) + multiset{b[j]}
    ensures Advertised(entries, b) ==
            Advertised(entries, b[..j] + b[j + 1..]) + multiset(entries[b[j]].manifest.grpc.services)
  {
    var front, one, back := b[..j], [b[j]], b[j + 1..];
    assert b == front + (one + back);
    AdvertisedConcat(entries, front, back);
    AdvertisedConcat(entries, front, one + back);
    AdvertisedConcat(entries, one, back);
    assert one[..0] == [];
  }

  lemma Cancel(a: multiset<string>, b: multiset<string>, x: string)
    requires a + multiset{x} == b + multiset{x}
    ensures a == b
  {
    assert a == (a + multiset{x}) - multiset{x};
  }

  lemma SameMembers(a: seq<string>, b: seq<string>)
    requires multiset(a) == multiset(b)
    ensures forall id :: id in a <==> id in b
    ensures |a| == |b|
  {
    assert forall id :: (id in a <==> id in multiset(a)) && (id in b <==> id in multiset(b));
    assert |multiset(a)| == |a| && |multiset(b)| == |b|;
  }

  lemma {:induction false} AdvertisedInAnyOrder(entries: Entries, a: seq<string>, b: seq<string>)
    requires (forall id | id in a :: id in entries) && multiset(a) == multiset(b)
    ensures forall id | id in b :: id in entries
    ensures Advertised(entries, a) == Advertised(entries, b)
    decreases |a|
  {
    SameMembers(a, b);
    if a != [] {
      var n := |a| - 1;
      assert a[n] in b;
      var j :| 0 <= j < |b| && b[j] == a[n];
      AdvertisedWithout(entries, a, n);
      AdvertisedWithout(entries, b, j);
      var before, rest := a[..n] + a[n + 1..], b[..j] + b[j + 1..];
      hide Advertised;
      Cancel(multiset(before), multiset(rest), a[n]);
      AdvertisedInAnyOrder(entries, before, rest);
    }
  }

  lemma DropOne(s: State, id: string, json: Json)
    requires id in s.entries
    ensures
      var files, entries := s.files - {s.entries[id].path}, s.entries - {id};
      Drop(s, {id}, json) == State(WithManifest(files, entries, json), entries)
  {
    hide WithManifest;
    assert PathsOf(s.entries, {id}) == {s.entries[id].path};
  }

  lemma DropOneMore(s: State, gone: set<string>, id: string)
    requires id in s.entries
    ensures PathsOf(s.entries, gone + {id}) == PathsOf(s.entries, gone) + {s.entries[id].path}
  {
  }

  /** The files already read. */
  ghost function AlreadyRead(files: FileMap, todo: set<string>): FileMap {
    map n | n in files && n !in todo :: files[n]
  }

  lemma NothingRead(files: FileMap, json: Json)
    ensures Opened(AlreadyRead(files, files.Keys), map[], json)
  {
  }

  lemma AllRead(files: FileMap)
    ensures AlreadyRead(files, {}) == files
  {
  }

  lemma ReadOneMore(files: FileMap, todo: set<string>, n: string, entries: Entries, json: Json)
    requires n in todo && n in files && Opened(AlreadyRead(files, todo), entries, json)
    ensures
      var e := IndexEntry(n, files[n], json.blobs);
      Opened(AlreadyRead(files, todo - {n}),
             if IsBlobName(n) && e.Some? then entries[e.value.manifest.pluginId := e.value] else entries, json)
  {
    hide IndexEntry, IsBlobName, Opened;
    OpenedMore(AlreadyRead(files, todo), n, files[n], entries, json);
    assert AlreadyRead(files, todo - {n}) == AlreadyRead(files, todo)[n := files[n]];
  }

  /** Reading one more file of the directory. */
  lemma OpenedMore(before: FileMap, n: string, content: Bytes, entries: Entries, json: Json)
    requires Opened(before, entries, json) && n !in before
    ensures
      var e := IndexEntry(n, content, json.blobs);
      Opened(before[n := content],
             if IsBlobName(n) && e.Some? then entries[e.value.manifest.pluginId := e.value] else entries, json)
  {
    hide IndexEntry, IsBlobName;
    var files := before[n := content];
    forall id | id in entries ensures LoadedFrom(files, id, entries[id], json) {
      var m :| m in before && IsBlobName(m) && IndexEntry(m, before[m], json.blobs) == Some(entries[id]) &&
               entries[id].manifest.pluginId == id;
      assert m in files && files[m] == before[m];
    }
    var e := IndexEntry(n, content, json.blobs);
    if IsBlobName(n) && e.Some? {
      assert n in files && files[n] == content;
      assert LoadedFrom(files, e.value.manifest.pluginId, e.value, json);
    }
  }
}
