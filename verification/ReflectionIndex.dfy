/** `index_entry`: a sealed image turned into an active entry whose descriptor files are
    absolute ranges of the image, and the lookups that serve them without copying. */
module ReflectionIndex {
  import opened Text
  import opened Summaries
  import opened Blob

  /** `path` is the file's name inside the catalog directory. */
  datatype Entry = Entry(
    path: string,
    bytes: Bytes,
    manifest: BlobManifest,
    files: map<string, (nat, nat)>,
    symbols: map<string, string>)

  // ---------------------------------------------------------------- indexing

  /** Where the descriptor section starts in the image. */
  function SetStart(r: BlobRef): nat {
    match FindRow(r.rows, SECTION_DESCRIPTOR_SET) case Some(row) => row.off case None => 0
  }

  /** File name to (offset, length); of files with one name the last stays. */
  function FileMap(fs: seq<FileSummary>, start: nat, n: nat): map<string, (nat, nat)>
    requires n <= |fs| && forall f | f in fs :: f.lo <= f.hi
  {
    if n == 0 then map[] else
      var f := fs[n - 1];
      assert f in fs;
      FileMap(fs, start, n - 1)[f.names.name := (start + f.lo, f.hi - f.lo)]
  }

  /** Symbol to file name, over the first `n` symbols of one method. */
  function AddSymbols(before: map<string, string>, m: MethodManifest, n: nat): map<string, string>
    requires n <= |m.symbols|
  {
    if n == 0 then before else AddSymbols(before, m, n - 1)[m.symbols[n - 1] := m.grpcFile]
  }

  function SymbolMap(ms: seq<MethodManifest>, n: nat): map<string, string>
    requires n <= |ms|
  {
    if n == 0 then map[] else AddSymbols(SymbolMap(ms, n - 1), ms[n - 1], |ms[n - 1].symbols|)
  }

  /** The entry of an image, or nothing when it does not open, has no readable manifest or
      no decodable descriptor set. */
  function IndexEntry(path: string, bytes: Bytes, json: ManifestJson): Option<Entry> {
    var blob :- Open(bytes);
    var manifest :- ManifestOf(blob, json);
    var set_ := DescriptorSetOf(blob);
    var fs :- FilesAt(set_, 0);
    SlicesInOrder(set_, 0);
    Some(Entry(path, bytes, manifest, FileMap(fs, SetStart(blob), |fs|),
               SymbolMap(manifest.methods, |manifest.methods|)))
  }

  method BuildIndex(path: string, bytes: Bytes, json: ManifestJson) returns (r: Option<Entry>)
    ensures r == IndexEntry(path, bytes, json)
  {
    hide Open, ManifestOf, DescriptorSetOf, FilesAt, SetStart;
    var blob := OpenImage(bytes);
    if blob.None? { return None; }
    var manifest := ManifestOf(blob.value, json);
    if manifest.None? { return None; }
    var set_ := DescriptorSetOf(blob.value);
    var start := SetStart(blob.value);
    var fs := DecodeFileSummaries(set_);
    if fs.None? { return None; }
    SlicesInOrder(set_, 0);
    var files := map[];
    for i := 0 to |fs.value|
      invariant files == FileMap(fs.value, start, i)
    {
      var f := fs.value[i];
      files := files[f.names.name := (start + f.lo, f.hi - f.lo)];
    }
    var methods := manifest.value.methods;
    var symbols := map[];
    for i := 0 to |methods|
      invariant symbols == SymbolMap(methods, i)
    {
      for j := 0 to |methods[i].symbols|
        invariant symbols == AddSymbols(SymbolMap(methods, i), methods[i], j)
      {
        symbols := symbols[methods[i].symbols[j] := methods[i].grpcFile];
      }
    }
    return Some(Entry(path, bytes, manifest.value, files, symbols));
  }

  // ---------------------------------------------------------------- lookups

  /** Every recorded range lies inside the image. */
  predicate InBounds(e: Entry) {
    forall f | f in e.files :: e.files[f].0 + e.files[f].1 <= |e.bytes|
  }

  function FileIn(e: Entry, filename: string): Option<Bytes>
    requires InBounds(e)
  {
    if filename in e.files then
      var (off, len) := e.files[filename];
      Some(e.bytes[off..off + len])
    else None
  }

  function SymbolIn(e: Entry, symbol: string): Option<Bytes>
    requires InBounds(e)
  {
    if symbol in e.symbols then FileIn(e, e.symbols[symbol]) else None
  }

  /** The descriptor section is a range of the image. */
  lemma SetIsInImage(r: BlobRef)
    requires DescriptorSetOf(r) != []
    ensures At(r.bytes, SetStart(r), DescriptorSetOf(r))
  {
  }

  lemma {:induction false} FileMapRanges(fs: seq<FileSummary>, start: nat, n: nat, f: string)
    requires n <= |fs| && (forall f | f in fs :: f.lo <= f.hi) && f in FileMap(fs, start, n)
    ensures exists i :: 0 <= i < n && fs[i].names.name == f && (forall j | i < j < n :: fs[j].names.name != f) &&
                        FileMap(fs, start, n)[f] == (start + fs[i].lo, fs[i].hi - fs[i].lo)
  {
    if fs[n - 1].names.name == f {
      assert fs[n - 1] in fs;
    } else {
      FileMapRanges(fs, start, n - 1, f);
    }
  }

  lemma {:induction false} FileMapDomain(fs: seq<FileSummary>, start: nat, n: nat, i: nat)
    requires i < n <= |fs| && forall f | f in fs :: f.lo <= f.hi
    ensures fs[i].names.name in FileMap(fs, start, n)
  {
    if i < n - 1 { FileMapDomain(fs, start, n - 1, i); }
  }

  lemma {:induction false} AddedSymbols(before: map<string, string>, m: MethodManifest, n: nat, s: string)
    requires n <= |m.symbols|
    ensures s in AddSymbols(before, m, n) <==> s in before || s in m.symbols[..n]
    ensures s in m.symbols[..n] ==> AddSymbols(before, m, n)[s] == m.grpcFile
    ensures s !in m.symbols[..n] && s in before ==> AddSymbols(before, m, n)[s] == before[s]
  {
    if n > 0 {
      AddedSymbols(before, m, n - 1, s);
      assert m.symbols[..n] == m.symbols[..n - 1] + [m.symbols[n - 1]];
    }
  }

  /** A symbol is recorded exactly when some method lists it, with a file of such a method. */
  lemma {:induction false} RecordedSymbol(ms: seq<MethodManifest>, n: nat, s: string)
    requires n <= |ms|
    ensures s in SymbolMap(ms, n) <==> exists i :: 0 <= i < n && s in ms[i].symbols
    ensures s in SymbolMap(ms, n) ==>
              exists i :: 0 <= i < n && s in ms[i].symbols && SymbolMap(ms, n)[s] == ms[i].grpcFile
  {
    if n > 0 {
      RecordedSymbol(ms, n - 1, s);
      var m := ms[n - 1];
      AddedSymbols(SymbolMap(ms, n - 1), m, |m.symbols|, s);
      assert m.symbols[..|m.symbols|] == m.symbols;
    }
  }

  /** Whatever the image, an entry serves only bytes of that image. */
  lemma IndexIsInBounds(path: string, bytes: Bytes, json: ManifestJson)
    requires IndexEntry(path, bytes, json).Some?
    ensures InBounds(IndexEntry(path, bytes, json).value)
  {
    var e := IndexEntry(path, bytes, json).value;
    var blob := Open(bytes).value;
    hide Open;
    var set_ := DescriptorSetOf(blob);
    var fs := FilesAt(set_, 0).value;
    hide FilesAt;
    SlicesInOrder(set_, 0);
    forall f | f in e.files ensures e.files[f].0 + e.files[f].1 <= |e.bytes| {
      FileMapRanges(fs, SetStart(blob), |fs|, f);
      SetIsInImage(blob);
    }
  }

  /** Indexing a sealed blob succeeds exactly when its descriptor set decodes; the entry
      keeps the manifest that was sealed and indexes the set that was sealed. */
  lemma SealedIsIndexed(path: string, b: PluginObjectBlob, json: ManifestJson)
    requires json.Inverse() && |Seal(b, json)| < U64
    ensures DescriptorSetOf(SealedRef(b, json)) == b.descriptorSet
    ensures FilesAt(b.descriptorSet, 0).None? ==> IndexEntry(path, Seal(b, json), json).None?
    ensures FilesAt(b.descriptorSet, 0).Some? ==>
              (forall f | f in FilesAt(b.descriptorSet, 0).value :: f.lo <= f.hi) &&
              var fs := FilesAt(b.descriptorSet, 0).value;
              IndexEntry(path, Seal(b, json), json) ==
              Some(Entry(path, Seal(b, json), b.manifest, FileMap(fs, SetStart(SealedRef(b, json)), |fs|),
                         SymbolMap(b.manifest.methods, |b.manifest.methods|)))
  {
    hide Open, SectionOf, Seal, Placement, FilesAt, FileMap, SymbolMap, SetStart;
    SealOpens(b, json);
    SectionsReadBack(b, json);
    Utf8RoundTrip(json.print_(b.manifest));
    if FilesAt(b.descriptorSet, 0).Some? { SlicesInOrder(b.descriptorSet, 0); }
  }
}
