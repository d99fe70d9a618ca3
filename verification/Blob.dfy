/** The sealed blob image: a 64-byte header, a section table and 8-aligned payloads; the
    writer `seal`, the verifying zero-copy reader `BlobRef`, and `from_sealed`. */
module Blob {
  import opened Text
  import opened Schema

  const MAGIC: Bytes := [0x4F, 0x50, 0x42, 0x4C, 0x4F, 0x42, 0x30, 0x31]
  const FORMAT_VERSION: nat := 1
  const SECTION_SCHEMA_JSON: nat := 1
  const SECTION_MANIFEST_JSON: nat := 2
  const SECTION_DESCRIPTOR_SET: nat := 3
  const SECTION_META_JSON: nat := 4
  const HEADER_LEN: nat := 64
  const ENTRY_LEN: nat := 24

  /** SHA-256 is some function to 32 bytes; nothing else about it is used. */
  type Digest = d: Bytes | |d| == 32 witness seq(32, _ => 0)
  const SHA256: Bytes -> Digest

  datatype BlobIdentity = BlobIdentity(wgPublicKey: string, keyId: string, sessionId: string)

  datatype DbusIdentity = DbusIdentity(busName: string, objectPath: string, interfaceName: string)

  datatype GrpcIdentity = GrpcIdentity(services: seq<string>, files: seq<string>)

  datatype MethodManifest = MethodManifest(
    schemaName: string,
    grpcName: string,
    grpcPath: string,
    grpcService: string,
    grpcFile: string,
    inputMessage: string,
    outputMessage: string,
    subid: string,
    requiredCapability: Option<string>,
    sideEffect: SideEffect,
    idempotent: bool,
    symbols: seq<string>)

  datatype BlobManifest = BlobManifest(
    blobType: string,
    pluginId: string,
    schemaVersion: string,
    schemaHash: string,
    dbus: DbusIdentity,
    grpc: GrpcIdentity,
    identity: Option<BlobIdentity>,
    methods: seq<MethodManifest>)

  /** JSON text of manifests: printing and parsing, assumed inverse where a lemma says so. */
  datatype ManifestJson = ManifestJson(print_: BlobManifest -> string, parse: string -> Option<BlobManifest>) {
    ghost predicate Inverse() {
      forall m :: parse(print_(m)) == Some(m)
    }
  }

  datatype PluginObjectBlob = PluginObjectBlob(
    manifest: BlobManifest,
    schemaJson: string,
    descriptorSet: Bytes,
    metaJson: string)

  /** `<plugin_id>.<hash16>.blob`; slicing a hash shorter than 16 panics. */
  function FileName(m: BlobManifest): string
    requires |m.schemaHash| >= 16
  {
    m.pluginId + "." + m.schemaHash[..16] + ".blob"
  }

  // ---------------------------------------------------------------- layout

  function Align8(n: nat): (r: nat)
    ensures n <= r < n + 8 && r % 8 == 0
  {
    (n + 7) / 8 * 8
  }

  function Zeros(n: nat): (r: Bytes)
    ensures |r| == n
  {
    seq(n, _ => 0)
  }

  datatype Section = Section(tag: nat, payload: Bytes)

  /** A section and where its payload goes. */
  datatype Placed = Placed(tag: nat, off: nat, payload: Bytes)

  function SectionsOf(b: PluginObjectBlob, json: ManifestJson): seq<Section> {
    [Section(SECTION_SCHEMA_JSON, Utf8(b.schemaJson)),
     Section(SECTION_MANIFEST_JSON, Utf8(json.print_(b.manifest))),
     Section(SECTION_DESCRIPTOR_SET, b.descriptorSet),
     Section(SECTION_META_JSON, Utf8(b.metaJson))]
  }

  function Place(sections: seq<Section>, offset: nat): (r: seq<Placed>)
    ensures |r| == |sections|
    ensures forall i | 0 <= i < |r| :: r[i].tag == sections[i].tag && r[i].payload == sections[i].payload
  {
    if sections == [] then [] else
      [Placed(sections[0].tag, offset, sections[0].payload)] +
      Place(sections[1..], Align8(offset + |sections[0].payload|))
  }

  function EntryBytes(p: Placed): (r: Bytes)
    ensures |r| == ENTRY_LEN
  {
    LittleEndian(p.tag, 4) + Zeros(4) + LittleEndian(p.off, 8) + LittleEndian(|p.payload|, 8)
  }

  function TableBytes(ps: seq<Placed>): (r: Bytes)
    ensures |r| == |ps| * ENTRY_LEN
  {
    if ps == [] then [] else TableBytes(ps[..|ps| - 1]) + EntryBytes(ps[|ps| - 1])
  }

  /** Payloads do not run into each other and none starts before `pos`. */
  predicate Spaced(ps: seq<Placed>, pos: nat) {
    ps == [] || (pos <= ps[0].off && Spaced(ps[1..], ps[0].off + |ps[0].payload|))
  }

  /** What `out` becomes when each payload in turn is appended at its offset, after zero
      padding. */
  function Written(out: Bytes, ps: seq<Placed>): (r: Bytes)
    requires Spaced(ps, |out|)
    ensures out <= r
    decreases |ps|
  {
    if ps == [] then out
    else Written(out + Zeros(ps[0].off - |out|) + ps[0].payload, ps[1..])
  }

  function Header(count: nat, digest: Digest): (r: Bytes)
    ensures |r| == HEADER_LEN
  {
    MAGIC + LittleEndian(FORMAT_VERSION, 2) + LittleEndian(count, 2) + Zeros(4) + digest + Zeros(16)
  }

  lemma {:induction false} PlacedIsSpaced(sections: seq<Section>, offset: nat, pos: nat)
    requires pos <= offset
    ensures Spaced(Place(sections, offset), pos)
  {
    if sections != [] {
      var end := offset + |sections[0].payload|;
      PlacedIsSpaced(sections[1..], Align8(end), end);
      assert Place(sections, offset)[1..] == Place(sections[1..], Align8(end));
    }
  }

  function TableEnd(sections: seq<Section>): nat { HEADER_LEN + |sections| * ENTRY_LEN }

  function Placement(sections: seq<Section>): (r: seq<Placed>)
    ensures |r| == |sections| && Spaced(r, TableEnd(sections))
  {
    PlacedIsSpaced(sections, Align8(TableEnd(sections)), TableEnd(sections));
    Place(sections, Align8(TableEnd(sections)))
  }

  function Image(sections: seq<Section>, digest: Digest): (r: Bytes)
    ensures |r| >= TableEnd(sections)
  {
    var ps := Placement(sections);
    Written(Header(|sections|, digest) + TableBytes(ps), ps)
  }

  /** `PluginObjectBlob::seal`. */
  function Seal(b: PluginObjectBlob, json: ManifestJson): (r: Bytes)
    ensures |r| >= HEADER_LEN + 4 * ENTRY_LEN
  {
    Image(SectionsOf(b, json), SHA256(Utf8(b.schemaJson)))
  }

  lemma PlaceNothing(offset: nat)
    ensures Place([], offset) == [] && EndOffset([], offset) == offset
  {
  }

  lemma PlaceUnfolds(sections: seq<Section>, offset: nat)
    requires sections != []
    ensures
      var next := Align8(offset + |sections[0].payload|);
      Place(sections, offset) == [Placed(sections[0].tag, offset, sections[0].payload)] + Place(sections[1..], next) &&
      EndOffset(sections, offset) == EndOffset(sections[1..], next)
  {
  }

  lemma {:induction false} PlaceSnoc(sections: seq<Section>, offset: nat, s: Section, next: nat)
    requires next == EndOffset(sections, offset)
    ensures Place(sections + [s], offset) == Place(sections, offset) + [Placed(s.tag, next, s.payload)]
    ensures EndOffset(sections + [s], offset) == Align8(next + |s.payload|)
  {
    hide Align8, Place, EndOffset;
    PlaceUnfolds(sections + [s], offset);
    if sections == [] {
      assert sections + [s] == [s] && [s][1..] == [];
      PlaceNothing(Align8(next + |s.payload|));
      PlaceNothing(offset);
    } else {
      var start := Align8(offset + |sections[0].payload|);
      assert (sections + [s])[1..] == sections[1..] + [s];
      PlaceUnfolds(sections, offset);
      PlaceSnoc(sections[1..], start, s, next);
      assert Place(sections, offset) + [Placed(s.tag, next, s.payload)] ==
             [Placed(sections[0].tag, offset, sections[0].payload)] +
             (Place(sections[1..], start) + [Placed(s.tag, next, s.payload)]);
    }
  }

  /** The running offset after all sections. */
  function EndOffset(sections: seq<Section>, offset: nat): nat {
    if sections == [] then offset
    else EndOffset(sections[1..], Align8(offset + |sections[0].payload|))
  }

  /** The offset loop of `seal`. */
  method PlaceSections(sections: seq<Section>) returns (entries: seq<Placed>)
    ensures entries == Placement(sections)
  {
    var offset := Align8(HEADER_LEN + |sections| * ENTRY_LEN);
    var start := offset;
    entries := [];
    for i := 0 to |sections|
      invariant entries == Place(sections[..i], start)
      invariant offset == EndOffset(sections[..i], start)
    {
      hide Place, EndOffset, Align8;
      PlaceSnoc(sections[..i], start, sections[i], offset);
      assert sections[..i + 1] == sections[..i] + [sections[i]];
      entries := entries + [Placed(sections[i].tag, offset, sections[i].payload)];
      offset := Align8(offset + |sections[i].payload|);
    }
    assert sections[..|sections|] == sections;
  }

  /** The table loop of `seal`. */
  method WriteTable(entries: seq<Placed>, header: Bytes) returns (out: Bytes)
    ensures out == header + TableBytes(entries)
  {
    hide EntryBytes;
    out := header;
    for i := 0 to |entries|
      invariant out == header + TableBytes(entries[..i])
    {
      assert entries[..i + 1][..i] == entries[..i];
      out := out + EntryBytes(entries[i]);
    }
    assert entries[..|entries|] == entries;
  }

  /** The padding loop of `seal`. */
  method PadTo(before: Bytes, off: nat) returns (out: Bytes)
    requires |before| <= off
    ensures out == before + Zeros(off - |before|)
  {
    out := before;
    while |out| < off
      invariant |before| <= |out| <= off && out == before + Zeros(|out| - |before|)
    {
      out := out + [0];
    }
  }

  /** The payload loop of `seal`. */
  method WritePayloads(entries: seq<Placed>, front: Bytes) returns (out: Bytes)
    requires Spaced(entries, |front|)
    ensures out == Written(front, entries)
  {
    out := front;
    assert entries[0..] == entries;
    for i := 0 to |entries|
      invariant Spaced(entries[i..], |out|)
      invariant Written(out, entries[i..]) == Written(front, entries)
    {
      assert entries[i..][1..] == entries[i + 1..];
      out := PadTo(out, entries[i].off);
      out := out + entries[i].payload;
    }
  }

  method SealImage(b: PluginObjectBlob, json: ManifestJson) returns (out: Bytes)
    ensures out == Seal(b, json)
  {
    hide SectionsOf, Header, TableBytes, Written;
    var sections := SectionsOf(b, json);
    var entries := PlaceSections(sections);
    out := WriteTable(entries, Header(|sections|, SHA256(Utf8(b.schemaJson))));
    out := WritePayloads(entries, out);
  }

  // ---------------------------------------------------------------- reading

  /** A row of the section table. */
  datatype Row = Row(tag: nat, off: nat, len: nat)

  /** `BlobRef`: the bytes and the table read from them, every row in bounds. */
  datatype BlobRef = BlobRef(bytes: Bytes, rows: seq<Row>)

  /** The integer in bytes `[lo, hi)`. */
  function IntAt(bytes: Bytes, lo: nat, hi: nat): nat
    requires lo <= hi <= |bytes|
  {
    FromLittleEndian(bytes[lo..hi])
  }

  function RowAt(bytes: Bytes, e: nat): Row
    requires e + ENTRY_LEN <= |bytes|
  {
    Row(IntAt(bytes, e, e + 4), IntAt(bytes, e + 8, e + 16), IntAt(bytes, e + 16, e + 24))
  }

  /** The first `n` rows of the table, if all of them stay inside the image. */
  function RowsUpTo(bytes: Bytes, n: nat): (r: Option<seq<Row>>)
    requires HEADER_LEN + n * ENTRY_LEN <= |bytes|
    ensures r.Some? ==> |r.value| == n
  {
    if n == 0 then Some([]) else
      var before :- RowsUpTo(bytes, n - 1);
      var row := RowAt(bytes, HEADER_LEN + (n - 1) * ENTRY_LEN);
      if row.off + row.len > |bytes| then None else Some(before + [row])
  }

  function FindRow(rows: seq<Row>, tag: nat): Option<Row> {
    if rows == [] then None else if rows[0].tag == tag then Some(rows[0]) else FindRow(rows[1..], tag)
  }

  /** `BlobRef::section`: the payload of the first row with this tag. */
  function SectionOf(r: BlobRef, tag: nat): Option<Bytes> {
    match FindRow(r.rows, tag)
    case Some(row) => if row.off + row.len <= |r.bytes| then Some(r.bytes[row.off..row.off + row.len]) else None
    case None => None
  }

  function StringOf(section: Option<Bytes>): Option<string> {
    match section
    case Some(b) => if ValidUtf8(b) then Some(FromUtf8Lossy(b)) else None
    case None => None
  }

  /** `BlobRef::new`: magic, version, table bounds, schema and manifest text, schema hash. */
  function Open(bytes: Bytes): Option<BlobRef> {
    if |bytes| < HEADER_LEN || bytes[..8] != MAGIC then None
    else if IntAt(bytes, 8, 10) != FORMAT_VERSION then None
    else
      var count := IntAt(bytes, 10, 12);
      if |bytes| < HEADER_LEN + count * ENTRY_LEN then None
      else
        var rows :- RowsUpTo(bytes, count);
        var blob := BlobRef(bytes, rows);
        var schema :- SectionOf(blob, SECTION_SCHEMA_JSON);
        if !ValidUtf8(schema) then None
        else
          var manifest :- SectionOf(blob, SECTION_MANIFEST_JSON);
          if !ValidUtf8(manifest) then None
          else if SHA256(schema) != bytes[16..48] then None
          else Some(blob)
  }

  method OpenImage(bytes: Bytes) returns (r: Option<BlobRef>)
    ensures r == Open(bytes)
  {
    hide IntAt;
    if |bytes| < HEADER_LEN || bytes[..8] != MAGIC { return None; }
    if IntAt(bytes, 8, 10) != FORMAT_VERSION { return None; }
    var count := IntAt(bytes, 10, 12);
    if |bytes| < HEADER_LEN + count * ENTRY_LEN { return None; }
    var rows := [];
    for i := 0 to count
      invariant RowsUpTo(bytes, i) == Some(rows)
    {
      hide RowAt;
      var row := RowAt(bytes, HEADER_LEN + i * ENTRY_LEN);
      if row.off + row.len > |bytes| {
        RowsFailLater(bytes, i + 1, count);
        return None;
      }
      rows := rows + [row];
    }
    hide SectionOf, RowsUpTo, ValidUtf8;
    var blob := BlobRef(bytes, rows);
    var schema := SectionOf(blob, SECTION_SCHEMA_JSON);
    if schema.None? || !ValidUtf8(schema.value) { return None; }
    var manifest := SectionOf(blob, SECTION_MANIFEST_JSON);
    if manifest.None? || !ValidUtf8(manifest.value) { return None; }
    if SHA256(schema.value) != bytes[16..48] { return None; }
    return Some(blob);
  }

  lemma RowsFailLater(bytes: Bytes, i: nat, n: nat)
    requires i <= n && HEADER_LEN + n * ENTRY_LEN <= |bytes| && RowsUpTo(bytes, i).None?
    ensures RowsUpTo(bytes, n).None?
  {
    hide RowAt;
    if i < n { RowsFailLater(bytes, i, n - 1); }
  }

  function SchemaJson(r: BlobRef): string { StringOf(SectionOf(r, SECTION_SCHEMA_JSON)).GetOr("") }

  function ManifestOf(r: BlobRef, json: ManifestJson): Option<BlobManifest> {
    json.parse(StringOf(SectionOf(r, SECTION_MANIFEST_JSON)).GetOr(""))
  }

  function DescriptorSetOf(r: BlobRef): Bytes { SectionOf(r, SECTION_DESCRIPTOR_SET).GetOr([]) }

  function FromSealed(bytes: Bytes, json: ManifestJson): Option<PluginObjectBlob> {
    var r :- Open(bytes);
    var manifest :- ManifestOf(r, json);
    Some(PluginObjectBlob(manifest, SchemaJson(r), DescriptorSetOf(r),
                          StringOf(SectionOf(r, SECTION_META_JSON)).GetOr("{}")))
  }

  // ---------------------------------------------------------------- round trip

  lemma AtExtends(buf: Bytes, more: Bytes, pos: nat, x: Bytes)
    requires buf <= more && At(buf, pos, x)
    ensures At(more, pos, x)
  {
    assert more[pos..pos + |x|] == buf[pos..pos + |x|];
  }

  /** Every payload is found at its offset. */
  lemma {:induction false} PayloadIsAt(out: Bytes, ps: seq<Placed>, i: nat)
    requires Spaced(ps, |out|) && i < |ps|
    ensures At(Written(out, ps), ps[i].off, ps[i].payload)
    decreases |ps|
  {
    var next := out + Zeros(ps[0].off - |out|) + ps[0].payload;
    if i == 0 {
      assert At(next, ps[0].off, ps[0].payload);
      AtExtends(next, Written(next, ps[1..]), ps[0].off, ps[0].payload);
    } else {
      PayloadIsAt(next, ps[1..], i - 1);
    }
  }

  lemma {:induction false} EntryIsAt(front: Bytes, ps: seq<Placed>, i: nat)
    requires i < |ps|
    ensures At(front + TableBytes(ps), |front| + i * ENTRY_LEN, EntryBytes(ps[i]))
  {
    hide EntryBytes;
    var init := ps[..|ps| - 1];
    var b := front + TableBytes(ps);
    assert b == (front + TableBytes(init)) + EntryBytes(ps[|ps| - 1]);
    if i < |init| {
      EntryIsAt(front, init, i);
      AtExtends(front + TableBytes(init), b, |front| + i * ENTRY_LEN, EntryBytes(ps[i]));
    }
  }

  /** Section ranges start 8-aligned, follow each other without overlap, and stay below
      `limit`. */
  predicate Laid(ps: seq<Placed>, limit: nat) {
    (forall i | 0 <= i < |ps| :: ps[i].off % 8 == 0 && ps[i].off + |ps[i].payload| <= limit) &&
    forall i, j | 0 <= i < j < |ps| :: ps[i].off + |ps[i].payload| <= ps[j].off
  }

  lemma {:induction false} PlacedAfter(sections: seq<Section>, offset: nat, i: nat)
    requires i < |sections| && offset % 8 == 0
    ensures offset <= Place(sections, offset)[i].off && Place(sections, offset)[i].off % 8 == 0
    ensures i > 0 ==> offset + |sections[0].payload| <= Place(sections, offset)[i].off
  {
    if i > 0 { PlacedAfter(sections[1..], Align8(offset + |sections[0].payload|), i - 1); }
  }

  lemma {:induction false} PlacedDisjoint(sections: seq<Section>, offset: nat, i: nat, j: nat)
    requires i < j < |sections| && offset % 8 == 0
    ensures
      var ps := Place(sections, offset);
      ps[i].off + |ps[i].payload| <= ps[j].off
  {
    if i == 0 {
      PlacedAfter(sections, offset, j);
    } else {
      var next := Align8(offset + |sections[0].payload|);
      var ps, rest := Place(sections, offset), Place(sections[1..], next);
      assert ps[i] == rest[i - 1] && ps[j] == rest[j - 1];
      hide Place, Align8;
      PlacedDisjoint(sections[1..], next, i - 1, j - 1);
    }
  }

  /** Ranges of an image: 8-aligned, pairwise disjoint, in bounds. */
  lemma ImageIsLaid(sections: seq<Section>, digest: Digest)
    ensures Laid(Placement(sections), |Image(sections, digest)|)
  {
    var ps, start := Placement(sections), Align8(TableEnd(sections));
    var front := Header(|sections|, digest) + TableBytes(ps);
    forall i | 0 <= i < |ps| ensures ps[i].off % 8 == 0 && ps[i].off + |ps[i].payload| <= |Image(sections, digest)| {
      PlacedAfter(sections, start, i);
      PayloadIsAt(front, ps, i);
    }
    forall i, j | 0 <= i < j < |ps| ensures ps[i].off + |ps[i].payload| <= ps[j].off {
      PlacedDisjoint(sections, start, i, j);
    }
  }

  lemma Pow256Values()
    ensures Pow256(2) == 0x1_0000 && Pow256(4) == U32 && Pow256(8) == U64
  {
    assert Pow256(4) == 256 * 256 * Pow256(2);
    assert Pow256(8) == 256 * 256 * 256 * 256 * Pow256(4) by {
      assert Pow256(6) == 256 * 256 * Pow256(4);
      assert Pow256(8) == 256 * 256 * Pow256(6);
    }
  }

  lemma RowReadsBack(bytes: Bytes, e: nat, p: Placed)
    requires At(bytes, e, EntryBytes(p))
    requires p.tag < U32 && p.off < U64 && |p.payload| < U64
    ensures RowAt(bytes, e) == Row(p.tag, p.off, |p.payload|)
  {
    var tag, zeros, off, len := LittleEndian(p.tag, 4), Zeros(4), LittleEndian(p.off, 8), LittleEndian(|p.payload|, 8);
    AtSplit(bytes, e, tag + zeros + off, len);
    AtSplit(bytes, e, tag + zeros, off);
    AtSplit(bytes, e, tag, zeros);
    Pow256Values();
    LittleEndianRoundTrip(p.tag, 4);
    LittleEndianRoundTrip(p.off, 8);
    LittleEndianRoundTrip(|p.payload|, 8);
  }

  function RowsOf(ps: seq<Placed>): (r: seq<Row>)
    ensures |r| == |ps|
  {
    seq(|ps|, i requires 0 <= i < |ps| => Row(ps[i].tag, ps[i].off, |ps[i].payload|))
  }

  lemma HeaderReadsBack(bytes: Bytes, count: nat, digest: Digest)
    requires count < 0x1_0000 && At(bytes, 0, Header(count, digest))
    ensures bytes[..8] == MAGIC && IntAt(bytes, 8, 10) == FORMAT_VERSION && IntAt(bytes, 10, 12) == count
    ensures bytes[16..48] == digest
  {
    var v, c := LittleEndian(FORMAT_VERSION, 2), LittleEndian(count, 2);
    AtSplit(bytes, 0, MAGIC + v + c + Zeros(4) + digest, Zeros(16));
    AtSplit(bytes, 0, MAGIC + v + c + Zeros(4), digest);
    AtSplit(bytes, 0, MAGIC + v + c, Zeros(4));
    AtSplit(bytes, 0, MAGIC + v, c);
    AtSplit(bytes, 0, MAGIC, v);
    Pow256Values();
    LittleEndianRoundTrip(FORMAT_VERSION, 2);
    LittleEndianRoundTrip(count, 2);
  }

  lemma RowOfImage(sections: seq<Section>, digest: Digest, i: nat)
    requires |Image(sections, digest)| < U64 && i < |sections| && sections[i].tag < U32
    ensures TableEnd(sections) <= |Image(sections, digest)|
    ensures RowAt(Image(sections, digest), HEADER_LEN + i * ENTRY_LEN) == RowsOf(Placement(sections))[i]
  {
    hide EntryBytes, TableBytes, Written, RowAt, Laid, Header, Place;
    var ps, header := Placement(sections), Header(|sections|, digest);
    var front := header + TableBytes(ps);
    EntryIsAt(header, ps, i);
    AtExtends(front, Image(sections, digest), HEADER_LEN + i * ENTRY_LEN, EntryBytes(ps[i]));
    RowFits(sections, digest, i);
    RowReadsBack(Image(sections, digest), HEADER_LEN + i * ENTRY_LEN, ps[i]);
  }

  lemma RowFits(sections: seq<Section>, digest: Digest, i: nat)
    requires i < |sections|
    ensures var p := Placement(sections)[i]; p.off + |p.payload| <= |Image(sections, digest)|
  {
    ImageIsLaid(sections, digest);
  }

  lemma {:induction false} RowsAgree(bytes: Bytes, rows: seq<Row>, n: nat)
    requires n <= |rows| && HEADER_LEN + |rows| * ENTRY_LEN <= |bytes|
    requires forall i | 0 <= i < n ::
               RowAt(bytes, HEADER_LEN + i * ENTRY_LEN) == rows[i] && rows[i].off + rows[i].len <= |bytes|
    ensures RowsUpTo(bytes, n) == Some(rows[..n])
  {
    hide RowAt;
    if n > 0 {
      RowsAgree(bytes, rows, n - 1);
      assert rows[..n] == rows[..n - 1] + [rows[n - 1]];
    }
  }

  /** The table of an image reads back row for row. */
  lemma RowsReadBack(sections: seq<Section>, digest: Digest)
    requires |Image(sections, digest)| < U64 && forall i | 0 <= i < |sections| :: sections[i].tag < U32
    ensures TableEnd(sections) <= |Image(sections, digest)|
    ensures RowsUpTo(Image(sections, digest), |sections|) == Some(RowsOf(Placement(sections)))
  {
    hide Image, RowAt, Place;
    var rows := RowsOf(Placement(sections));
    HeaderIsPrefix(sections, digest);
    forall i | 0 <= i < |sections|
      ensures RowAt(Image(sections, digest), HEADER_LEN + i * ENTRY_LEN) == rows[i]
      ensures rows[i].off + rows[i].len <= |Image(sections, digest)|
    {
      RowOfImage(sections, digest, i);
      RowFits(sections, digest, i);
    }
    RowsAgree(Image(sections, digest), rows, |sections|);
    assert rows[..|sections|] == rows;
  }

  lemma HeaderIsPrefix(sections: seq<Section>, digest: Digest)
    ensures TableEnd(sections) <= |Image(sections, digest)| &&
            At(Image(sections, digest), 0, Header(|sections|, digest))
  {
    var ps, header := Placement(sections), Header(|sections|, digest);
    assert header <= header + TableBytes(ps);
    AtExtends(header, Image(sections, digest), 0, header);
  }

  lemma {:induction false} FirstRowWins(rows: seq<Row>, i: nat)
    requires i < |rows| && forall j | 0 <= j < i :: rows[j].tag != rows[i].tag
    ensures FindRow(rows, rows[i].tag) == Some(rows[i])
  {
    if i > 0 { FirstRowWins(rows[1..], i - 1); }
  }

  /** The view every sealed image opens to. */
  function SealedRef(b: PluginObjectBlob, json: ManifestJson): BlobRef {
    BlobRef(Seal(b, json), RowsOf(Placement(SectionsOf(b, json))))
  }

  lemma SectionReadsBack(b: PluginObjectBlob, json: ManifestJson, i: nat)
    requires |Seal(b, json)| < U64 && i < 4
    ensures SectionOf(SealedRef(b, json), i + 1) == Some(SectionsOf(b, json)[i].payload)
  {
    var sections, digest := SectionsOf(b, json), SHA256(Utf8(b.schemaJson));
    var ps := Placement(sections);
    hide Place, Written, TableBytes, Header, Utf8;
    FirstRowWins(RowsOf(ps), i);
    PayloadIsAt(Header(|sections|, digest) + TableBytes(ps), ps, i);
  }

  /** Any image laid out like a sealed one with these four sections yields them back. */
  lemma SectionsReadBack(b: PluginObjectBlob, json: ManifestJson)
    requires |Seal(b, json)| < U64
    ensures
      var r := SealedRef(b, json);
      SectionOf(r, SECTION_SCHEMA_JSON) == Some(Utf8(b.schemaJson)) &&
      SectionOf(r, SECTION_MANIFEST_JSON) == Some(Utf8(json.print_(b.manifest))) &&
      SectionOf(r, SECTION_DESCRIPTOR_SET) == Some(b.descriptorSet) &&
      SectionOf(r, SECTION_META_JSON) == Some(Utf8(b.metaJson))
  {
    hide Seal, SectionOf, SealedRef;
    SectionReadsBack(b, json, 0);
    SectionReadsBack(b, json, 1);
    SectionReadsBack(b, json, 2);
    SectionReadsBack(b, json, 3);
  }

  /** Every sealed image opens, and each section comes back exactly. */
  lemma SealOpens(b: PluginObjectBlob, json: ManifestJson)
    requires |Seal(b, json)| < U64
    ensures Open(Seal(b, json)) == Some(SealedRef(b, json))
    ensures Laid(Placement(SectionsOf(b, json)), |Seal(b, json)|)
  {
    var sections, digest := SectionsOf(b, json), SHA256(Utf8(b.schemaJson));
    HeaderIsPrefix(sections, digest);
    HeaderReadsBack(Seal(b, json), 4, digest);
    RowsReadBack(sections, digest);
    ImageIsLaid(sections, digest);
    SectionsReadBack(b, json);
    Utf8RoundTrip(b.schemaJson);
    Utf8RoundTrip(json.print_(b.manifest));
  }

  lemma SealRoundTrip(b: PluginObjectBlob, json: ManifestJson)
    requires json.Inverse() && |Seal(b, json)| < U64
    ensures FromSealed(Seal(b, json), json) == Some(b)
  {
    hide Open, SectionOf, Seal, Place;
    SealOpens(b, json);
    SectionsReadBack(b, json);
    Utf8RoundTrip(b.schemaJson);
    Utf8RoundTrip(json.print_(b.manifest));
    Utf8RoundTrip(b.metaJson);
  }

  // ---------------------------------------------------------------- altered images

  /** The same bytes except in `[lo, hi)`. */
  predicate SameOutside(a: Bytes, b: Bytes, lo: nat, hi: nat) {
    lo <= hi <= |a| == |b| && a[..lo] == b[..lo] && a[hi..] == b[hi..]
  }

  lemma SliceOutside(a: Bytes, b: Bytes, lo: nat, hi: nat, i: nat, j: nat)
    requires SameOutside(a, b, lo, hi) && i <= j <= |a| && (j <= lo || hi <= i)
    ensures a[i..j] == b[i..j]
  {
    if j <= lo {
      assert a[i..j] == a[..lo][i..j] && b[i..j] == b[..lo][i..j];
    } else {
      forall k | i <= k < j ensures a[k] == b[k] { assert a[k] == a[hi..][k - hi] && b[k] == b[hi..][k - hi]; }
    }
  }

  lemma {:induction false} RowsOutside(a: Bytes, b: Bytes, lo: nat, hi: nat, n: nat)
    requires SameOutside(a, b, lo, hi) && HEADER_LEN + n * ENTRY_LEN <= |a|
    requires hi <= HEADER_LEN || HEADER_LEN + n * ENTRY_LEN <= lo
    ensures RowsUpTo(a, n) == RowsUpTo(b, n)
  {
    if n > 0 {
      RowsOutside(a, b, lo, hi, n - 1);
      var e := HEADER_LEN + (n - 1) * ENTRY_LEN;
      SliceOutside(a, b, lo, hi, e, e + 4);
      SliceOutside(a, b, lo, hi, e + 8, e + 16);
      SliceOutside(a, b, lo, hi, e + 16, e + 24);
    }
  }

  /** The header fields and the table of a sealed image survive a change outside them. */
  lemma FrontSurvives(b: PluginObjectBlob, json: ManifestJson, bytes: Bytes, lo: nat, hi: nat)
    requires |Seal(b, json)| < U64 && SameOutside(Seal(b, json), bytes, lo, hi)
    requires 12 <= lo <= hi <= 16 || HEADER_LEN + 4 * ENTRY_LEN <= lo
    ensures bytes[..8] == MAGIC && IntAt(bytes, 8, 10) == FORMAT_VERSION && IntAt(bytes, 10, 12) == 4
    ensures bytes[16..48] == SHA256(Utf8(b.schemaJson))
    ensures RowsUpTo(bytes, 4) == Some(RowsOf(Placement(SectionsOf(b, json))))
  {
    hide RowsUpTo, Image, Place;
    var sealed, sections, digest := Seal(b, json), SectionsOf(b, json), SHA256(Utf8(b.schemaJson));
    SliceOutside(sealed, bytes, lo, hi, 0, 8);
    SliceOutside(sealed, bytes, lo, hi, 8, 10);
    SliceOutside(sealed, bytes, lo, hi, 10, 12);
    SliceOutside(sealed, bytes, lo, hi, 16, 48);
    RowsOutside(sealed, bytes, lo, hi, 4);
    HeaderIsPrefix(sections, digest);
    HeaderReadsBack(sealed, 4, digest);
    RowsReadBack(sections, digest);
  }

  lemma SectionSurvives(b: PluginObjectBlob, json: ManifestJson, bytes: Bytes, lo: nat, hi: nat, tag: nat)
    requires |Seal(b, json)| < U64 && SameOutside(Seal(b, json), bytes, lo, hi) && 1 <= tag <= 4
    requires var p := Placement(SectionsOf(b, json))[tag - 1]; hi <= p.off || p.off + |p.payload| <= lo
    ensures
      var rows := RowsOf(Placement(SectionsOf(b, json)));
      SectionOf(BlobRef(bytes, rows), tag) == SectionOf(BlobRef(Seal(b, json), rows), tag)
  {
    hide Place, Written, Header, Image, Align8;
    var sections := SectionsOf(b, json);
    var rows := RowsOf(Placement(sections));
    FirstRowWins(rows, tag - 1);
    assert FindRow(rows, tag) == Some(rows[tag - 1]);
    hide FindRow, SectionsOf;
    RowFits(sections, SHA256(Utf8(b.schemaJson)), tag - 1);
    SliceOutside(Seal(b, json), bytes, lo, hi, rows[tag - 1].off, rows[tag - 1].off + rows[tag - 1].len);
  }

  lemma PayloadsFollowTable(b: PluginObjectBlob, json: ManifestJson, i: nat)
    requires i < 4
    ensures HEADER_LEN + 4 * ENTRY_LEN <= Placement(SectionsOf(b, json))[i].off
  {
    var sections := SectionsOf(b, json);
    PlacedAfter(sections, Align8(TableEnd(sections)), i);
  }

  /** `from_sealed(b).seal() == b` is documented for every readable image, but the reserved
      header bytes are not read: an image with one set unseals, and re-seals differently. */
  lemma ReservedByteIsLost(b: PluginObjectBlob, json: ManifestJson, x: Byte)
    requires json.Inverse() && |Seal(b, json)| < U64 && x != 0
    ensures
      var bytes := Seal(b, json)[12 := x];
      FromSealed(bytes, json) == Some(b) && Seal(b, json) != bytes
  {
    hide Image, SectionOf, Place, SectionsOf, RowsUpTo;
    var sealed := Seal(b, json);
    var bytes := sealed[12 := x];
    SealOpens(b, json);
    SealRoundTrip(b, json);
    FrontSurvives(b, json, bytes, 12, 13);
    PayloadsFollowTable(b, json, 0);
    PayloadsFollowTable(b, json, 1);
    PayloadsFollowTable(b, json, 2);
    PayloadsFollowTable(b, json, 3);
    SectionSurvives(b, json, bytes, 12, 13, 1);
    SectionSurvives(b, json, bytes, 12, 13, 2);
    SectionSurvives(b, json, bytes, 12, 13, 3);
    SectionSurvives(b, json, bytes, 12, 13, 4);
    assert bytes[12] == x;
    ReservedByteIsZero(b, json);
  }

  lemma ReservedByteIsZero(b: PluginObjectBlob, json: ManifestJson)
    ensures Seal(b, json)[12] == 0
  {
    hide Written, Place, SectionsOf;
    var digest := SHA256(Utf8(b.schemaJson));
    HeaderIsPrefix(SectionsOf(b, json), digest);
    var header := Header(|SectionsOf(b, json)|, digest);
    assert Seal(b, json)[0..64] == header && header[12] == 0;
  }

  /** Replacing the schema text of a sealed image by other bytes of the same length is
      caught, unless the new text is UTF-8 with the very same SHA-256. */
  lemma TamperingIsCaught(b: PluginObjectBlob, json: ManifestJson, bytes: Bytes)
    requires |Seal(b, json)| < U64
    requires var p := Placement(SectionsOf(b, json))[0]; SameOutside(Seal(b, json), bytes, p.off, p.off + |p.payload|)
    ensures
      var p := Placement(SectionsOf(b, json))[0];
      var text := bytes[p.off..p.off + |p.payload|];
      Open(bytes).Some? <==> ValidUtf8(text) && SHA256(text) == SHA256(Utf8(b.schemaJson))
  {
    hide Image, Place, SectionsOf, RowsUpTo, ValidUtf8;
    var ps := Placement(SectionsOf(b, json));
    TagsAreInOrder(b, json);
    PayloadsFollowTable(b, json, 0);
    FrontSurvives(b, json, bytes, ps[0].off, ps[0].off + |ps[0].payload|);
    SealOpens(b, json);
    assert ps[0].off + |ps[0].payload| <= ps[1].off;
    SectionSurvives(b, json, bytes, ps[0].off, ps[0].off + |ps[0].payload|, 2);
    FirstRowWins(RowsOf(ps), 0);
  }

  lemma TagsAreInOrder(b: PluginObjectBlob, json: ManifestJson)
    ensures |SectionsOf(b, json)| == 4
    ensures forall i | 0 <= i < 4 :: RowsOf(Placement(SectionsOf(b, json)))[i].tag == i + 1
  {
  }
}
