/** Which readable images come back byte for byte when they are unsealed and sealed again. */
module Resealing {
  import opened Text
  import opened Blob

  // ---------------------------------------------------------------- the condition

  predicate ZeroRange(bytes: Bytes, lo: nat, hi: nat) {
    lo <= hi <= |bytes| && forall k | lo <= k < hi :: bytes[k] == 0
  }

  function EntryStart(i: nat): nat { HEADER_LEN + i * ENTRY_LEN }

  /** Where the first payload goes: behind the header and four rows, a multiple of eight. */
  const PAYLOADS: nat := 160

  function End(r: Row): nat { r.off + r.len }

  /** Four sections, and zeros wherever nothing is read. */
  predicate CanonicalHeader(bytes: Bytes)
    requires |bytes| >= PAYLOADS
  {
    IntAt(bytes, 10, 12) == 4 && ZeroRange(bytes, 12, 16) && ZeroRange(bytes, 48, 64)
  }

  /** The tags 1 to 4 in order, with zero reserved words. */
  predicate CanonicalTable(bytes: Bytes, rows: seq<Row>)
    requires |rows| == 4
  {
    forall i | 0 <= i < 4 :: rows[i].tag == i + 1 && ZeroRange(bytes, EntryStart(i) + 4, EntryStart(i) + 8)
  }

  /** Each payload at the next multiple of eight, zeros between, nothing behind the last. */
  predicate CanonicalPayloads(bytes: Bytes, rows: seq<Row>)
    requires |rows| == 4
  {
    rows[0].off == PAYLOADS &&
    (forall i | 0 <= i < 3 ::
       rows[i + 1].off == Align8(End(rows[i])) && ZeroRange(bytes, End(rows[i]), rows[i + 1].off)) &&
    End(rows[3]) == |bytes|
  }

  /** The metadata is UTF-8 and the manifest is the printed form of what it parses to. */
  predicate CanonicalTexts(bytes: Bytes, rows: seq<Row>, json: ManifestJson)
    requires |rows| == 4 && End(rows[1]) <= |bytes| && End(rows[3]) <= |bytes|
  {
    var manifest := bytes[rows[1].off..End(rows[1])];
    var parsed := json.parse(FromUtf8Lossy(manifest));
    ValidUtf8(bytes[rows[3].off..End(rows[3])]) && parsed.Some? && manifest == Utf8(json.print_(parsed.value))
  }

  /** What a caller can check of a readable image before unsealing it. */
  predicate CanonicalImage(bytes: Bytes, json: ManifestJson) {
    |bytes| >= PAYLOADS && CanonicalHeader(bytes) &&
    var rows := RowsUpTo(bytes, 4);
    rows.Some? && End(rows.value[1]) <= |bytes| && End(rows.value[3]) <= |bytes| &&
    CanonicalTable(bytes, rows.value) && CanonicalPayloads(bytes, rows.value) && CanonicalTexts(bytes, rows.value, json)
  }

  // ---------------------------------------------------------------- bytes and what they mean

  lemma {:induction false} LittleEndianOfValue(b: Bytes)
    ensures LittleEndian(FromLittleEndian(b), |b|) == b
  {
    if b != [] {
      LittleEndianOfValue(b[1..]);
      LowByte(b[0], FromLittleEndian(b[1..]));
    }
  }

  lemma LowByte(low: Byte, rest: nat)
    ensures (low + 256 * rest) % 256 == low && (low + 256 * rest) / 256 == rest
  {
  }

  lemma EncodeDecodedChar(b: Bytes)
    requires b != [] && DecodeChar(b).Some?
    ensures EncodeChar(DecodeChar(b).value.0) == b[..DecodeChar(b).value.1]
  {
    var (c, n) := DecodeChar(b).value;
    if n == 2 {
      assert b[..2] == [b[0], b[1]];
    } else if n == 3 {
      ThreeByteChar(b[0], b[1], b[2]);
      assert b[..3] == [b[0], b[1], b[2]];
    } else if n == 4 {
      FourByteChar(b[0], b[1], b[2], b[3]);
      assert b[..4] == [b[0], b[1], b[2], b[3]];
    }
  }

  lemma ThreeByteChar(b0: Byte, b1: Byte, b2: Byte)
    requires 0xE0 <= b0 < 0xF0 && 0x80 <= b1 < 0xC0 && 0x80 <= b2 < 0xC0
    ensures
      var n := (b0 as int - 0xE0) * 4096 + (b1 as int - 0x80) * 64 + (b2 as int - 0x80);
      0xE0 + n / 64 / 64 == b0 && 0x80 + n / 64 % 64 == b1 && 0x80 + n % 64 == b2
  {
    var x, y, z := b0 as int - 0xE0, b1 as int - 0x80, b2 as int - 0x80;
    var n := x * 4096 + y * 64 + z;
    assert n == (x * 64 + y) * 64 + z && n / 64 == x * 64 + y;
  }

  lemma FourByteChar(b0: Byte, b1: Byte, b2: Byte, b3: Byte)
    requires 0xF0 <= b0 < 0xF5 && 0x80 <= b1 < 0xC0 && 0x80 <= b2 < 0xC0 && 0x80 <= b3 < 0xC0
    ensures
      var n := (b0 as int - 0xF0) * 262144 + (b1 as int - 0x80) * 4096 + (b2 as int - 0x80) * 64 + (b3 as int - 0x80);
      0xF0 + n / 64 / 64 / 64 == b0 && 0x80 + n / 64 / 64 % 64 == b1 && 0x80 + n / 64 % 64 == b2 && 0x80 + n % 64 == b3
  {
    var w, x, y, z := b0 as int - 0xF0, b1 as int - 0x80, b2 as int - 0x80, b3 as int - 0x80;
    var n := w * 262144 + x * 4096 + y * 64 + z;
    assert n == ((w * 64 + x) * 64 + y) * 64 + z && n / 64 == (w * 64 + x) * 64 + y;
    assert n / 64 / 64 == w * 64 + x;
  }

  /** Text that is valid UTF-8 encodes back to its bytes. */
  lemma {:induction false} Utf8OfDecoded(b: Bytes)
    requires ValidUtf8(b)
    ensures Utf8(FromUtf8Lossy(b)) == b
    decreases |b|
  {
    hide DecodeChar, EncodeChar;
    if b != [] {
      var n := DecodeChar(b).value.1;
      EncodeDecodedChar(b);
      Utf8OfDecoded(b[n..]);
      assert b == b[..n] + b[n..];
    }
  }

  lemma ZerosOfRange(bytes: Bytes, lo: nat, hi: nat)
    requires ZeroRange(bytes, lo, hi)
    ensures bytes[lo..hi] == Zeros(hi - lo)
  {
  }

  lemma RangeOfZeros(bytes: Bytes, lo: nat, n: nat)
    requires At(bytes, lo, Zeros(n))
    ensures ZeroRange(bytes, lo, lo + n)
  {
    forall k | lo <= k < lo + n ensures bytes[k] == 0 {
      assert bytes[k] == bytes[lo..lo + n][k - lo] == Zeros(n)[k - lo];
    }
  }

  // ---------------------------------------------------------------- payloads

  /** `bytes` from `pos` on: zeros up to each payload, and the payloads, and nothing more. */
  predicate Filled(bytes: Bytes, pos: nat, ps: seq<Placed>)
    decreases |ps|
  {
    if ps == [] then |bytes| == pos
    else
      ZeroRange(bytes, pos, ps[0].off) && At(bytes, ps[0].off, ps[0].payload) &&
      Filled(bytes, ps[0].off + |ps[0].payload|, ps[1..])
  }

  lemma {:induction false} FilledIsWritten(bytes: Bytes, out: Bytes, ps: seq<Placed>)
    requires Spaced(ps, |out|) && out <= bytes && Filled(bytes, |out|, ps)
    ensures Written(out, ps) == bytes
    decreases |ps|
  {
    if ps != [] {
      var off, end := ps[0].off, ps[0].off + |ps[0].payload|;
      ZerosOfRange(bytes, |out|, off);
      assert bytes[..end] == out + Zeros(off - |out|) + ps[0].payload by {
        assert bytes[..end] == bytes[..|out|] + bytes[|out|..off] + bytes[off..end];
      }
      FilledIsWritten(bytes, bytes[..end], ps[1..]);
    }
  }

  lemma {:induction false} WrittenIsFilled(out: Bytes, ps: seq<Placed>)
    requires Spaced(ps, |out|)
    ensures Filled(Written(out, ps), |out|, ps)
    decreases |ps|
  {
    if ps != [] {
      var zeros := Zeros(ps[0].off - |out|);
      var next := out + zeros + ps[0].payload;
      WrittenIsFilled(next, ps[1..]);
      assert next[|out|..|out| + |zeros|] == zeros;
      assert next[ps[0].off..] == ps[0].payload;
      AtExtends(next, Written(next, ps[1..]), |out|, zeros);
      AtExtends(next, Written(next, ps[1..]), ps[0].off, ps[0].payload);
      RangeOfZeros(Written(next, ps[1..]), |out|, |zeros|);
    }
  }

  // ---------------------------------------------------------------- header and table

  lemma HeaderOfBytes(bytes: Bytes, digest: Digest)
    requires |bytes| >= PAYLOADS && CanonicalHeader(bytes)
    requires bytes[..8] == MAGIC && IntAt(bytes, 8, 10) == FORMAT_VERSION && bytes[16..48] == digest
    ensures bytes[..HEADER_LEN] == Header(4, digest)
  {
    LittleEndianOfValue(bytes[8..10]);
    LittleEndianOfValue(bytes[10..12]);
    ZerosOfRange(bytes, 12, 16);
    ZerosOfRange(bytes, 48, 64);
    hide FromLittleEndian, LittleEndian, Zeros;
    assert bytes[..64] == bytes[..8] + bytes[8..10] + bytes[10..12] + bytes[12..16] + bytes[16..48] + bytes[48..64];
  }

  lemma EntryOfBytes(bytes: Bytes, e: nat, p: Placed)
    requires e + ENTRY_LEN <= |bytes| && RowAt(bytes, e) == Row(p.tag, p.off, |p.payload|)
    requires ZeroRange(bytes, e + 4, e + 8)
    ensures bytes[e..e + ENTRY_LEN] == EntryBytes(p)
  {
    LittleEndianOfValue(bytes[e..e + 4]);
    LittleEndianOfValue(bytes[e + 8..e + 16]);
    LittleEndianOfValue(bytes[e + 16..e + 24]);
    ZerosOfRange(bytes, e + 4, e + 8);
    hide FromLittleEndian, LittleEndian, Zeros;
    assert bytes[e..e + 24] == bytes[e..e + 4] + bytes[e + 4..e + 8] + bytes[e + 8..e + 16] + bytes[e + 16..e + 24];
  }

  lemma {:induction false} TableOfBytes(bytes: Bytes, ps: seq<Placed>, n: nat)
    requires n <= |ps| && EntryStart(n) <= |bytes|
    requires forall i | 0 <= i < n :: bytes[EntryStart(i)..EntryStart(i) + ENTRY_LEN] == EntryBytes(ps[i])
    ensures bytes[HEADER_LEN..EntryStart(n)] == TableBytes(ps[..n])
  {
    hide EntryBytes;
    if n > 0 {
      TableOfBytes(bytes, ps, n - 1);
      var e := EntryStart(n - 1);
      assert ps[..n][..n - 1] == ps[..n - 1];
      assert bytes[HEADER_LEN..EntryStart(n)] == bytes[HEADER_LEN..e] + bytes[e..e + ENTRY_LEN];
    }
  }

  lemma PlaceMore(sections: seq<Section>, offset: nat, i: nat)
    requires i + 1 < |sections|
    ensures Place(sections, offset)[i + 1] == Place(sections[1..], Align8(offset + |sections[0].payload|))[i]
    ensures Place(sections, offset)[0].off == offset
  {
    hide Align8, Place;
    PlaceUnfolds(sections, offset);
  }

  /** Each section goes to the next multiple of eight behind the one before. */
  lemma {:induction false} PlaceFollows(sections: seq<Section>, offset: nat, i: nat)
    requires i + 1 < |sections|
    ensures
      var ps := Place(sections, offset);
      ps[0].off == offset && ps[i + 1].off == Align8(ps[i].off + |ps[i].payload|)
  {
    hide Align8;
    if i == 0 {
      assert Place(sections[1..], Align8(offset + |sections[0].payload|))[0].off ==
             Align8(offset + |sections[0].payload|);
    } else {
      PlaceFollows(sections[1..], Align8(offset + |sections[0].payload|), i - 1);
      PlaceMore(sections, offset, i - 1);
      PlaceMore(sections, offset, i);
    }
  }

  /** Where the four sections of an image go. */
  lemma PlacementOfFour(sections: seq<Section>)
    requires |sections| == 4
    ensures
      var ps := Placement(sections);
      ps[0].off == PAYLOADS && forall i | 0 <= i < 3 :: ps[i + 1].off == Align8(ps[i].off + |ps[i].payload|)
  {
    assert TableEnd(sections) == 160 && Align8(160) == 160;
    hide Align8, Place;
    PlaceFollows(sections, 160, 0);
    PlaceFollows(sections, 160, 1);
    PlaceFollows(sections, 160, 2);
  }

  /** The rows of an image determine where its sections would be placed. */
  lemma PlacementOfRows(sections: seq<Section>, rows: seq<Row>, bytes: Bytes)
    requires |sections| == |rows| == 4 && CanonicalPayloads(bytes, rows)
    requires forall i | 0 <= i < 4 :: |sections[i].payload| == rows[i].len
    ensures forall i | 0 <= i < 4 :: Placement(sections)[i] == Placed(sections[i].tag, rows[i].off, sections[i].payload)
  {
    PlacementOfFour(sections);
    hide Align8, Placement, ZeroRange;
    var ps := Placement(sections);
    assert ps[0 + 1].off == rows[0 + 1].off;
    assert ps[1 + 1].off == rows[1 + 1].off;
    assert ps[2 + 1].off == rows[2 + 1].off;
  }

  lemma FilledByRows(bytes: Bytes, ps: seq<Placed>, rows: seq<Row>)
    requires |ps| == |rows| == 4 && CanonicalPayloads(bytes, rows) && |bytes| >= PAYLOADS
    requires forall i | 0 <= i < 4 ::
               ps[i].off == rows[i].off && |ps[i].payload| == rows[i].len && At(bytes, ps[i].off, ps[i].payload)
    ensures Filled(bytes, PAYLOADS, ps)
  {
    hide Align8;
    var p1, p2, p3 := ps[1..], ps[1..][1..], ps[1..][1..][1..];
    assert p3[1..] == [] && Filled(bytes, End(rows[3]), p3[1..]);
    assert p3[0] == ps[3] && p2[0] == ps[2] && p1[0] == ps[1];
    assert ZeroRange(bytes, End(rows[2]), rows[3].off) && Filled(bytes, End(rows[2]), p3);
    assert ZeroRange(bytes, End(rows[1]), rows[2].off) && Filled(bytes, End(rows[1]), p2);
    assert ZeroRange(bytes, End(rows[0]), rows[1].off) && Filled(bytes, End(rows[0]), p1);
  }

  /** Sections laid out at these rows behind this header and table are the whole image. */
  lemma ImageOfRows(bytes: Bytes, sections: seq<Section>, digest: Digest)
    requires |bytes| >= PAYLOADS && CanonicalHeader(bytes) && |sections| == 4
    requires bytes[..8] == MAGIC && IntAt(bytes, 8, 10) == FORMAT_VERSION && bytes[16..48] == digest
    requires RowsUpTo(bytes, 4).Some?
    requires
      var rows := RowsUpTo(bytes, 4).value;
      CanonicalTable(bytes, rows) && CanonicalPayloads(bytes, rows) &&
      forall i | 0 <= i < 4 ::
        sections[i].tag == i + 1 && |sections[i].payload| == rows[i].len && At(bytes, rows[i].off, sections[i].payload)
    ensures Image(sections, digest) == bytes
  {
    hide IntAt, RowAt, RowsUpTo, Header, EntryBytes, Place, Align8, TableBytes, Written, Filled;
    var rows, ps := RowsUpTo(bytes, 4).value, Placement(sections);
    PlacementOfRows(sections, rows, bytes);
    HeaderOfBytes(bytes, digest);
    forall i | 0 <= i < 4 ensures bytes[EntryStart(i)..EntryStart(i) + ENTRY_LEN] == EntryBytes(ps[i]) {
      RowOf(bytes, 4, i);
      EntryOfBytes(bytes, EntryStart(i), ps[i]);
    }
    TableOfBytes(bytes, ps, 4);
    assert ps[..4] == ps;
    FilledByRows(bytes, ps, rows);
    var front := Header(4, digest) + TableBytes(ps);
    assert front == bytes[..64] + bytes[64..160] == bytes[..160];
    FilledIsWritten(bytes, front, ps);
  }

  lemma {:induction false} RowOf(bytes: Bytes, n: nat, i: nat)
    requires i < n && EntryStart(n) <= |bytes| && RowsUpTo(bytes, n).Some?
    ensures RowsUpTo(bytes, n).value[i] == RowAt(bytes, EntryStart(i))
    ensures End(RowsUpTo(bytes, n).value[i]) <= |bytes|
  {
    hide RowAt;
    if i < n - 1 { RowOf(bytes, n - 1, i); }
  }

  // ---------------------------------------------------------------- canonical images reseal

  lemma SectionAtRow(r: BlobRef, i: nat)
    requires |r.rows| == 4 && i < 4 && (forall j | 0 <= j < 4 :: r.rows[j].tag == j + 1) && End(r.rows[i]) <= |r.bytes|
    ensures SectionOf(r, i + 1) == Some(r.bytes[r.rows[i].off..End(r.rows[i])])
  {
    FirstRowWins(r.rows, i);
  }

  lemma CanonicalReseals(bytes: Bytes, json: ManifestJson)
    requires FromSealed(bytes, json).Some? && CanonicalImage(bytes, json)
    ensures Seal(FromSealed(bytes, json).value, json) == bytes
  {
    hide IntAt, RowsUpTo, SectionOf, ValidUtf8, FromUtf8Lossy, Utf8, Image, Align8;
    var rows, b := RowsUpTo(bytes, 4).value, FromSealed(bytes, json).value;
    var r := BlobRef(bytes, rows);
    assert Open(bytes) == Some(r);
    forall i | 0 <= i < 4
      ensures End(rows[i]) <= |bytes| && SectionOf(r, i + 1) == Some(bytes[rows[i].off..End(rows[i])])
    {
      RowOf(bytes, 4, i);
      SectionAtRow(r, i);
    }
    SectionsOfCanonical(bytes, rows, b, json);
    ImageOfRows(bytes, SectionsOf(b, json), SHA256(Utf8(b.schemaJson)));
  }

  /** The payloads `seal` would write are the ones that were read. */
  lemma SectionsOfCanonical(bytes: Bytes, rows: seq<Row>, b: PluginObjectBlob, json: ManifestJson)
    requires |rows| == 4 && Open(bytes) == Some(BlobRef(bytes, rows)) && FromSealed(bytes, json) == Some(b)
    requires forall i | 0 <= i < 4 ::
               End(rows[i]) <= |bytes| &&
               SectionOf(BlobRef(bytes, rows), i + 1) == Some(bytes[rows[i].off..End(rows[i])])
    requires CanonicalTexts(bytes, rows, json)
    ensures
      var sections := SectionsOf(b, json);
      (forall i | 0 <= i < 4 ::
         sections[i].tag == i + 1 && |sections[i].payload| == rows[i].len &&
         At(bytes, rows[i].off, sections[i].payload)) &&
      SHA256(Utf8(b.schemaJson)) == bytes[16..48]
  {
    hide SectionOf, ValidUtf8, FromUtf8Lossy, Utf8, RowsUpTo, IntAt;
    var r := BlobRef(bytes, rows);
    var p1, p2 := bytes[rows[0].off..End(rows[0])], bytes[rows[1].off..End(rows[1])];
    var p3, p4 := bytes[rows[2].off..End(rows[2])], bytes[rows[3].off..End(rows[3])];
    assert SectionOf(r, 0 + 1) == Some(p1) && SectionOf(r, 1 + 1) == Some(p2);
    assert SectionOf(r, 2 + 1) == Some(p3) && SectionOf(r, 3 + 1) == Some(p4);
    Utf8OfDecoded(p1);
    Utf8OfDecoded(p4);
    assert SectionsOf(b, json) == [Section(1, p1), Section(2, p2), Section(3, p3), Section(4, p4)];
  }

  // ---------------------------------------------------------------- sealed images are canonical

  lemma HeaderIsCanonical(bytes: Bytes, digest: Digest)
    requires |bytes| >= PAYLOADS && At(bytes, 0, Header(4, digest))
    ensures CanonicalHeader(bytes)
  {
    HeaderReadsBack(bytes, 4, digest);
    var v, c := LittleEndian(FORMAT_VERSION, 2), LittleEndian(4, 2);
    AtSplit(bytes, 0, MAGIC + v + c + Zeros(4) + digest, Zeros(16));
    AtSplit(bytes, 0, MAGIC + v + c + Zeros(4), digest);
    AtSplit(bytes, 0, MAGIC + v + c, Zeros(4));
    hide IntAt;
    RangeOfZeros(bytes, 12, 4);
    RangeOfZeros(bytes, 48, 16);
  }

  lemma ReservedWordIsZero(bytes: Bytes, e: nat, p: Placed)
    requires At(bytes, e, EntryBytes(p))
    ensures ZeroRange(bytes, e + 4, e + 8)
  {
    var tag, off, len := LittleEndian(p.tag, 4), LittleEndian(p.off, 8), LittleEndian(|p.payload|, 8);
    AtSplit(bytes, e, tag + Zeros(4) + off, len);
    AtSplit(bytes, e, tag + Zeros(4), off);
    AtSplit(bytes, e, tag, Zeros(4));
    RangeOfZeros(bytes, e + 4, 4);
  }

  lemma FilledIsCanonical(bytes: Bytes, ps: seq<Placed>)
    requires |ps| == 4 && Filled(bytes, PAYLOADS, ps)
    ensures (forall i | 0 <= i < 3 :: ZeroRange(bytes, ps[i].off + |ps[i].payload|, ps[i + 1].off))
    ensures ps[3].off + |ps[3].payload| == |bytes|
  {
    var p1, p2, p3 := ps[1..], ps[1..][1..], ps[1..][1..][1..];
    assert p1[0] == ps[1] && p2[0] == ps[2] && p3[0] == ps[3] && p3[1..] == [];
    assert Filled(bytes, ps[0].off + |ps[0].payload|, p1);
    assert Filled(bytes, ps[1].off + |ps[1].payload|, p2);
    assert Filled(bytes, ps[2].off + |ps[2].payload|, p3);
    assert Filled(bytes, ps[3].off + |ps[3].payload|, p3[1..]);
  }

  lemma ReservedWordsOfImage(sections: seq<Section>, digest: Digest, i: nat)
    requires i < |sections|
    ensures ZeroRange(Image(sections, digest), EntryStart(i) + 4, EntryStart(i) + 8)
  {
    hide Header, EntryBytes, Place, Align8, TableBytes;
    var bytes, ps, header := Image(sections, digest), Placement(sections), Header(|sections|, digest);
    EntryIsAt(header, ps, i);
    AtExtends(header + TableBytes(ps), bytes, EntryStart(i), EntryBytes(ps[i]));
    ReservedWordIsZero(bytes, EntryStart(i), ps[i]);
  }

  lemma GapsOfImage(sections: seq<Section>, digest: Digest)
    requires |sections| == 4
    ensures CanonicalPayloads(Image(sections, digest), RowsOf(Placement(sections)))
  {
    hide Header, EntryBytes, Place, Align8, TableBytes, Filled;
    var ps, bytes := Placement(sections), Image(sections, digest);
    var front := Header(|sections|, digest) + TableBytes(ps);
    assert |front| == PAYLOADS;
    PlacementOfFour(sections);
    WrittenIsFilled(front, ps);
    FilledIsCanonical(bytes, ps);
    var rows := RowsOf(ps);
    forall i | 0 <= i < 3
      ensures rows[i + 1].off == Align8(End(rows[i])) && ZeroRange(bytes, End(rows[i]), rows[i + 1].off)
    {
      assert ps[i + 1].off == Align8(ps[i].off + |ps[i].payload|);
    }
  }

  lemma ImageIsCanonical(sections: seq<Section>, digest: Digest)
    requires |sections| == 4 && |Image(sections, digest)| < U64
    requires forall i | 0 <= i < 4 :: sections[i].tag == i + 1
    ensures
      var bytes := Image(sections, digest);
      |bytes| >= PAYLOADS && CanonicalHeader(bytes) && RowsUpTo(bytes, 4) == Some(RowsOf(Placement(sections))) &&
      CanonicalTable(bytes, RowsOf(Placement(sections))) && CanonicalPayloads(bytes, RowsOf(Placement(sections)))
  {
    hide Image, Header, Place, RowsUpTo, IntAt, CanonicalHeader, CanonicalPayloads, ZeroRange;
    var bytes := Image(sections, digest);
    HeaderIsPrefix(sections, digest);
    HeaderIsCanonical(bytes, digest);
    RowsReadBack(sections, digest);
    GapsOfImage(sections, digest);
    forall i | 0 <= i < 4 ensures ZeroRange(bytes, EntryStart(i) + 4, EntryStart(i) + 8) {
      ReservedWordsOfImage(sections, digest, i);
    }
  }

  /** Everything `seal` makes is canonical. */
  lemma SealIsCanonical(b: PluginObjectBlob, json: ManifestJson)
    requires json.Inverse() && |Seal(b, json)| < U64
    ensures CanonicalImage(Seal(b, json), json)
  {
    hide RowsUpTo, IntAt, Placement, CanonicalHeader, Utf8, FromUtf8Lossy, ValidUtf8;
    var sections, digest := SectionsOf(b, json), SHA256(Utf8(b.schemaJson));
    ImageIsCanonical(sections, digest);
    var bytes, rows := Seal(b, json), RowsOf(Placement(sections));
    SealedPayload(b, json, 1);
    SealedPayload(b, json, 3);
    Utf8RoundTrip(json.print_(b.manifest));
    Utf8RoundTrip(b.metaJson);
    hide Seal;
    assert CanonicalTexts(bytes, rows, json);
  }

  lemma SealedPayload(b: PluginObjectBlob, json: ManifestJson, i: nat)
    requires i < 4
    ensures
      var sections := SectionsOf(b, json);
      var row := RowsOf(Placement(sections))[i];
      End(row) <= |Seal(b, json)| && Seal(b, json)[row.off..End(row)] == sections[i].payload
  {
    hide Header, TableBytes, Place, Written;
    var sections, digest := SectionsOf(b, json), SHA256(Utf8(b.schemaJson));
    PayloadIsAt(Header(|sections|, digest) + TableBytes(Placement(sections)), Placement(sections), i);
  }

  /** Sealing what was unsealed gives the image back exactly when it is canonical. */
  lemma ResealsIffCanonical(bytes: Bytes, json: ManifestJson)
    requires json.Inverse() && |bytes| < U64 && FromSealed(bytes, json).Some?
    ensures Seal(FromSealed(bytes, json).value, json) == bytes <==> CanonicalImage(bytes, json)
  {
    hide Seal, FromSealed, CanonicalImage;
    if CanonicalImage(bytes, json) { CanonicalReseals(bytes, json); }
    if Seal(FromSealed(bytes, json).value, json) == bytes { SealIsCanonical(FromSealed(bytes, json).value, json); }
  }
}
