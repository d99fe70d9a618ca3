/** Which byte strings open as a blob, by the layout the image is documented to have: an
    eight-byte magic, the version, the number of sections, the hash of the schema, and rows
    of 24 bytes behind a header of 64. */
module ImageReading {
  import opened Text
  import opened Blob
  import opened Resealing

  // ---------------------------------------------------------------- the layout

  function NumberAt(bytes: Bytes, lo: nat, n: nat): nat
    requires lo + n <= |bytes|
  {
    FromLittleEndian(bytes[lo..lo + n])
  }

  ghost predicate IsUtf8(b: Bytes) { exists s: string :: b == Utf8(s) }

  /** The `n` rows of the table fit, and so does what each of them points to. */
  predicate TableFits(bytes: Bytes, n: nat) {
    64 + 24 * n <= |bytes| && forall i | 0 <= i < n :: OffsetAt(bytes, i) + LengthAt(bytes, i) <= |bytes|
  }

  function TagOfRow(bytes: Bytes, i: nat): nat
    requires 64 + 24 * i + 24 <= |bytes|
  {
    NumberAt(bytes, 64 + 24 * i, 4)
  }

  function OffsetAt(bytes: Bytes, i: nat): nat
    requires 64 + 24 * i + 24 <= |bytes|
  {
    NumberAt(bytes, 64 + 24 * i + 8, 8)
  }

  function LengthAt(bytes: Bytes, i: nat): nat
    requires 64 + 24 * i + 24 <= |bytes|
  {
    NumberAt(bytes, 64 + 24 * i + 16, 8)
  }

  /** The first of `n` rows with this tag points to these bytes. */
  ghost predicate IsSection(bytes: Bytes, n: nat, tag: nat, payload: Bytes)
    requires TableFits(bytes, n)
  {
    exists i: nat :: i < n && IsFirstWith(bytes, n, tag, i) &&
                     payload == bytes[OffsetAt(bytes, i)..OffsetAt(bytes, i) + LengthAt(bytes, i)]
  }

  predicate IsFirstWith(bytes: Bytes, n: nat, tag: nat, i: nat)
    requires TableFits(bytes, n)
  {
    i < n && TagOfRow(bytes, i) == tag && forall j | 0 <= j < i :: TagOfRow(bytes, j) != tag
  }

  predicate HasMagic(bytes: Bytes) { |bytes| >= 64 && forall i | 0 <= i < 8 :: bytes[i] == "OPBLOB01"[i] as int }

  /** The sections with both texts, and the hash over the schema. */
  ghost predicate TextsHold(bytes: Bytes, n: nat)
    requires |bytes| >= 64 && TableFits(bytes, n)
  {
    (exists schema :: IsSection(bytes, n, 1, schema) && IsUtf8(schema) && SHA256(schema) == bytes[16..48]) &&
    exists manifest :: IsSection(bytes, n, 2, manifest) && IsUtf8(manifest)
  }

  /** An image a reader must accept, and no other. */
  ghost predicate Readable(bytes: Bytes) {
    HasMagic(bytes) && NumberAt(bytes, 8, 2) == 1 && TableFits(bytes, NumberAt(bytes, 10, 2)) &&
    TextsHold(bytes, NumberAt(bytes, 10, 2))
  }

  // ---------------------------------------------------------------- proofs

  lemma Utf8Iff(b: Bytes)
    ensures ValidUtf8(b) <==> IsUtf8(b)
  {
    if ValidUtf8(b) { Utf8OfDecoded(b); }
    if s: string :| b == Utf8(s) { Utf8RoundTrip(s); }
  }

  lemma MagicIff(bytes: Bytes)
    requires |bytes| >= 64
    ensures HasMagic(bytes) <==> bytes[..8] == MAGIC
  {
    if bytes[..8] == MAGIC {
      forall i | 0 <= i < 8 ensures bytes[i] == "OPBLOB01"[i] as int { assert bytes[i] == MAGIC[i]; }
    }
    if HasMagic(bytes) { assert bytes[..8] == MAGIC; }
  }

  lemma {:induction false} RowsIff(bytes: Bytes, n: nat)
    requires 64 + 24 * n <= |bytes|
    ensures RowsUpTo(bytes, n).Some? <==> TableFits(bytes, n)
    ensures RowsUpTo(bytes, n).Some? ==>
              forall i | 0 <= i < n ::
                RowsUpTo(bytes, n).value[i] == Row(TagOfRow(bytes, i), OffsetAt(bytes, i), LengthAt(bytes, i))
  {
    hide NumberAt, IntAt;
    if n > 0 {
      RowsIff(bytes, n - 1);
      RowFields(bytes, n - 1);
      hide TagOfRow, OffsetAt, LengthAt, RowAt;
    }
  }

  lemma RowFields(bytes: Bytes, i: nat)
    requires 64 + 24 * i + 24 <= |bytes|
    ensures RowAt(bytes, HEADER_LEN + i * ENTRY_LEN) ==
            Row(TagOfRow(bytes, i), OffsetAt(bytes, i), LengthAt(bytes, i))
  {
  }

  lemma {:induction false} FoundIsFirst(rows: seq<Row>, tag: nat)
    ensures
      match FindRow(rows, tag)
      case Some(row) => exists i :: 0 <= i < |rows| && rows[i] == row && row.tag == tag && NoneBefore(rows, tag, i)
      case None => NoneBefore(rows, tag, |rows|)
  {
    if rows != [] && rows[0].tag != tag {
      FoundIsFirst(rows[1..], tag);
      match FindRow(rows[1..], tag)
      case Some(row) =>
        var i :| 0 <= i < |rows[1..]| && rows[1..][i] == row && row.tag == tag && NoneBefore(rows[1..], tag, i);
        BehindFirst(rows, tag, i);
        assert rows[i + 1] == row;
      case None => BehindFirst(rows, tag, |rows| - 1);
    } else if rows != [] {
      assert NoneBefore(rows, tag, 0);
    }
  }

  predicate NoneBefore(rows: seq<Row>, tag: nat, n: nat) {
    n <= |rows| && forall j | 0 <= j < n :: rows[j].tag != tag
  }

  lemma BehindFirst(rows: seq<Row>, tag: nat, n: nat)
    requires rows != [] && rows[0].tag != tag && NoneBefore(rows[1..], tag, n)
    ensures NoneBefore(rows, tag, n + 1)
  {
    forall j | 0 <= j < n + 1 ensures rows[j].tag != tag {
      if j > 0 { assert rows[j] == rows[1..][j - 1]; }
    }
  }

  lemma SectionIff(bytes: Bytes, n: nat, tag: nat, payload: Bytes)
    requires TableFits(bytes, n) && RowsUpTo(bytes, n).Some?
    ensures SectionOf(BlobRef(bytes, RowsUpTo(bytes, n).value), tag) == Some(payload) <==>
            IsSection(bytes, n, tag, payload)
  {
    hide RowsUpTo, TagOfRow, OffsetAt, LengthAt, FindRow;
    var rows := RowsUpTo(bytes, n).value;
    RowsIff(bytes, n);
    FoundIsFirst(rows, tag);
    match FindRow(rows, tag)
    case Some(row) =>
      var i :| 0 <= i < |rows| && rows[i] == row && row.tag == tag && NoneBefore(rows, tag, i);
      assert IsFirstWith(bytes, n, tag, i);
      forall k: nat | k < n && IsFirstWith(bytes, n, tag, k) ensures k == i { }
    case None =>
  }

  lemma TextsIff(bytes: Bytes, n: nat)
    requires |bytes| >= 64 && TableFits(bytes, n) && RowsUpTo(bytes, n).Some?
    ensures
      var blob := BlobRef(bytes, RowsUpTo(bytes, n).value);
      var schema, manifest := SectionOf(blob, SECTION_SCHEMA_JSON), SectionOf(blob, SECTION_MANIFEST_JSON);
      TextsHold(bytes, n) <==>
      schema.Some? && ValidUtf8(schema.value) && manifest.Some? && ValidUtf8(manifest.value) &&
      SHA256(schema.value) == bytes[16..48]
  {
    hide RowsUpTo, SectionOf, ValidUtf8, IsUtf8, IsSection, OffsetAt, LengthAt;
    var blob := BlobRef(bytes, RowsUpTo(bytes, n).value);
    forall b ensures ValidUtf8(b) <==> IsUtf8(b) { Utf8Iff(b); }
    forall tag, payload ensures SectionOf(blob, tag) == Some(payload) <==> IsSection(bytes, n, tag, payload) {
      SectionIff(bytes, n, tag, payload);
    }
  }

  /** A byte string opens exactly when it is such an image. */
  lemma OpensIff(bytes: Bytes)
    ensures Open(bytes).Some? <==> Readable(bytes)
  {
    hide RowsUpTo, SectionOf, ValidUtf8, IsUtf8, IsSection, HasMagic, NumberAt, IntAt, OffsetAt, LengthAt, MAGIC;
    if |bytes| >= 64 {
      MagicIff(bytes);
      HeaderNumbers(bytes);
      var n := NumberAt(bytes, 10, 2);
      if 64 + 24 * n <= |bytes| {
        RowsIff(bytes, n);
        if TableFits(bytes, n) { TextsIff(bytes, n); }
      }
    } else {
      TooShortForMagic(bytes);
    }
  }

  lemma TooShortForMagic(bytes: Bytes)
    ensures HasMagic(bytes) ==> |bytes| >= 64
  {
  }

  lemma HeaderNumbers(bytes: Bytes)
    requires |bytes| >= 64
    ensures NumberAt(bytes, 8, 2) == IntAt(bytes, 8, 10) && NumberAt(bytes, 10, 2) == IntAt(bytes, 10, 12)
  {
  }
}
