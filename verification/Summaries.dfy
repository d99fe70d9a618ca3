/** The `FileDescriptorSet` decoder behind reflection indexing: it borrows, for every file
    of a set, the bounds of its bytes and the names it declares. */
module Summaries {
  import opened Text
  import opened Wire

  /** What one `FileDescriptorProto` declares. */
  datatype FileNames = FileNames(name: string, package: string, messages: seq<string>, services: seq<string>)

  const NO_NAMES := FileNames("", "", [], [])

  /** `bytes: &'a [u8]` is the slice `set[lo..hi]`. */
  datatype FileSummary = FileSummary(names: FileNames, lo: nat, hi: nat)

  function FirstStringAt(buf: Bytes, pos: nat): Option<string>
    decreases |buf| - pos
  {
    if pos >= |buf| then Some("") else
      var (field, wire, p) :- TagAt(buf, pos);
      if field == 1 && wire == LEN then
        var (lo, hi) :- SliceAt(buf, p);
        Some(FromUtf8Lossy(buf[lo..hi]))
      else
        var next :- SkipAt(buf, p, wire);
        FirstStringAt(buf, next)
  }

  function NamesAt(buf: Bytes, pos: nat, s: FileNames): Option<FileNames>
    decreases |buf| - pos
  {
    if pos >= |buf| then Some(s) else
      var (field, wire, p) :- TagAt(buf, pos);
      if field in {1, 2, 4, 6} && wire == LEN then
        var (lo, hi) :- SliceAt(buf, p);
        var payload := buf[lo..hi];
        if field == 1 then NamesAt(buf, hi, s.(name := FromUtf8Lossy(payload)))
        else if field == 2 then NamesAt(buf, hi, s.(package := FromUtf8Lossy(payload)))
        else
          var first :- FirstStringAt(payload, 0);
          if field == 4 then NamesAt(buf, hi, s.(messages := s.messages + [first]))
          else NamesAt(buf, hi, s.(services := s.services + [first]))
      else
        var next :- SkipAt(buf, p, wire);
        NamesAt(buf, next, s)
  }

  function FilesAt(set_: Bytes, pos: nat): Option<seq<FileSummary>>
    decreases |set_| - pos
  {
    if pos >= |set_| then Some([]) else
      var (field, wire, p) :- TagAt(set_, pos);
      if field == 1 && wire == LEN then
        var (lo, hi) :- SliceAt(set_, p);
        var names :- NamesAt(set_[lo..hi], 0, NO_NAMES);
        var rest :- FilesAt(set_, hi);
        Some([FileSummary(names, lo, hi)] + rest)
      else
        var next :- SkipAt(set_, p, wire);
        FilesAt(set_, next)
  }

  method FirstStringField(bytes: Bytes) returns (s: Option<string>)
    ensures s == FirstStringAt(bytes, 0)
  {
    var r := new Reader(bytes);
    while r.pos < |bytes|
      invariant FirstStringAt(bytes, 0) == FirstStringAt(bytes, r.pos)
      decreases |bytes| - r.pos
    {
      var t := r.ReadTag();
      if t.None? { return None; }
      if t.value == (1, LEN) {
        s := r.ReadString();
        return;
      }
      var ok := r.Skip(t.value.1);
      if !ok { return None; }
    }
    return Some("");
  }

  method DecodeFileSummary(bytes: Bytes) returns (result: Option<FileNames>)
    ensures result == NamesAt(bytes, 0, NO_NAMES)
  {
    var s := NO_NAMES;
    var r := new Reader(bytes);
    while r.pos < |bytes|
      invariant NamesAt(bytes, 0, NO_NAMES) == NamesAt(bytes, r.pos, s)
      decreases |bytes| - r.pos
    {
      var t := r.ReadTag();
      if t.None? { return None; }
      var (field, wire) := t.value;
      if (field == 1 || field == 2) && wire == LEN {
        var text := r.ReadString();
        if text.None? { return None; }
        s := if field == 1 then s.(name := text.value) else s.(package := text.value);
      } else if (field == 4 || field == 6) && wire == LEN {
        var slice := r.ReadSlice();
        if slice.None? { return None; }
        var first := FirstStringField(bytes[slice.value.0..slice.value.1]);
        if first.None? { return None; }
        s := if field == 4 then s.(messages := s.messages + [first.value])
             else s.(services := s.services + [first.value]);
      } else {
        var ok := r.Skip(wire);
        if !ok { return None; }
      }
    }
    return Some(s);
  }

  function Prepend(done: seq<FileSummary>, rest: Option<seq<FileSummary>>): Option<seq<FileSummary>> {
    if rest.None? then None else Some(done + rest.value)
  }

  method DecodeFileSummaries(set_: Bytes) returns (result: Option<seq<FileSummary>>)
    ensures result == FilesAt(set_, 0)
  {
    hide TagAt, SliceAt, SkipAt, NamesAt;
    var out: seq<FileSummary> := [];
    var r := new Reader(set_);
    assert forall fs: seq<FileSummary> :: [] + fs == fs;
    while r.pos < |set_|
      invariant FilesAt(set_, 0) == Prepend(out, FilesAt(set_, r.pos))
      decreases |set_| - r.pos
    {
      var t := r.ReadTag();
      if t.None? { return None; }
      if t.value == (1, LEN) {
        var slice := r.ReadSlice();
        if slice.None? { return None; }
        var (lo, hi) := slice.value;
        var names := DecodeFileSummary(set_[lo..hi]);
        if names.None? { return None; }
        ghost var rest := FilesAt(set_, hi);
        assert rest.Some? ==> out + ([FileSummary(names.value, lo, hi)] + rest.value)
                              == out + [FileSummary(names.value, lo, hi)] + rest.value;
        out := out + [FileSummary(names.value, lo, hi)];
      } else {
        var ok := r.Skip(t.value.1);
        if !ok { return None; }
      }
    }
    assert out + [] == out;
    return Some(out);
  }

  // ---------------------------------------------------------------- totality

  /** One wire field: the tag at `start`, its number and type, everything up to `end`. */
  datatype Field = Field(number: nat, wire: nat, start: nat, body: nat, end: nat)

  function FieldsAt(buf: Bytes, pos: nat): Option<seq<Field>>
    decreases |buf| - pos
  {
    if pos >= |buf| then Some([]) else
      var (number, wire, p) :- TagAt(buf, pos);
      var end :- SkipAt(buf, p, wire);
      var rest :- FieldsAt(buf, end);
      Some([Field(number, wire, pos, p, end)] + rest)
  }

  /** The fields cover `buf[pos..]` without gap or overlap. */
  predicate Tile(fields: seq<Field>, pos: nat, end: nat) {
    if fields == [] then pos == end
    else fields[0].start == pos < fields[0].end <= end && Tile(fields[1..], fields[0].end, end)
  }

  predicate IsFile(buf: Bytes, f: Field) {
    f.number == 1 && f.wire == LEN && SliceAt(buf, f.body).Some?
  }

  predicate FileDecodes(buf: Bytes, f: Field) {
    IsFile(buf, f) ==>
      var (lo, hi) := SliceAt(buf, f.body).value;
      NamesAt(buf[lo..hi], 0, NO_NAMES).Some?
  }

  function FilesOf(buf: Bytes, fields: seq<Field>): seq<FileSummary>
    requires forall f | f in fields :: FileDecodes(buf, f)
  {
    if fields == [] then [] else
      var rest := FilesOf(buf, fields[1..]);
      if IsFile(buf, fields[0]) then
        var (lo, hi) := SliceAt(buf, fields[0].body).value;
        assert FileDecodes(buf, fields[0]);
        [FileSummary(NamesAt(buf[lo..hi], 0, NO_NAMES).value, lo, hi)] + rest
      else rest
  }

  /** On every byte string the decoder answers: it succeeds exactly when the bytes are
      wire fields end to end and every file among them decodes, and then reports exactly
      those files. */
  lemma {:induction false} DecoderIsTotal(buf: Bytes, pos: nat)
    requires pos <= |buf|
    ensures FilesAt(buf, pos).Some? <==>
            FieldsAt(buf, pos).Some? && forall f | f in FieldsAt(buf, pos).value :: FileDecodes(buf, f)
    ensures FieldsAt(buf, pos).Some? ==> Tile(FieldsAt(buf, pos).value, pos, |buf|)
    ensures FilesAt(buf, pos).Some? ==> FilesAt(buf, pos).value == FilesOf(buf, FieldsAt(buf, pos).value)
    decreases |buf| - pos
  {
    hide TagAt, SliceAt, NamesAt;
    if pos < |buf| && TagAt(buf, pos).Some? {
      var (number, wire, p) := TagAt(buf, pos).value;
      var end := SkipAt(buf, p, wire);
      if end.Some? {
        DecoderIsTotal(buf, end.value);
        if FieldsAt(buf, pos).Some? {
          var fields, rest := FieldsAt(buf, pos).value, FieldsAt(buf, end.value).value;
          assert fields[1..] == rest;
          assert forall f :: f in fields <==> f == fields[0] || f in rest;
          assert fields[0] == Field(number, wire, pos, p, end.value);
          assert FilesAt(buf, pos).Some? <==> FileDecodes(buf, fields[0]) && FilesAt(buf, end.value).Some?;
        }
      }
    }
  }

  /** The borrowed slices are in order, disjoint and inside the input. */
  lemma {:induction false} SlicesInOrder(buf: Bytes, pos: nat)
    requires pos <= |buf| && FilesAt(buf, pos).Some?
    ensures
      var fs := FilesAt(buf, pos).value;
      (forall i | 0 <= i < |fs| :: pos < fs[i].lo <= fs[i].hi <= |buf|) &&
      forall i, j | 0 <= i < j < |fs| :: fs[i].hi < fs[j].lo
    decreases |buf| - pos
  {
    if pos < |buf| {
      var (field, wire, p) := TagAt(buf, pos).value;
      if field == 1 && wire == LEN {
        SlicesInOrder(buf, SliceAt(buf, p).value.1);
      } else {
        SlicesInOrder(buf, SkipAt(buf, p, wire).value);
      }
    }
  }

  // ---------------------------------------------------------------- round trip

  /** `FileDescriptorSet { file: files }` on the wire. */
  function SetOf(files: seq<Bytes>): Bytes {
    if files == [] then [] else BytesField(1, files[0]) + SetOf(files[1..])
  }

  /** `s` is the summary of `file` inside `buf`. */
  predicate Summarizes(buf: Bytes, s: FileSummary, file: Bytes) {
    s.lo <= s.hi <= |buf| && buf[s.lo..s.hi] == file && NamesAt(file, 0, NO_NAMES) == Some(s.names)
  }

  lemma {:induction false} SetDecodes(buf: Bytes, pos: nat, files: seq<Bytes>)
    requires |buf| < U64 && At(buf, pos, SetOf(files)) && pos + |SetOf(files)| == |buf|
    requires forall f | f in files :: NamesAt(f, 0, NO_NAMES).Some?
    ensures FilesAt(buf, pos).Some? && |FilesAt(buf, pos).value| == |files|
    ensures forall i | 0 <= i < |files| :: Summarizes(buf, FilesAt(buf, pos).value[i], files[i])
    decreases |files|
  {
    hide TagAt, SliceAt, SkipAt, NamesAt, BytesField;
    if files != [] {
      AtSplit(buf, pos, BytesField(1, files[0]), SetOf(files[1..]));
      BytesFieldReadsBack(buf, pos, 1, files[0]);
      var next := pos + |BytesField(1, files[0])|;
      SetDecodes(buf, next, files[1..]);
      assert files[0] in files;
      assert FilesAt(buf, pos).value[1..] == FilesAt(buf, next).value;
    }
  }

  /** A `DescriptorProto` or `ServiceDescriptorProto` opens with its name. */
  lemma FirstStringReadsBack(name: string, rest: Bytes)
    requires |StringField(1, name) + rest| < U64
    ensures FirstStringAt(StringField(1, name) + rest, 0) == Some(name)
  {
    hide Utf8, TagAt, SliceAt, BytesField;
    BytesFieldReadsBack(StringField(1, name) + rest, 0, 1, Utf8(name));
    Utf8RoundTrip(name);
  }

  /** Reading one known length-delimited field of a file. */
  lemma NamesStep(buf: Bytes, pos: nat, field: nat, payload: Bytes, s: FileNames)
    requires |buf| < U64 && field < U32 && At(buf, pos, BytesField(field, payload))
    requires field in {4, 6} ==> FirstStringAt(payload, 0).Some?
    ensures
      NamesAt(buf, pos, s) ==
      NamesAt(buf, pos + |BytesField(field, payload)|,
              if field == 1 then s.(name := FromUtf8Lossy(payload))
              else if field == 2 then s.(package := FromUtf8Lossy(payload))
              else if field == 4 then s.(messages := s.messages + [FirstStringAt(payload, 0).value])
              else if field == 6 then s.(services := s.services + [FirstStringAt(payload, 0).value])
              else s)
  {
    hide TagAt, SliceAt, BytesField, FirstStringAt, Tag, Varint;
    BytesFieldReadsBack(buf, pos, field, payload);
  }
}
