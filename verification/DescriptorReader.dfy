/** Reading `FileDescriptorProto` bytes as any protobuf implementation does: fields in any
    order, unknown ones skipped, the last of a singular field kept; field numbers as in
    google/protobuf/descriptor.proto. What the hand-written encoder of `descriptor.rs`
    emits reads as exactly the messages, fields and service it was given. */
module DescriptorReader {
  import opened Text
  import opened Wire
  import opened Messages
  import opened Schema
  import opened Descriptor

  // ---------------------------------------------------------------- raw fields

  datatype Raw = RawInt(number: nat, v: nat) | RawBytes(number: nat, b: Bytes)

  function RawAt(buf: Bytes, pos: nat): (r: Option<seq<Raw>>)
    ensures r.Some? ==> forall raw | raw in r.value && raw.RawBytes? :: |raw.b| < |buf| - pos
    decreases |buf| - pos
  {
    if pos >= |buf| then Some([]) else
      var (number, wire, p) :- TagAt(buf, pos);
      if wire == VARINT then
        var (v, q) :- VarintAt(buf, p);
        var rest :- RawAt(buf, q);
        Some([RawInt(number, v)] + rest)
      else if wire == LEN then
        var (lo, hi) :- SliceAt(buf, p);
        var rest :- RawAt(buf, hi);
        Some([RawBytes(number, buf[lo..hi])] + rest)
      else
        var q :- SkipAt(buf, p, wire);
        RawAt(buf, q)
  }

  function Parse(b: Bytes): (r: Option<seq<Raw>>)
    ensures r.Some? ==> forall raw | raw in r.value && raw.RawBytes? :: |raw.b| < |b|
  {
    RawAt(b, 0)
  }

  function Encoded(r: Raw): Bytes {
    match r case RawInt(number, v) => VarintField(number, v) case RawBytes(number, b) => BytesField(number, b)
  }

  function EncodedAll(rs: seq<Raw>): Bytes {
    if rs == [] then [] else Encoded(rs[0]) + EncodedAll(rs[1..])
  }

  predicate Fits(r: Raw) { r.number < U32 && (r.RawInt? ==> r.v < U64) }

  lemma RawIntStep(buf: Bytes, pos: nat, number: nat, v: nat, tail: seq<Raw>)
    requires number < U32 && v < U64 && pos < |buf| && At(buf, pos, VarintField(number, v))
    requires RawAt(buf, pos + |VarintField(number, v)|) == Some(tail)
    ensures RawAt(buf, pos) == Some([RawInt(number, v)] + tail)
  {
    hide TagAt, VarintAt, SliceAt, SkipAt, VarintField, Tag, Varint;
    VarintFieldReadsBack(buf, pos, number, v);
  }

  lemma RawBytesStep(buf: Bytes, pos: nat, number: nat, b: Bytes, tail: seq<Raw>)
    requires number < U32 && pos < |buf| < U64 && At(buf, pos, BytesField(number, b))
    requires RawAt(buf, pos + |BytesField(number, b)|) == Some(tail)
    ensures RawAt(buf, pos) == Some([RawBytes(number, b)] + tail)
  {
    hide TagAt, VarintAt, SliceAt, SkipAt, BytesField, Tag, Varint;
    BytesFieldReadsBack(buf, pos, number, b);
  }

  lemma RawStep(buf: Bytes, pos: nat, r: Raw, tail: seq<Raw>)
    requires Fits(r) && pos < |buf| < U64 && At(buf, pos, Encoded(r))
    requires RawAt(buf, pos + |Encoded(r)|) == Some(tail)
    ensures RawAt(buf, pos) == Some([r] + tail)
  {
    hide RawAt, VarintField, BytesField, At;
    match r
    case RawInt(number, v) => RawIntStep(buf, pos, number, v, tail);
    case RawBytes(number, b) => RawBytesStep(buf, pos, number, b, tail);
  }

  lemma {:induction false} RawsReadBack(buf: Bytes, pos: nat, rs: seq<Raw>)
    requires |buf| < U64 && At(buf, pos, EncodedAll(rs)) && pos + |EncodedAll(rs)| == |buf|
    requires forall r | r in rs :: Fits(r)
    ensures RawAt(buf, pos) == Some(rs)
    decreases |rs|
  {
    hide RawAt, Encoded, At, Fits;
    if rs == [] {
      EndOfRaws(buf);
    } else {
      var first, rest := rs[0], rs[1..];
      assert first in rs && rs == [first] + rest;
      FieldIsNotEmpty(first);
      AtSplit(buf, pos, Encoded(first), EncodedAll(rest));
      RawsReadBack(buf, pos + |Encoded(first)|, rest);
      RawStep(buf, pos, first, rest);
    }
  }

  lemma EndOfRaws(buf: Bytes)
    ensures RawAt(buf, |buf|) == Some([])
  {
  }

  lemma FieldIsNotEmpty(r: Raw)
    ensures |Encoded(r)| > 0
  {
  }

  /** Encoding any list of fields and parsing gives the list back. */
  lemma ParseEncoded(rs: seq<Raw>)
    requires |EncodedAll(rs)| < U64 && forall r | r in rs :: Fits(r)
    ensures Parse(EncodedAll(rs)) == Some(rs)
  {
    RawsReadBack(EncodedAll(rs), 0, rs);
  }

  lemma {:induction false} EncodedConcat(a: seq<Raw>, b: seq<Raw>)
    ensures EncodedAll(a + b) == EncodedAll(a) + EncodedAll(b)
  {
    hide Encoded;
    if a == [] {
      assert a + b == b;
    } else {
      assert (a + b)[1..] == a[1..] + b;
      EncodedConcat(a[1..], b);
    }
  }

  // ---------------------------------------------------------------- typed views

  /** The last string of a number. */
  function TextOf(rs: seq<Raw>, number: nat): Option<string> {
    if rs == [] then None
    else match rs[|rs| - 1]
      case RawBytes(n, b) => if n == number then Some(FromUtf8Lossy(b)) else TextOf(rs[..|rs| - 1], number)
      case RawInt(_, _) => TextOf(rs[..|rs| - 1], number)
  }

  /** The last integer of a number. */
  function IntOf(rs: seq<Raw>, number: nat): Option<nat> {
    if rs == [] then None
    else match rs[|rs| - 1]
      case RawInt(n, v) => if n == number then Some(v) else IntOf(rs[..|rs| - 1], number)
      case RawBytes(_, _) => IntOf(rs[..|rs| - 1], number)
  }

  /** The payloads of a repeated number, in order. */
  function AllOf(rs: seq<Raw>, number: nat): (r: seq<Bytes>)
    ensures forall b | b in r :: RawBytes(number, b) in rs
  {
    if rs == [] then [] else
      (match rs[0] case RawBytes(n, b) => if n == number then [b] else [] case RawInt(_, _) => []) +
      AllOf(rs[1..], number)
  }

  lemma {:induction false} AllOfConcat(a: seq<Raw>, b: seq<Raw>, number: nat)
    ensures AllOf(a + b, number) == AllOf(a, number) + AllOf(b, number)
  {
    if a == [] {
      assert a + b == b;
    } else {
      assert (a + b)[1..] == a[1..] + b;
      AllOfConcat(a[1..], b, number);
    }
  }

  // ---------------------------------------------------------------- FieldDescriptorProto

  datatype FieldRecord = FieldRecord(
    name: Option<string>, number: Option<nat>, cardinality: Option<nat>, fieldType: Option<nat>,
    typeName: Option<string>, jsonName: Option<string>)

  function ReadField(b: Bytes): Option<FieldRecord> {
    var rs :- Parse(b);
    Some(FieldRecord(TextOf(rs, 1), IntOf(rs, 3), IntOf(rs, 4), IntOf(rs, 5), TextOf(rs, 6), TextOf(rs, 10)))
  }

  function FieldRecordOf(f: FieldDef): FieldRecord {
    FieldRecord(Some(f.name), Some(f.number), Some(if f.repeated then 3 else 1), Some(f.protoType),
                f.typeName, Some(JsonName(f.name)))
  }

  function FieldHead(f: FieldDef): seq<Raw> {
    [RawBytes(1, Utf8(f.name))] + [RawInt(3, f.number)] +
    [RawInt(4, if f.repeated then L_REPEATED else L_OPTIONAL)] + [RawInt(5, f.protoType)]
  }

  function FieldRaws(f: FieldDef): seq<Raw> {
    FieldHead(f) + (match f.typeName case Some(t) => [RawBytes(6, Utf8(t))] case None => []) +
    [RawBytes(10, Utf8(JsonName(f.name)))]
  }

  lemma EncodedSnoc(a: seq<Raw>, r: Raw)
    ensures EncodedAll(a + [r]) == EncodedAll(a) + Encoded(r)
  {
    hide Encoded;
    EncodedConcat(a, [r]);
    assert [r][1..] == [] && EncodedAll([r]) == Encoded(r) + [];
  }

  lemma LookupSnoc(a: seq<Raw>, r: Raw, number: nat)
    ensures TextOf(a + [r], number) ==
            if r.RawBytes? && r.number == number then Some(FromUtf8Lossy(r.b)) else TextOf(a, number)
    ensures IntOf(a + [r], number) == if r.RawInt? && r.number == number then Some(r.v) else IntOf(a, number)
  {
    assert (a + [r])[..|a|] == a;
  }

  lemma FieldHeadEncodes(f: FieldDef)
    ensures EncodedAll(FieldHead(f)) ==
            StringField(1, f.name) + VarintField(3, f.number) +
            VarintField(4, if f.repeated then L_REPEATED else L_OPTIONAL) + VarintField(5, f.protoType)
  {
    hide BytesField, VarintField, EncodedAll;
    var r1 := [RawBytes(1, Utf8(f.name))];
    var r2 := r1 + [RawInt(3, f.number)];
    var label_ := if f.repeated then L_REPEATED else L_OPTIONAL;
    var r3 := r2 + [RawInt(4, label_)];
    NothingEncodes();
    EncodedSnoc([], RawBytes(1, Utf8(f.name)));
    assert [] + r1 == r1;
    EncodedSnoc(r1, RawInt(3, f.number));
    EncodedSnoc(r2, RawInt(4, label_));
    EncodedSnoc(r3, RawInt(5, f.protoType));
  }

  lemma NothingEncodes()
    ensures EncodedAll([]) == []
  {
  }

  lemma FieldEncodes(f: FieldDef)
    ensures FieldBytes(f) == EncodedAll(FieldRaws(f))
  {
    hide BytesField, VarintField, EncodedAll, FieldHead;
    FieldHeadEncodes(f);
    var last := RawBytes(10, Utf8(JsonName(f.name)));
    match f.typeName
    case None =>
      assert FieldHead(f) + [] == FieldHead(f);
      EncodedSnoc(FieldHead(f), last);
    case Some(t) =>
      EncodedSnoc(FieldHead(f), RawBytes(6, Utf8(t)));
      EncodedSnoc(FieldHead(f) + [RawBytes(6, Utf8(t))], last);
  }

  lemma FieldHeadLookups(f: FieldDef)
    ensures TextOf(FieldHead(f), 1) == Some(f.name) && IntOf(FieldHead(f), 3) == Some(f.number)
    ensures IntOf(FieldHead(f), 4) == Some(if f.repeated then L_REPEATED else L_OPTIONAL)
    ensures IntOf(FieldHead(f), 5) == Some(f.protoType)
    ensures TextOf(FieldHead(f), 6) == None && TextOf(FieldHead(f), 10) == None
  {
    hide TextOf, IntOf, FromUtf8Lossy, Utf8;
    var n1, n3 := RawBytes(1, Utf8(f.name)), RawInt(3, f.number);
    var n4, n5 := RawInt(4, if f.repeated then L_REPEATED else L_OPTIONAL), RawInt(5, f.protoType);
    Utf8RoundTrip(f.name);
    NothingToLookUp();
    assert [] + [n1] == [n1];
    forall number
      ensures TextOf(FieldHead(f), number) == if number == 1 then Some(f.name) else None
      ensures IntOf(FieldHead(f), number) ==
              if number == 5 then Some(n5.v) else if number == 4 then Some(n4.v)
              else if number == 3 then Some(n3.v) else None
    {
      LookupSnoc([], n1, number);
      LookupSnoc([n1], n3, number);
      LookupSnoc([n1] + [n3], n4, number);
      LookupSnoc([n1] + [n3] + [n4], n5, number);
    }
  }

  lemma NothingToLookUp()
    ensures forall number :: TextOf([], number) == None && IntOf([], number) == None
  {
  }

  lemma FieldLookups(f: FieldDef)
    ensures
      var rs := FieldRaws(f);
      FieldRecord(TextOf(rs, 1), IntOf(rs, 3), IntOf(rs, 4), IntOf(rs, 5), TextOf(rs, 6), TextOf(rs, 10)) ==
      FieldRecordOf(f)
  {
    hide TextOf, IntOf, FromUtf8Lossy, Utf8, FieldHead;
    FieldHeadLookups(f);
    Utf8RoundTrip(JsonName(f.name));
    var head, last := FieldHead(f), RawBytes(10, Utf8(JsonName(f.name)));
    match f.typeName {
      case None =>
        assert head + [] == head;
        forall number { LookupSnoc(head, last, number); }
      case Some(t) =>
        Utf8RoundTrip(t);
        forall number { LookupSnoc(head, RawBytes(6, Utf8(t)), number); }
        forall number { LookupSnoc(head + [RawBytes(6, Utf8(t))], last, number); }
    }
  }

  lemma FieldReadsBack(f: FieldDef)
    requires |FieldBytes(f)| < U64 && f.number < U64 && KnownType(f.protoType)
    ensures ReadField(FieldBytes(f)) == Some(FieldRecordOf(f))
  {
    hide FieldBytes, EncodedAll, TextOf, IntOf, Parse, FieldRecordOf;
    FieldEncodes(f);
    assert forall r | r in FieldRaws(f) :: Fits(r);
    ParseEncoded(FieldRaws(f));
    FieldLookups(f);
  }

  // ---------------------------------------------------------------- DescriptorProto

  datatype MessageRecord = MessageRecord(name: Option<string>, fields: seq<FieldRecord>, nested: seq<MessageRecord>)

  function ReadFields(bs: seq<Bytes>): Option<seq<FieldRecord>> {
    if bs == [] then Some([]) else
      var first :- ReadField(bs[0]);
      var rest :- ReadFields(bs[1..]);
      Some([first] + rest)
  }

  function ReadMessage(b: Bytes): Option<MessageRecord>
    decreases |b|, 0
  {
    var rs :- Parse(b);
    var fields :- ReadFields(AllOf(rs, 2));
    var nested :- ReadMessages(AllOf(rs, 3), |b|);
    Some(MessageRecord(TextOf(rs, 1), fields, nested))
  }

  function ReadMessages(bs: seq<Bytes>, limit: nat): Option<seq<MessageRecord>>
    requires forall b | b in bs :: |b| < limit
    decreases limit, 0, |bs|
  {
    if bs == [] then Some([]) else
      assert bs[0] in bs;
      var first :- ReadMessage(bs[0]);
      var rest :- ReadMessages(bs[1..], limit);
      Some([first] + rest)
  }

  function MessageRecordOf(m: MessageDef): MessageRecord {
    MessageRecord(Some(m.name), FieldRecordsOf(m.fields), MessageRecordsOf(m.nested))
  }

  function FieldRecordsOf(fields: seq<FieldDef>): (r: seq<FieldRecord>)
    ensures |r| == |fields|
  {
    if fields == [] then [] else [FieldRecordOf(fields[0])] + FieldRecordsOf(fields[1..])
  }

  function MessageRecordsOf(nested: seq<MessageDef>): (r: seq<MessageRecord>)
    ensures |r| == |nested|
  {
    if nested == [] then [] else [MessageRecordOf(nested[0])] + MessageRecordsOf(nested[1..])
  }

  // ---------------------------------------------------------------- a message reads back

  function FieldParts(fields: seq<FieldDef>, n: nat): (r: seq<Raw>)
    requires n <= |fields|
    ensures |r| == n
  {
    if n == 0 then [] else FieldParts(fields, n - 1) + [RawBytes(2, FieldBytes(fields[n - 1]))]
  }

  function NestedParts(nested: seq<MessageDef>, n: nat): (r: seq<Raw>)
    requires n <= |nested|
    ensures |r| == n
  {
    if n == 0 then [] else NestedParts(nested, n - 1) + [RawBytes(3, MessageBytes(nested[n - 1]))]
  }

  function MessageRaws(m: MessageDef): seq<Raw> {
    [RawBytes(1, Utf8(m.name))] + FieldParts(m.fields, |m.fields|) + NestedParts(m.nested, |m.nested|)
  }

  lemma {:induction false} FieldPartsEncode(fields: seq<FieldDef>, n: nat)
    requires n <= |fields|
    ensures EncodedAll(FieldParts(fields, n)) == FieldsBytes(fields, n)
    ensures forall r | r in FieldParts(fields, n) :: Fits(r) && r.RawBytes? && r.number == 2
  {
    hide BytesField, FieldBytes;
    if n > 0 {
      FieldPartsEncode(fields, n - 1);
      EncodedSnoc(FieldParts(fields, n - 1), RawBytes(2, FieldBytes(fields[n - 1])));
    }
  }

  lemma {:induction false} NestedPartsEncode(m: MessageDef, n: nat)
    requires n <= |m.nested|
    ensures EncodedAll(NestedParts(m.nested, n)) == NestedBytes(m, n)
    ensures forall r | r in NestedParts(m.nested, n) :: Fits(r) && r.RawBytes? && r.number == 3
  {
    hide BytesField, MessageBytes;
    if n > 0 {
      NestedPartsEncode(m, n - 1);
      EncodedSnoc(NestedParts(m.nested, n - 1), RawBytes(3, MessageBytes(m.nested[n - 1])));
    }
  }

  lemma MessageEncodes(m: MessageDef)
    ensures MessageBytes(m) == EncodedAll(MessageRaws(m)) && forall r | r in MessageRaws(m) :: Fits(r)
  {
    hide BytesField, EncodedAll, FieldParts, NestedParts, FieldsBytes, NestedBytes;
    var name := [RawBytes(1, Utf8(m.name))];
    FieldPartsEncode(m.fields, |m.fields|);
    NestedPartsEncode(m, |m.nested|);
    NothingEncodes();
    EncodedSnoc([], name[0]);
    assert [] + [name[0]] == name;
    EncodedConcat(name, FieldParts(m.fields, |m.fields|));
    EncodedConcat(name + FieldParts(m.fields, |m.fields|), NestedParts(m.nested, |m.nested|));
  }

  /** The encoded fields of a message. */
  function FieldPayloads(fields: seq<FieldDef>): (r: seq<Bytes>)
    ensures |r| == |fields| && forall i | 0 <= i < |r| :: r[i] == FieldBytes(fields[i])
  {
    seq(|fields|, i requires 0 <= i < |fields| => FieldBytes(fields[i]))
  }

  /** The encoded nested messages. */
  function NestedPayloads(nested: seq<MessageDef>): (r: seq<Bytes>)
    ensures |r| == |nested| && forall i | 0 <= i < |r| :: r[i] == MessageBytes(nested[i])
  {
    seq(|nested|, i requires 0 <= i < |nested| => MessageBytes(nested[i]))
  }

  function PayloadsOf(rs: seq<Raw>): (r: seq<Bytes>)
    requires forall r | r in rs :: r.RawBytes?
    ensures |r| == |rs|
  {
    seq(|rs|, i requires 0 <= i < |rs| => assert rs[i] in rs; rs[i].b)
  }

  /** A run of one number is all of that number, and nothing of another. */
  lemma {:induction false} AllOfRun(rs: seq<Raw>, number: nat, wanted: nat)
    requires forall r | r in rs :: r.RawBytes? && r.number == number
    ensures AllOf(rs, wanted) == if wanted == number then PayloadsOf(rs) else []
  {
    if rs != [] {
      assert rs[0] in rs && forall r | r in rs[1..] :: r in rs;
      AllOfRun(rs[1..], number, wanted);
      if wanted == number { assert PayloadsOf(rs) == [rs[0].b] + PayloadsOf(rs[1..]); }
    }
  }

  lemma {:induction false} TextOfRun(a: seq<Raw>, rs: seq<Raw>, number: nat, wanted: nat)
    requires (forall r | r in rs :: r.RawBytes? && r.number == number) && wanted != number
    ensures TextOf(a + rs, wanted) == TextOf(a, wanted)
  {
    if rs == [] {
      assert a + rs == a;
    } else {
      var front, last := rs[..|rs| - 1], rs[|rs| - 1];
      assert last in rs && a + rs == (a + front) + [last];
      TextOfRun(a, front, number, wanted);
      LookupSnoc(a + front, last, wanted);
    }
  }

  lemma NameLookup(m: MessageDef)
    ensures TextOf(MessageRaws(m), 1) == Some(m.name)
  {
    hide TextOf, Utf8, FromUtf8Lossy, FieldParts, NestedParts, Fits;
    var name := [RawBytes(1, Utf8(m.name))];
    var fields, nested := FieldParts(m.fields, |m.fields|), NestedParts(m.nested, |m.nested|);
    FieldPartsEncode(m.fields, |m.fields|);
    NestedPartsEncode(m, |m.nested|);
    Utf8RoundTrip(m.name);
    TextOfRun(name, fields, 2, 1);
    TextOfRun(name + fields, nested, 3, 1);
    LookupSnoc([], name[0], 1);
    assert [] + [name[0]] == name;
  }

  lemma AllOfThree(a: seq<Raw>, b: seq<Raw>, c: seq<Raw>, number: nat)
    ensures AllOf(a + b + c, number) == AllOf(a, number) + AllOf(b, number) + AllOf(c, number)
  {
    hide AllOf;
    AllOfConcat(a + b, c, number);
    AllOfConcat(a, b, number);
  }

  /** Name, fields and nested messages of a message, as runs of one number each. */
  lemma MessageRuns(m: MessageDef)
    ensures
      var fields, nested := FieldParts(m.fields, |m.fields|), NestedParts(m.nested, |m.nested|);
      (forall r | r in fields :: r.RawBytes? && r.number == 2) &&
      (forall r | r in nested :: r.RawBytes? && r.number == 3)
  {
    FieldPartsEncode(m.fields, |m.fields|);
    NestedPartsEncode(m, |m.nested|);
  }

  lemma FieldsLookup(m: MessageDef)
    requires forall r | r in FieldParts(m.fields, |m.fields|) :: r.RawBytes?
    ensures AllOf(MessageRaws(m), 2) == PayloadsOf(FieldParts(m.fields, |m.fields|))
  {
    hide AllOf, Utf8, FieldParts, NestedParts, PayloadsOf;
    var name := [RawBytes(1, Utf8(m.name))];
    var fields, nested := FieldParts(m.fields, |m.fields|), NestedParts(m.nested, |m.nested|);
    MessageRuns(m);
    AllOfThree(name, fields, nested, 2);
    AllOfRun(name, 1, 2);
    AllOfRun(fields, 2, 2);
    AllOfRun(nested, 3, 2);
    assert [] + PayloadsOf(fields) + [] == PayloadsOf(fields);
  }

  lemma NestedLookup(m: MessageDef)
    requires forall r | r in NestedParts(m.nested, |m.nested|) :: r.RawBytes?
    ensures AllOf(MessageRaws(m), 3) == PayloadsOf(NestedParts(m.nested, |m.nested|))
  {
    hide AllOf, Utf8, FieldParts, NestedParts, PayloadsOf;
    var name := [RawBytes(1, Utf8(m.name))];
    var fields, nested := FieldParts(m.fields, |m.fields|), NestedParts(m.nested, |m.nested|);
    MessageRuns(m);
    AllOfThree(name, fields, nested, 3);
    AllOfRun(name, 1, 3);
    AllOfRun(fields, 2, 3);
    AllOfRun(nested, 3, 3);
    assert [] + [] + PayloadsOf(nested) == PayloadsOf(nested);
  }

  lemma {:induction false} FieldPartAt(fields: seq<FieldDef>, n: nat, i: nat)
    requires i < n <= |fields|
    ensures FieldParts(fields, n)[i] == RawBytes(2, FieldBytes(fields[i]))
  {
    hide FieldBytes;
    if i < n - 1 { FieldPartAt(fields, n - 1, i); }
  }

  lemma {:induction false} NestedPartAt(nested: seq<MessageDef>, n: nat, i: nat)
    requires i < n <= |nested|
    ensures NestedParts(nested, n)[i] == RawBytes(3, MessageBytes(nested[i]))
  {
    hide MessageBytes;
    if i < n - 1 { NestedPartAt(nested, n - 1, i); }
  }

  /** The views of a message's fields: its name, its encoded fields and nested messages. */
  lemma MessageLookups(m: MessageDef)
    ensures TextOf(MessageRaws(m), 1) == Some(m.name)
    ensures AllOf(MessageRaws(m), 2) == FieldPayloads(m.fields) && AllOf(MessageRaws(m), 3) == NestedPayloads(m.nested)
  {
    hide TextOf, AllOf, FieldParts, NestedParts, FieldBytes, MessageBytes, MessageRaws;
    NameLookup(m);
    MessageRuns(m);
    FieldsLookup(m);
    NestedLookup(m);
    forall i | 0 <= i < |m.fields| ensures AllOf(MessageRaws(m), 2)[i] == FieldBytes(m.fields[i]) {
      FieldPartAt(m.fields, |m.fields|, i);
    }
    forall i | 0 <= i < |m.nested| ensures AllOf(MessageRaws(m), 3)[i] == MessageBytes(m.nested[i]) {
      NestedPartAt(m.nested, |m.nested|, i);
    }
  }

  lemma {:induction false} FieldsFit(fields: seq<FieldDef>, n: nat, i: nat)
    requires i < n <= |fields|
    ensures n <= |FieldsBytes(fields, n)| && |FieldBytes(fields[i])| <= |FieldsBytes(fields, n)|
  {
    hide FieldBytes;
    if n > 1 { FieldsFit(fields, n - 1, if i < n - 1 then i else 0); }
  }

  lemma {:induction false} NestedFits(m: MessageDef, n: nat, i: nat)
    requires i < n <= |m.nested|
    ensures |MessageBytes(m.nested[i])| < |NestedBytes(m, n)|
  {
    hide MessageBytes;
    if i < n - 1 { NestedFits(m, n - 1, i); }
  }

  lemma {:induction false} FieldsReadBack(fields: seq<FieldDef>, bs: seq<Bytes>)
    requires |bs| == |fields| && forall i | 0 <= i < |fields| :: ReadField(bs[i]) == Some(FieldRecordOf(fields[i]))
    ensures ReadFields(bs) == Some(FieldRecordsOf(fields))
  {
    hide ReadField, FieldRecordOf;
    if bs != [] { FieldsReadBack(fields[1..], bs[1..]); }
  }

  lemma {:induction false} NestedReadBack(nested: seq<MessageDef>, bs: seq<Bytes>, limit: nat)
    requires |bs| == |nested| && (forall b | b in bs :: |b| < limit)
    requires forall i | 0 <= i < |nested| :: ReadMessage(bs[i]) == Some(MessageRecordOf(nested[i]))
    ensures ReadMessages(bs, limit) == Some(MessageRecordsOf(nested))
  {
    hide ReadMessage, MessageRecordOf;
    if bs != [] {
      assert bs[0] in bs && forall b | b in bs[1..] :: b in bs;
      NestedReadBack(nested[1..], bs[1..], limit);
    }
  }

  lemma PayloadsFit(m: MessageDef)
    ensures forall i | 0 <= i < |m.fields| :: |FieldBytes(m.fields[i])| < |MessageBytes(m)|
    ensures forall i | 0 <= i < |m.nested| :: |MessageBytes(m.nested[i])| < |MessageBytes(m)|
    ensures |m.fields| < |MessageBytes(m)|
  {
    hide FieldBytes, FieldsBytes, NestedBytes;
    forall i | 0 <= i < |m.fields|
      ensures |FieldBytes(m.fields[i])| <= |FieldsBytes(m.fields, |m.fields|)| &&
              |m.fields| <= |FieldsBytes(m.fields, |m.fields|)|
    {
      FieldsFit(m.fields, |m.fields|, i);
    }
    forall i | 0 <= i < |m.nested| ensures |MessageBytes(m.nested[i])| < |NestedBytes(m, |m.nested|)| {
      NestedFits(m, |m.nested|, i);
    }
    if |m.fields| > 0 { FieldsFit(m.fields, |m.fields|, 0); }
  }

  /** The bytes of a well-formed message read as that message, nested messages included. */
  lemma {:induction false} MessageReadsBack(m: MessageDef)
    requires WellFormed(m) && |MessageBytes(m)| < U64
    ensures ReadMessage(MessageBytes(m)) == Some(MessageRecordOf(m))
    decreases m
  {
    hide FieldBytes, MessageBytes, EncodedAll, MessageRaws, TextOf, AllOf, ReadField, ReadFields, FieldRecordOf,
         FieldRecordsOf, MessageRecordsOf, Parse, FieldPayloads, NestedPayloads, ReadMessages;
    MessageEncodes(m);
    ParseEncoded(MessageRaws(m));
    MessageLookups(m);
    PayloadsFit(m);
    forall i | 0 <= i < |m.fields| ensures ReadField(FieldBytes(m.fields[i])) == Some(FieldRecordOf(m.fields[i])) {
      assert m.fields[i] in m.fields;
      FieldReadsBack(m.fields[i]);
    }
    FieldsReadBack(m.fields, FieldPayloads(m.fields));
    forall i | 0 <= i < |m.nested|
      ensures ReadMessage(MessageBytes(m.nested[i])) == Some(MessageRecordOf(m.nested[i]))
    {
      assert m.nested[i] in m.nested;
      MessageReadsBack(m.nested[i]);
    }
    NestedReadBack(m.nested, NestedPayloads(m.nested), |MessageBytes(m)|);
  }

  // ---------------------------------------------------------------- FileDescriptorProto

  datatype MethodRecord = MethodRecord(name: Option<string>, inputType: Option<string>, outputType: Option<string>)

  datatype ServiceRecord = ServiceRecord(name: Option<string>, methods: seq<MethodRecord>)

  datatype FileRecord = FileRecord(
    name: Option<string>, package: Option<string>, messages: seq<MessageRecord>, services: seq<ServiceRecord>,
    syntax: Option<string>)

  function ReadMethod(b: Bytes): Option<MethodRecord> {
    var rs :- Parse(b);
    Some(MethodRecord(TextOf(rs, 1), TextOf(rs, 2), TextOf(rs, 3)))
  }

  function ReadMethods(bs: seq<Bytes>): Option<seq<MethodRecord>> {
    if bs == [] then Some([]) else
      var first :- ReadMethod(bs[0]);
      var rest :- ReadMethods(bs[1..]);
      Some([first] + rest)
  }

  function ReadService(b: Bytes): Option<ServiceRecord> {
    var rs :- Parse(b);
    var methods :- ReadMethods(AllOf(rs, 2));
    Some(ServiceRecord(TextOf(rs, 1), methods))
  }

  function ReadServices(bs: seq<Bytes>): Option<seq<ServiceRecord>> {
    if bs == [] then Some([]) else
      var first :- ReadService(bs[0]);
      var rest :- ReadServices(bs[1..]);
      Some([first] + rest)
  }

  function ReadFile(b: Bytes): Option<FileRecord> {
    var rs :- Parse(b);
    var messages :- ReadMessages(AllOf(rs, 4), |b|);
    var services :- ReadServices(AllOf(rs, 6));
    Some(FileRecord(TextOf(rs, 1), TextOf(rs, 2), messages, services, TextOf(rs, 12)))
  }

  lemma LookupList(a: seq<Raw>, r: Raw, number: nat)
    ensures TextOf(a + [r], number) ==
            if r.RawBytes? && r.number == number then Some(FromUtf8Lossy(r.b)) else TextOf(a, number)
    ensures AllOf(a + [r], number) ==
            AllOf(a, number) + (if r.RawBytes? && r.number == number then [r.b] else [])
  {
    LookupSnoc(a, r, number);
    AllOfConcat(a, [r], number);
    assert [r][1..] == [] && AllOf([r], number) == if r.RawBytes? && r.number == number then [r.b] else [];
  }

  lemma NothingListed()
    ensures EncodedAll([]) == [] && forall number :: TextOf([], number) == None && AllOf([], number) == []
  {
  }

  lemma MethodBytesReadBack(name: string, input: string, output: string)
    requires |StringField(1, name) + StringField(2, input) + StringField(3, output)| < U64
    ensures ReadMethod(StringField(1, name) + StringField(2, input) + StringField(3, output)) ==
            Some(MethodRecord(Some(name), Some(input), Some(output)))
  {
    hide BytesField, TextOf, AllOf, EncodedAll, Parse, Utf8, FromUtf8Lossy;
    var r1, r2, r3 := RawBytes(1, Utf8(name)), RawBytes(2, Utf8(input)), RawBytes(3, Utf8(output));
    var a1 := [] + [r1];
    var a2 := a1 + [r2];
    NothingListed();
    EncodedSnoc([], r1);
    EncodedSnoc(a1, r2);
    EncodedSnoc(a2, r3);
    assert [] + StringField(1, name) == StringField(1, name);
    ParseEncoded(a2 + [r3]);
    Utf8RoundTrip(name);
    Utf8RoundTrip(input);
    Utf8RoundTrip(output);
    forall number { LookupList([], r1, number); }
    forall number { LookupList(a1, r2, number); }
    forall number { LookupList(a2, r3, number); }
  }

  /** What reflection clients see of a method's service. */
  function ServiceRecordOf(package: string, pascal: string): ServiceRecord {
    ServiceRecord(Some(pascal + "Service"),
                  [MethodRecord(Some(pascal), Some("." + package + "." + pascal + "Input"),
                                Some("." + package + "." + pascal + "Output"))])
  }

  lemma OneMethod(b: Bytes, m: MethodRecord)
    requires ReadMethod(b) == Some(m)
    ensures ReadMethods([b]) == Some([m])
  {
    hide ReadMethod;
    assert [b][1..] == [] && ReadMethods([b][1..]) == Some([]) && [m] + [] == [m];
  }

  lemma ServiceReadsBack(package: string, pascal: string)
    requires |ServiceBytes(package, pascal)| < U64
    ensures ReadService(ServiceBytes(package, pascal)) == Some(ServiceRecordOf(package, pascal))
  {
    hide BytesField, TextOf, AllOf, EncodedAll, Parse, Utf8, FromUtf8Lossy, ReadMethod, ReadMethods;
    var input, output := "." + package + "." + pascal + "Input", "." + package + "." + pascal + "Output";
    var name, body := pascal + "Service", StringField(1, pascal) + StringField(2, input) + StringField(3, output);
    BytesFieldContains(2, body);
    MethodBytesReadBack(pascal, input, output);
    OneMethod(body, MethodRecord(Some(pascal), Some(input), Some(output)));
    var r1, r2 := RawBytes(1, Utf8(name)), RawBytes(2, body);
    var a1 := [] + [r1];
    NothingListed();
    EncodedSnoc([], r1);
    EncodedSnoc(a1, r2);
    assert [] + StringField(1, name) == StringField(1, name);
    ParseEncoded(a1 + [r2]);
    Utf8RoundTrip(name);
    forall number { LookupList([], r1, number); }
    forall number { LookupList(a1, r2, number); }
    assert [] + [body] == [body];
  }

  function FileFront(fileName: string, package: string, input: Bytes): seq<Raw> {
    [RawBytes(1, Utf8(fileName))] + [RawBytes(2, Utf8(package))] + [RawBytes(4, input)]
  }

  function FileRaws(fileName: string, package: string, input: Bytes, output: Bytes, service: Bytes): seq<Raw> {
    FileFront(fileName, package, input) + [RawBytes(4, output)] + [RawBytes(6, service)] +
    [RawBytes(12, Utf8("proto3"))]
  }

  lemma FrontEncodes(fileName: string, package: string, input: Bytes)
    ensures EncodedAll(FileFront(fileName, package, input)) ==
            StringField(1, fileName) + StringField(2, package) + BytesField(4, input)
  {
    hide BytesField, EncodedAll;
    var r1, r2, r3 := RawBytes(1, Utf8(fileName)), RawBytes(2, Utf8(package)), RawBytes(4, input);
    NothingListed();
    EncodedSnoc([], r1);
    EncodedSnoc([r1], r2);
    EncodedSnoc([r1] + [r2], r3);
    assert [] + [r1] == [r1] && [] + StringField(1, fileName) == StringField(1, fileName);
  }

  lemma FileEncodes(fileName: string, package: string, input: Bytes, output: Bytes, service: Bytes)
    ensures FileBytes(fileName, package, input, output, service) ==
            EncodedAll(FileRaws(fileName, package, input, output, service))
  {
    hide BytesField, EncodedAll, FileFront;
    var front := FileFront(fileName, package, input);
    FrontEncodes(fileName, package, input);
    EncodedSnoc(front, RawBytes(4, output));
    EncodedSnoc(front + [RawBytes(4, output)], RawBytes(6, service));
    EncodedSnoc(front + [RawBytes(4, output)] + [RawBytes(6, service)], RawBytes(12, Utf8("proto3")));
  }

  lemma FrontLookups(fileName: string, package: string, input: Bytes, number: nat)
    ensures TextOf(FileFront(fileName, package, input), number) ==
            if number == 1 then Some(fileName) else if number == 2 then Some(package)
            else if number == 4 then Some(FromUtf8Lossy(input)) else None
    ensures AllOf(FileFront(fileName, package, input), number) ==
            if number == 1 then [Utf8(fileName)] else if number == 2 then [Utf8(package)]
            else if number == 4 then [input] else []
  {
    hide TextOf, AllOf, Utf8, FromUtf8Lossy;
    var r1, r2, r3 := RawBytes(1, Utf8(fileName)), RawBytes(2, Utf8(package)), RawBytes(4, input);
    NothingListed();
    Utf8RoundTrip(fileName);
    Utf8RoundTrip(package);
    assert [] + [r1] == [r1];
    LookupList([], r1, number);
    LookupList([r1], r2, number);
    LookupList([r1] + [r2], r3, number);
  }

  lemma FileLookupsAt(fileName: string, package: string, input: Bytes, output: Bytes, service: Bytes, number: nat)
    ensures
      var rs := FileRaws(fileName, package, input, output, service);
      (number == 1 ==> TextOf(rs, 1) == Some(fileName)) && (number == 2 ==> TextOf(rs, 2) == Some(package)) &&
      (number == 12 ==> TextOf(rs, 12) == Some("proto3")) &&
      (number == 4 ==> AllOf(rs, 4) == [input, output]) && (number == 6 ==> AllOf(rs, 6) == [service])
  {
    hide TextOf, AllOf, Utf8, FromUtf8Lossy, FileFront;
    var front := FileFront(fileName, package, input);
    var a1 := front + [RawBytes(4, output)];
    var a2 := a1 + [RawBytes(6, service)];
    Utf8RoundTrip("proto3");
    FrontLookups(fileName, package, input, number);
    LookupList(front, RawBytes(4, output), number);
    LookupList(a1, RawBytes(6, service), number);
    LookupList(a2, RawBytes(12, Utf8("proto3")), number);
  }

  lemma FileLookups(fileName: string, package: string, input: Bytes, output: Bytes, service: Bytes)
    ensures
      var rs := FileRaws(fileName, package, input, output, service);
      TextOf(rs, 1) == Some(fileName) && TextOf(rs, 2) == Some(package) && TextOf(rs, 12) == Some("proto3") &&
      AllOf(rs, 4) == [input, output] && AllOf(rs, 6) == [service]
  {
    hide TextOf, AllOf, FileRaws;
    FileLookupsAt(fileName, package, input, output, service, 1);
    FileLookupsAt(fileName, package, input, output, service, 2);
    FileLookupsAt(fileName, package, input, output, service, 12);
    FileLookupsAt(fileName, package, input, output, service, 4);
    FileLookupsAt(fileName, package, input, output, service, 6);
  }

  lemma OneMore(bs: seq<Bytes>, limit: nat, x: MessageRecord, xs: seq<MessageRecord>)
    requires bs != [] && forall b | b in bs :: |b| < limit
    requires ReadMessage(bs[0]) == Some(x) && ReadMessages(bs[1..], limit) == Some(xs)
    ensures ReadMessages(bs, limit) == Some([x] + xs)
  {
    hide ReadMessage;
  }

  lemma TwoMessages(a: Bytes, b: Bytes, x: MessageRecord, y: MessageRecord, limit: nat)
    requires |a| < limit && |b| < limit && ReadMessage(a) == Some(x) && ReadMessage(b) == Some(y)
    ensures ReadMessages([a, b], limit) == Some([x, y])
  {
    hide ReadMessage;
    assert [a, b][1..] == [b] && [b][1..] == [];
    OneMore([b], limit, y, []);
    OneMore([a, b], limit, x, [y] + []);
    assert [x] + ([y] + []) == [x, y];
  }

  lemma OneService(b: Bytes, s: ServiceRecord)
    requires ReadService(b) == Some(s)
    ensures ReadServices([b]) == Some([s])
  {
    hide ReadService;
    assert [b][1..] == [] && ReadServices([b][1..]) == Some([]) && [s] + [] == [s];
  }

  lemma FileReadsBack(
    fileName: string, package: string, input: Bytes, output: Bytes, service: Bytes,
    x: MessageRecord, y: MessageRecord, s: ServiceRecord)
    requires |FileBytes(fileName, package, input, output, service)| < U64
    requires ReadMessage(input) == Some(x) && ReadMessage(output) == Some(y) && ReadService(service) == Some(s)
    ensures ReadFile(FileBytes(fileName, package, input, output, service)) ==
            Some(FileRecord(Some(fileName), Some(package), [x, y], [s], Some("proto3")))
  {
    hide TextOf, AllOf, EncodedAll, FileRaws, FileBytes, ReadMessage, ReadMessages, ReadService, ReadServices, Parse;
    var rs := FileRaws(fileName, package, input, output, service);
    var b := FileBytes(fileName, package, input, output, service);
    FileEncodes(fileName, package, input, output, service);
    FileRawsFit(fileName, package, input, output, service);
    ParseEncoded(rs);
    FileLookups(fileName, package, input, output, service);
    TwoMessages(input, output, x, y, |b|);
    OneService(service, s);
  }

  lemma FileRawsFit(fileName: string, package: string, input: Bytes, output: Bytes, service: Bytes)
    ensures forall r | r in FileRaws(fileName, package, input, output, service) :: Fits(r)
    ensures |input| < |FileBytes(fileName, package, input, output, service)|
    ensures |output| < |FileBytes(fileName, package, input, output, service)|
    ensures |service| < |FileBytes(fileName, package, input, output, service)|
  {
    hide Utf8, Tag, Varint;
    BytesFieldContains(4, input);
    BytesFieldContains(4, output);
    BytesFieldContains(6, service);
    FieldIsNotEmpty(RawBytes(1, Utf8(fileName)));
  }

  /** The file of a method, read by any protobuf implementation, describes exactly the two
      messages synthesized from its schemas and a service with this one method between
      them. */
  lemma MethodFileDescribesMethod(pluginId: string, method_: MethodDecl)
    requires Synthesizable(method_) && |MethodFile(pluginId, method_).file| < U64
    ensures
      ReadFile(MethodFile(pluginId, method_).file) ==
      Some(FileRecord(
             Some(ProtoFileName(pluginId, method_)), Some(PackageName(pluginId, method_)),
             [MessageRecordOf(InputMessage(method_)), MessageRecordOf(OutputMessage(method_))],
             [ServiceRecordOf(PackageName(pluginId, method_), PascalCase(method_.name))],
             Some("proto3")))
  {
    hide MessageBytes, ServiceBytes, FileBytes, PackageName, ProtoFileName, WellFormed, MessageFromSchema, ReadFile,
         ReadMessage, ReadService, ServiceRecordOf, MessageRecordOf, FileSymbols;
    var package, pascal := PackageName(pluginId, method_), PascalCase(method_.name);
    var input, output := InputMessage(method_), OutputMessage(method_);
    SynthesisIsWellFormed(pascal + "Input", method_.args);
    SynthesisIsWellFormed(pascal + "Output", OutputSchema(method_));
    FileRawsFit(ProtoFileName(pluginId, method_), package, MessageBytes(input), MessageBytes(output),
                ServiceBytes(package, pascal));
    MessageReadsBack(input);
    MessageReadsBack(output);
    ServiceReadsBack(package, pascal);
    FileReadsBack(ProtoFileName(pluginId, method_), package, MessageBytes(input), MessageBytes(output),
                  ServiceBytes(package, pascal), MessageRecordOf(input), MessageRecordOf(output),
                  ServiceRecordOf(package, pascal));
  }
}
