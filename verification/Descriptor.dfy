/** One descriptor file per plugin method: its names, its `FileDescriptorProto` bytes and
    its symbols; and the `FileDescriptorSet` of a whole plugin. */
module Descriptor {
  import opened Text
  import opened Ordering
  import opened JsonSchema
  import opened Schema
  import opened Wire
  import opened Summaries
  import opened Messages

  // ---------------------------------------------------------------- DescriptorProto

  function FieldBytes(f: FieldDef): Bytes {
    StringField(1, f.name) + VarintField(3, f.number) +
    VarintField(4, if f.repeated then L_REPEATED else L_OPTIONAL) + VarintField(5, f.protoType) +
    (match f.typeName case Some(t) => StringField(6, t) case None => []) +
    StringField(10, JsonName(f.name))
  }

  function FieldsBytes(fields: seq<FieldDef>, n: nat): Bytes
    requires n <= |fields|
  {
    if n == 0 then [] else FieldsBytes(fields, n - 1) + BytesField(2, FieldBytes(fields[n - 1]))
  }

  function NestedBytes(m: MessageDef, n: nat): Bytes
    requires n <= |m.nested|
    decreases m, n
  {
    if n == 0 then [] else NestedBytes(m, n - 1) + BytesField(3, MessageBytes(m.nested[n - 1]))
  }

  /** `DescriptorProto`: name, then fields, then nested types. */
  function MessageBytes(m: MessageDef): Bytes
    decreases m, |m.nested| + 1
  {
    StringField(1, m.name) + FieldsBytes(m.fields, |m.fields|) + NestedBytes(m, |m.nested|)
  }

  method EncodeField(f: FieldDef) returns (b: Bytes)
    ensures b == FieldBytes(f)
  {
    hide BytesField, VarintField, StringField;
    var out := new Buffer();
    out.PutString(1, f.name);
    assert out.bytes == StringField(1, f.name);
    out.PutVarintField(3, f.number);
    out.PutVarintField(4, if f.repeated then L_REPEATED else L_OPTIONAL);
    out.PutVarintField(5, f.protoType);
    if f.typeName.Some? {
      out.PutString(6, f.typeName.value);
    }
    out.PutString(10, JsonName(f.name));
    return out.bytes;
  }

  method EncodeMessage(m: MessageDef) returns (b: Bytes)
    ensures b == MessageBytes(m)
    decreases m
  {
    hide BytesField, StringField, FieldBytes;
    var out := new Buffer();
    out.PutString(1, m.name);
    var name := StringField(1, m.name);
    for i := 0 to |m.fields|
      invariant out.bytes == name + FieldsBytes(m.fields, i)
    {
      var fd := EncodeField(m.fields[i]);
      out.PutBytes(2, fd);
    }
    ghost var front := out.bytes;
    for i := 0 to |m.nested|
      invariant out.bytes == front + NestedBytes(m, i)
    {
      var nested := EncodeMessage(m.nested[i]);
      out.PutBytes(3, nested);
    }
    return out.bytes;
  }

  // ---------------------------------------------------------------- one file per method

  datatype MethodDescriptor = MethodDescriptor(
    methodName: string,
    fileName: string,
    package: string,
    serviceFull: string,
    grpcPath: string,
    inputFull: string,
    outputFull: string,
    symbols: seq<string>,
    file: Bytes)

  const OBJECT := Obj(map[Name(KType) := Str(Name(KObject))])

  function OutputSchema(method_: MethodDecl): Json { method_.output.GetOr(OBJECT) }

  /** Synthesis from both schemas of the method comes to an end. */
  ghost predicate Synthesizable(method_: MethodDecl) {
    SchemaEnds(method_.args) && SchemaEnds(OutputSchema(method_))
  }

  function PackageName(pluginId: string, method_: MethodDecl): string {
    "operation.method." + pluginId + "." + SnakeCase(method_.name)
  }

  function ProtoFileName(pluginId: string, method_: MethodDecl): string {
    "operation/method/" + pluginId + "/" + SnakeCase(method_.name) + ".proto"
  }

  function InputMessage(method_: MethodDecl): MessageDef
    requires Synthesizable(method_)
  {
    MessageFromSchema(PascalCase(method_.name) + "Input", method_.args)
  }

  function OutputMessage(method_: MethodDecl): MessageDef
    requires Synthesizable(method_)
  {
    MessageFromSchema(PascalCase(method_.name) + "Output", OutputSchema(method_))
  }

  /** `MethodDescriptorProto` inside its `ServiceDescriptorProto`. */
  function ServiceBytes(package: string, pascal: string): Bytes {
    StringField(1, pascal + "Service") +
    BytesField(2, StringField(1, pascal) + StringField(2, "." + package + "." + pascal + "Input")
                  + StringField(3, "." + package + "." + pascal + "Output"))
  }

  function FileBytes(fileName: string, package: string, input: Bytes, output: Bytes, service: Bytes): Bytes {
    StringField(1, fileName) + StringField(2, package) + BytesField(4, input) + BytesField(4, output) +
    BytesField(6, service) + StringField(12, "proto3")
  }

  /** Service, messages, route, then the nested messages of both. */
  function FileSymbols(package: string, pascal: string, input: MessageDef, output: MessageDef): seq<string> {
    var service := package + "." + pascal + "Service";
    [service, package + "." + pascal + "Input", package + "." + pascal + "Output", service + "." + pascal]
    + NestedSymbols(input, package + "." + input.name) + NestedSymbols(output, package + "." + output.name)
  }

  function MethodFile(pluginId: string, method_: MethodDecl): MethodDescriptor
    requires Synthesizable(method_)
  {
    var pascal := PascalCase(method_.name);
    var package := PackageName(pluginId, method_);
    var fileName := ProtoFileName(pluginId, method_);
    var input, output := InputMessage(method_), OutputMessage(method_);
    var service := package + "." + pascal + "Service";
    MethodDescriptor(
      method_.name, fileName, package, service, "/" + service + "/" + pascal,
      package + "." + pascal + "Input", package + "." + pascal + "Output",
      FileSymbols(package, pascal, input, output),
      FileBytes(fileName, package, MessageBytes(input), MessageBytes(output), ServiceBytes(package, pascal)))
  }

  method EncodeService(package: string, pascal: string) returns (service: Bytes)
    ensures service == ServiceBytes(package, pascal)
  {
    hide BytesField, StringField;
    var m := new Buffer();
    m.PutString(1, pascal);
    assert m.bytes == StringField(1, pascal);
    m.PutString(2, "." + package + "." + pascal + "Input");
    m.PutString(3, "." + package + "." + pascal + "Output");
    var svc := new Buffer();
    svc.PutString(1, pascal + "Service");
    assert svc.bytes == StringField(1, pascal + "Service");
    svc.PutBytes(2, m.bytes);
    return svc.bytes;
  }

  method EncodeFile(fileName: string, package: string, input: MessageDef, output: MessageDef, service: Bytes)
    returns (bytes: Bytes)
    ensures bytes == FileBytes(fileName, package, MessageBytes(input), MessageBytes(output), service)
  {
    hide BytesField, StringField, MessageBytes;
    var file := new Buffer();
    file.PutString(1, fileName);
    assert file.bytes == StringField(1, fileName);
    file.PutString(2, package);
    var message := EncodeMessage(input);
    file.PutBytes(4, message);
    message := EncodeMessage(output);
    file.PutBytes(4, message);
    file.PutBytes(6, service);
    file.PutString(12, "proto3");
    return file.bytes;
  }

  /** `method_file_descriptor`. */
  method MethodFileDescriptor(pluginId: string, method_: MethodDecl) returns (info: MethodDescriptor)
    requires Synthesizable(method_)
    ensures info == MethodFile(pluginId, method_)
  {
    hide PackageName, ProtoFileName, PascalCase, MessageFromSchema, MessageBytes, FileBytes, ServiceBytes,
         NestedSymbols, SchemaEnds, OutputSchema;
    var pascal := PascalCase(method_.name);
    var package, fileName := PackageName(pluginId, method_), ProtoFileName(pluginId, method_);
    var input := SynthesizeFromSchema(pascal + "Input", method_.args);
    var output := SynthesizeFromSchema(pascal + "Output", OutputSchema(method_));
    var service := EncodeService(package, pascal);
    var file := EncodeFile(fileName, package, input, output, service);
    var serviceFull := package + "." + pascal + "Service";
    var symbols := [serviceFull, package + "." + pascal + "Input", package + "." + pascal + "Output",
                    serviceFull + "." + pascal];
    symbols := CollectNestedSymbols(input, package + "." + input.name, symbols);
    symbols := CollectNestedSymbols(output, package + "." + output.name, symbols);
    assert symbols == FileSymbols(package, pascal, input, output);
    return MethodDescriptor(
        method_.name, fileName, package, serviceFull, "/" + serviceFull + "/" + pascal,
        package + "." + pascal + "Input", package + "." + pascal + "Output", symbols, file);
  }

  // ---------------------------------------------------------------- a plugin's set

  ghost predicate AllSynthesizable(schema: PluginSchema) {
    forall k | k in schema.methods :: Synthesizable(schema.methods[k])
  }

  /** The `i`-th method in key order. */
  function MethodAt(schema: PluginSchema, i: nat): (m: MethodDecl)
    requires i < |schema.methods|
  {
    schema.methods[Keys(schema.methods.Keys)[i]]
  }

  function InfoAt(pluginId: string, schema: PluginSchema, i: nat): MethodDescriptor
    requires AllSynthesizable(schema) && i < |schema.methods|
  {
    MethodFile(pluginId, MethodAt(schema, i))
  }

  /** The descriptors of the first `n` methods in key order. */
  function Infos(pluginId: string, schema: PluginSchema, n: nat): seq<MethodDescriptor>
    requires AllSynthesizable(schema) && n <= |schema.methods|
  {
    seq(n, i requires 0 <= i < n => InfoAt(pluginId, schema, i))
  }

  function FilesOfInfos(infos: seq<MethodDescriptor>): (r: seq<Bytes>)
    ensures |r| == |infos| && forall i | 0 <= i < |infos| :: r[i] == infos[i].file
  {
    seq(|infos|, i requires 0 <= i < |infos| => infos[i].file)
  }

  function MethodInfos(pluginId: string, schema: PluginSchema): seq<MethodDescriptor>
    requires AllSynthesizable(schema)
  {
    Infos(pluginId, schema, |schema.methods|)
  }

  function DescriptorSet(pluginId: string, schema: PluginSchema): Bytes
    requires AllSynthesizable(schema)
  {
    SetOf(FilesOfInfos(MethodInfos(pluginId, schema)))
  }

  lemma {:induction false} SetOfSnoc(files: seq<Bytes>, f: Bytes)
    ensures SetOf(files + [f]) == SetOf(files) + BytesField(1, f)
  {
    hide BytesField;
    if files == [] {
      assert files + [f] == [f];
    } else {
      assert (files + [f])[1..] == files[1..] + [f];
      SetOfSnoc(files[1..], f);
    }
  }

  lemma InfosSnoc(pluginId: string, schema: PluginSchema, i: nat)
    requires AllSynthesizable(schema) && i < |schema.methods|
    ensures Infos(pluginId, schema, i + 1) == Infos(pluginId, schema, i) + [InfoAt(pluginId, schema, i)]
  {
    hide InfoAt, AllSynthesizable;
  }

  lemma SetOfInfosSnoc(infos: seq<MethodDescriptor>, info: MethodDescriptor)
    ensures SetOf(FilesOfInfos(infos + [info])) == SetOf(FilesOfInfos(infos)) + BytesField(1, info.file)
  {
    hide SetOf, BytesField;
    SetOfSnoc(FilesOfInfos(infos), info.file);
    assert FilesOfInfos(infos + [info]) == FilesOfInfos(infos) + [info.file];
  }

  method DescriptorSetForPlugin(pluginId: string, schema: PluginSchema)
    returns (bytes: Bytes, infos: seq<MethodDescriptor>)
    requires AllSynthesizable(schema)
    ensures bytes == DescriptorSet(pluginId, schema) && infos == MethodInfos(pluginId, schema)
  {
    hide BytesField, AllSynthesizable, MethodFile, MethodAt;
    var set_ := new Buffer();
    infos := [];
    for i := 0 to |schema.methods|
      invariant infos == Infos(pluginId, schema, i)
      invariant set_.bytes == SetOf(FilesOfInfos(infos))
    {
      MethodIsSynthesizable(schema, i);
      var info := MethodFileDescriptor(pluginId, MethodAt(schema, i));
      assert info == InfoAt(pluginId, schema, i);
      InfosSnoc(pluginId, schema, i);
      SetOfInfosSnoc(infos, info);
      set_.PutBytes(1, info.file);
      infos := infos + [info];
    }
    bytes := set_.bytes;
  }

  // ---------------------------------------------------------------- round trip

  /** A message opens with its own name. */
  lemma MessageOpensWithName(m: MessageDef)
    requires |MessageBytes(m)| < U64
    ensures FirstStringAt(MessageBytes(m), 0) == Some(m.name)
  {
    hide FirstStringAt, StringField, FieldsBytes, NestedBytes;
    var rest := FieldsBytes(m.fields, |m.fields|) + NestedBytes(m, |m.nested|);
    assert MessageBytes(m) == StringField(1, m.name) + rest;
    FirstStringReadsBack(m.name, rest);
  }

  lemma ServiceOpensWithName(package: string, pascal: string)
    requires |ServiceBytes(package, pascal)| < U64
    ensures FirstStringAt(ServiceBytes(package, pascal), 0) == Some(pascal + "Service")
  {
    hide FirstStringAt, StringField, BytesField;
    var rest := BytesField(2, StringField(1, pascal) + StringField(2, "." + package + "." + pascal + "Input")
                           + StringField(3, "." + package + "." + pascal + "Output"));
    FirstStringReadsBack(pascal + "Service", rest);
  }

  /** The six fields of a file, one after the other. */
  lemma FileReadsBack(fileName: string, package: string, input: Bytes, output: Bytes, service: Bytes)
    requires |FileBytes(fileName, package, input, output, service)| < U64
    requires FirstStringAt(input, 0).Some? && FirstStringAt(output, 0).Some? && FirstStringAt(service, 0).Some?
    ensures
      NamesAt(FileBytes(fileName, package, input, output, service), 0, NO_NAMES) ==
      Some(FileNames(fileName, package, [FirstStringAt(input, 0).value, FirstStringAt(output, 0).value],
                     [FirstStringAt(service, 0).value]))
  {
    hide NamesAt, BytesField, FirstStringAt, FromUtf8Lossy, Utf8;
    var b := FileBytes(fileName, package, input, output, service);
    var p1, p2, p3 := BytesField(1, Utf8(fileName)), BytesField(2, Utf8(package)), BytesField(4, input);
    var p4, p5, p6 := BytesField(4, output), BytesField(6, service), BytesField(12, Utf8("proto3"));
    assert b == p1 + p2 + p3 + p4 + p5 + p6;
    AtSix(b, p1, p2, p3, p4, p5, p6);
    Utf8RoundTrip(fileName);
    Utf8RoundTrip(package);
    var s1 := NO_NAMES.(name := fileName);
    var s2 := s1.(package := package);
    var s3 := s2.(messages := s2.messages + [FirstStringAt(input, 0).value]);
    var s4 := s3.(messages := s3.messages + [FirstStringAt(output, 0).value]);
    var s5 := s4.(services := s4.services + [FirstStringAt(service, 0).value]);
    NamesStep(b, 0, 1, Utf8(fileName), NO_NAMES);
    NamesStep(b, |p1|, 2, Utf8(package), s1);
    NamesStep(b, |p1| + |p2|, 4, input, s2);
    NamesStep(b, |p1| + |p2| + |p3|, 4, output, s3);
    NamesStep(b, |p1| + |p2| + |p3| + |p4|, 6, service, s4);
    NamesStep(b, |p1| + |p2| + |p3| + |p4| + |p5|, 12, Utf8("proto3"), s5);
    NamesAtEnd(b, s5);
    assert s5.messages == [FirstStringAt(input, 0).value, FirstStringAt(output, 0).value];
    assert s5.services == [FirstStringAt(service, 0).value];
  }

  lemma NamesAtEnd(b: Bytes, s: FileNames)
    ensures NamesAt(b, |b|, s) == Some(s)
  {
  }

  lemma AtSix(b: Bytes, p1: Bytes, p2: Bytes, p3: Bytes, p4: Bytes, p5: Bytes, p6: Bytes)
    requires b == p1 + p2 + p3 + p4 + p5 + p6
    ensures At(b, 0, p1) && At(b, |p1|, p2) && At(b, |p1| + |p2|, p3) && At(b, |p1| + |p2| + |p3|, p4)
    ensures At(b, |p1| + |p2| + |p3| + |p4|, p5) && At(b, |p1| + |p2| + |p3| + |p4| + |p5|, p6)
  {
    AtSplit(b, 0, p1 + p2 + p3 + p4 + p5, p6);
    AtSplit(b, 0, p1 + p2 + p3 + p4, p5);
    AtSplit(b, 0, p1 + p2 + p3, p4);
    AtSplit(b, 0, p1 + p2, p3);
    AtSplit(b, 0, p1, p2);
  }

  /** What reflection reads off one method's file. */
  function NamesFor(pluginId: string, method_: MethodDecl): FileNames {
    var pascal := PascalCase(method_.name);
    FileNames(ProtoFileName(pluginId, method_), PackageName(pluginId, method_),
              [pascal + "Input", pascal + "Output"], [pascal + "Service"])
  }

  lemma BytesFieldContains(field: nat, b: Bytes)
    ensures |b| <= |BytesField(field, b)|
  {
  }

  lemma MethodFileReadsBack(pluginId: string, method_: MethodDecl)
    requires Synthesizable(method_) && |MethodFile(pluginId, method_).file| < U64
    ensures NamesAt(MethodFile(pluginId, method_).file, 0, NO_NAMES) == Some(NamesFor(pluginId, method_))
  {
    hide NamesAt, FirstStringAt, BytesField, StringField, MessageBytes, ServiceBytes, FileSymbols, Synthesizable;
    var pascal, package := PascalCase(method_.name), PackageName(pluginId, method_);
    var input, output := InputMessage(method_), OutputMessage(method_);
    var service := ServiceBytes(package, pascal);
    BytesFieldContains(4, MessageBytes(input));
    BytesFieldContains(4, MessageBytes(output));
    BytesFieldContains(6, service);
    MessageOpensWithName(input);
    MessageOpensWithName(output);
    ServiceOpensWithName(package, pascal);
    FileReadsBack(ProtoFileName(pluginId, method_), package, MessageBytes(input), MessageBytes(output), service);
  }

  lemma {:induction false} FileFitsInSet(files: seq<Bytes>, i: nat)
    requires i < |files|
    ensures |files[i]| <= |SetOf(files)|
  {
    hide BytesField;
    BytesFieldContains(1, files[0]);
    if i > 0 { FileFitsInSet(files[1..], i - 1); }
  }

  /** Decoding a plugin's set gives, in sorted key order, one summary for each method, with
      that method's names, borrowing exactly that method's bytes. */
  lemma DescriptorSetReadsBack(pluginId: string, schema: PluginSchema)
    requires AllSynthesizable(schema) && |DescriptorSet(pluginId, schema)| < U64
    ensures
      var set_ := DescriptorSet(pluginId, schema);
      var fs := FilesAt(set_, 0);
      fs.Some? && |fs.value| == |schema.methods| &&
      forall i | 0 <= i < |fs.value| ::
        fs.value[i].names == NamesFor(pluginId, MethodAt(schema, i)) &&
        fs.value[i].lo <= fs.value[i].hi <= |set_| &&
        set_[fs.value[i].lo..fs.value[i].hi] == InfoAt(pluginId, schema, i).file
  {
    hide SetOf, FilesAt, NamesAt, MethodFile, AllSynthesizable, NamesFor;
    var set_ := DescriptorSet(pluginId, schema);
    var files := FilesOfInfos(MethodInfos(pluginId, schema));
    forall i | 0 <= i < |files|
      ensures NamesAt(files[i], 0, NO_NAMES) == Some(NamesFor(pluginId, MethodAt(schema, i)))
    {
      FileFitsInSet(files, i);
      MethodIsSynthesizable(schema, i);
      MethodFileReadsBack(pluginId, MethodAt(schema, i));
    }
    assert At(set_, 0, SetOf(files));
    SetDecodes(set_, 0, files);
    forall i | 0 <= i < |files|
      ensures Summarizes(set_, FilesAt(set_, 0).value[i], files[i])
    {
    }
  }

  lemma MethodIsSynthesizable(schema: PluginSchema, i: nat)
    requires AllSynthesizable(schema) && i < |schema.methods|
    ensures Synthesizable(MethodAt(schema, i))
  {
  }
}
