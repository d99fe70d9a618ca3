/** `blobify_canonical`: one `PluginSchema` frozen into an unsealed blob. The canonical JSON
    of the schema and the metadata JSON are texts handed in by the caller. */
module Blobify {
  import opened Text
  import opened Ordering
  import opened Schema
  import opened Messages
  import Descriptor
  import opened Blob

  /** `str::to_lowercase` of a whole name, whatever it is. */
  const LOWERCASE: string -> string

  function HyphensToUnderscores(s: string): string {
    if s == "" then "" else [if s[0] == '-' then '_' else s[0]] + HyphensToUnderscores(s[1..])
  }

  function CanonicalPluginId(name: string): string { HyphensToUnderscores(LOWERCASE(name)) }

  /** The declaration a descriptor came from: by key, else any method of that name. */
  ghost function Declaration(schema: PluginSchema, name: string): MethodDecl
    requires exists k :: k in schema.methods && schema.methods[k].name == name
  {
    if name in schema.methods then schema.methods[name]
    else
      var k :| k in schema.methods && schema.methods[k].name == name;
      schema.methods[k]
  }

  ghost function ManifestFor(schema: PluginSchema, d: Descriptor.MethodDescriptor): MethodManifest
    requires exists k :: k in schema.methods && schema.methods[k].name == d.methodName
  {
    var decl := Declaration(schema, d.methodName);
    MethodManifest(decl.name, PascalCase(decl.name), d.grpcPath, d.serviceFull, d.fileName, d.inputFull,
                   d.outputFull, decl.subid, decl.requiredCapability, decl.sideEffect, decl.idempotent, d.symbols)
  }

  lemma InfoHasDeclaration(pluginId: string, schema: PluginSchema, i: nat)
    requires Descriptor.AllSynthesizable(schema) && i < |schema.methods|
    ensures exists k ::
              k in schema.methods &&
              schema.methods[k].name == Descriptor.InfoAt(pluginId, schema, i).methodName
  {
    assert Keys(schema.methods.Keys)[i] in schema.methods;
  }

  ghost function MethodManifestAt(pluginId: string, schema: PluginSchema, i: nat): MethodManifest
    requires Descriptor.AllSynthesizable(schema) && i < |schema.methods|
  {
    InfoHasDeclaration(pluginId, schema, i);
    ManifestFor(schema, Descriptor.InfoAt(pluginId, schema, i))
  }

  /** `sort_by` is stable. */
  function InsertByName(m: MethodManifest, sorted: seq<MethodManifest>): (r: seq<MethodManifest>)
    ensures multiset(r) == multiset{m} + multiset(sorted)
  {
    if sorted == [] then [m]
    else if Le(m.schemaName, sorted[0].schemaName) then [m] + sorted
    else
      assert sorted == [sorted[0]] + sorted[1..];
      [sorted[0]] + InsertByName(m, sorted[1..])
  }

  function SortByName(ms: seq<MethodManifest>): (r: seq<MethodManifest>)
    ensures multiset(r) == multiset(ms)
  {
    if ms == [] then [] else
      assert ms == [ms[0]] + ms[1..];
      InsertByName(ms[0], SortByName(ms[1..]))
  }

  ghost function Manifests(pluginId: string, schema: PluginSchema): seq<MethodManifest>
    requires Descriptor.AllSynthesizable(schema)
  {
    SortByName(seq(|schema.methods|, i requires 0 <= i < |schema.methods| => MethodManifestAt(pluginId, schema, i)))
  }

  function Services(ms: seq<MethodManifest>): (r: seq<string>)
    ensures |r| == |ms| && forall i | 0 <= i < |ms| :: r[i] == ms[i].grpcService
  {
    seq(|ms|, i requires 0 <= i < |ms| => ms[i].grpcService)
  }

  function Files(ms: seq<MethodManifest>): (r: seq<string>)
    ensures |r| == |ms| && forall i | 0 <= i < |ms| :: r[i] == ms[i].grpcFile
  {
    seq(|ms|, i requires 0 <= i < |ms| => ms[i].grpcFile)
  }

  ghost function BlobifyCanonical(
    schema: PluginSchema, schemaJson: string, metaJson: string, identity: Option<BlobIdentity>): PluginObjectBlob
    requires Descriptor.AllSynthesizable(schema)
  {
    var pluginId := CanonicalPluginId(schema.name);
    var methods := Manifests(pluginId, schema);
    PluginObjectBlob(
      BlobManifest(
        "active_reflection", pluginId, schema.version, Hex(SHA256(Utf8(schemaJson))),
        DbusIdentity("org.opdbus.v1.plugins", "/org/opdbus/v1/plugins/" + pluginId, "org.opdbus.v1.PluginV1"),
        GrpcIdentity(Sort(multiset(Services(methods))), Sort(multiset(Files(methods)))),
        identity, methods),
      schemaJson, Descriptor.DescriptorSet(pluginId, schema), metaJson)
  }

  /** The manifest lists one entry per method, each carrying that method's descriptor names. */
  lemma ManifestCoversMethods(pluginId: string, schema: PluginSchema, m: MethodManifest)
    requires Descriptor.AllSynthesizable(schema)
    ensures m in Manifests(pluginId, schema) <==>
            exists i :: 0 <= i < |schema.methods| && m == MethodManifestAt(pluginId, schema, i)
  {
    hide MethodManifestAt, Descriptor.AllSynthesizable, SortByName;
    var ms := seq(|schema.methods|, i requires 0 <= i < |schema.methods| => MethodManifestAt(pluginId, schema, i));
    assert m in Manifests(pluginId, schema) <==> m in multiset(Manifests(pluginId, schema));
    assert m in ms <==> m in multiset(ms);
    forall i | 0 <= i < |ms| && m == MethodManifestAt(pluginId, schema, i) ensures m in ms { assert m == ms[i]; }
  }
}
