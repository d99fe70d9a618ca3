# Verified models of op-blob, the service cycle checker and the OpenFlow controller

This project models three parts of the repository in Dafny and proves what they promise.

**The blob pipeline** (`crates/op-blob`). A `PluginSchema` becomes one protobuf descriptor file per
method (`JsonSchema`, `References`, `Messages`, `SymbolNames`, `Wire`, `Descriptor`; `Inlining` says
what references mean, `ProtoTypes` and `NameForms` which types and names come out, and
`DescriptorReader` reads the bytes back by the field numbers of google/protobuf/descriptor.proto),
the files are sealed with schema, manifest and metadata into a sectioned, hash-checked image
(`Blob`, `Resealing`, `ImageReading`, `Blobify`, `ManifestReading`), the image is opened without
copying and indexed by absolute offsets (`Summaries`, `ReflectionIndex`, `ZeroCopy`, `Serving`), and
the result lives in a catalog whose memory and directory must agree (`CatalogIdentity`,
`CatalogState`, `Publication`, `Catalog`). `EndToEnd` joins all layers: after any run of
publications, removals, retentions and reopenings, what the catalog serves is what was synthesized
from the schema last published. `SchemaText`, `SchemaMethods` and `SchemaRoundTrip` cover printing a
schema as JSON Schema and reading it back, `FieldReading` and `Doubles` reading any other document;
`Drift` and `DriftReport` cover the drift report; `Base64` the key encoding.

**The cycle checker** (`deploy/runit/check-dep-cycles.py`). The three-colour search is a class with
its colours, stack and report as fields (`Graphs`, `DepCycles`).

**The OpenFlow controller** (`emergent-handoff/src`). `OpenFlow` is the switch's flow table as in
section 6.4 of the OpenFlow Switch Specification 1.3.0, its keys and actions in the form in which
they are sent; `PortDiscovery` is the port description replies of its section A.3.5. `Numerals`,
`FlowMatch` and `FlowTranslate` are the translation of JSON flow entries on top of the setters of
`vendor/rovs-openflow`; `FieldTexts` says what the texts of an entry name, `PacketRule` which
packets its match accepts and `ActionRule` what its actions do to them. `MatchWire` is the bytes of
a match and their reading. `Session` is one controller session as an object that reads a queue of
messages and sends, `Exchange` what it says, message by message, `Fallback` the in-band safety of
whole sessions, and `Reconnect` the managed entries and the effect of reconnecting.

Code that loops over fields, buffers, files or messages is a method with a loop, or a class whose
methods update its fields, and each is proved against a function that says what it computes;
properties over several operations or whole runs are lemmas about those functions. Hash maps are
iterated in arbitrary order wherever the program does so.

## Assumptions

SHA-256, Blake3, case tables of Unicode and the printing of doubles are unspecified functions; of
the case tables it is assumed that only a full stop has one in its upper-case form, and that no
lower-case form is empty, ends in an underscore or has a full stop and no separator is a capital.
Doubles are their bit patterns. `Drift` assumes where it says so that different doubles print
differently, which some printer does (`Drift.SomePrinterTellsApart`). JSON text of the manifests is
a pair of functions of which the parser undoes the printer for generations below 2^64. `serde_json`
objects are maps. A walk over a schema requires that it ends, which `References.EndsIffNoReturn`
makes a condition on the references it follows; where it does not hold the program recurses until
its stack is used up. Lengths and offsets fit 64 bits. Of `vendor/rovs-openflow`, which the root
manifest selects, the match setters, the encoding of a match and of its fields, and which action
becomes which are modelled; a modification is an addition or deletion of a key as the switch reads
it, an added flow has table 0, cookie 0 and no timeouts unless set, and a non-strict delete without
a table covers all tables. A switch accepts every modification sent. Each JSON text is parsed into a
hash map that yields its keys in an order of its own. The cookies are those of
`crates/op-network/src/datapath_safe.rs:87-90`; the `datapath_safe` module of the handoff directory
is not part of this model. `emergent-handoff/controller-current.rs` repeats
`emergent-handoff/src/controller.rs` and is modelled once.

## Where the code and its documentation differ

The models follow the code. `from_sealed(b).seal() == b` is documented for readable images, but
reserved header bytes are not read (`Blob.ReservedByteIsLost`); it holds exactly for canonical
images (`Resealing.ResealsIffCanonical`). An empty drift report is documented as exact reproduction,
but enum members, `read_only_when`, methods and dialect are not compared and union branches only as
a sorted list (`Drift.ExchangedBranchesGoUnseen`). Publishing an image that cannot be indexed fails
only after the directory was changed (`CatalogState.FailedUpsertDisagrees`), and a plugin id with a
full stop can delete another plugin's file (`CatalogState.CaptureShape`). A crash between the rename
and the removal of older versions leaves two versions visible (`Publication.CrashAgreesIff`) until
the plugin is published again; removing it then lets the next opening bring it back
(`Publication.RemovedReturnsIff`). Any message other than an echo request or a port reply ends port
discovery early (`PortDiscovery.OtherMessageCutsDiscovery`). A JSON flow for table 0, priority 0
without match fields replaces the NORMAL fallback (`Fallback.StaticFlowCanClobber`). The translator
is documented never to send a flow looser than asked for, but `tcp_flags` is not encoded, so that a
flow asking for it alone takes the fallback's place and one asking for it beside a port a configured
flow's (`Fallback.SynFlowTakesTheFallback`, `Reconnect.TcpFlagsTakeManagedPlace`), and a type other
than IPv4 beside an address is sent or not as the hash map's order has it
(`FlowMatch.TypeBesideAddress`). Of markers that contradict each other the first one tested is sent
(`PacketRule.ArpBesideIp`), and the thirteenth bit of a VLAN id is taken for the one that says a tag
is present (`PacketRule.WideIdIsAnotherVlan`); otherwise the rule holds
(`PacketRule.NothingLooserIff`). Programming a switch again is to change nothing, which that order
can spoil too (`Reconnect.ReconnectChangesNothingIff`). A definition that says `null` is not
filtered from a union behind a reference (`Inlining.InlinedBranchIff`), the notes of a definition
are not read through a reference (`Inlining.InlinedPropertyIff`), and an optional array written as a
union travels as text (`ProtoTypes.OptionalProperty`). A method declared under a key that is not its
name, beside one declared under that name, gets the manifest entry of the other
(`ManifestReading.ManifestEntryReads`). Synthesis and the reading of types recurse without end on
schemas whose references lead back where they follow them.

## Model

| member | source | states |
|---|---|---|
| `Wire.Buffer.PutVarint` | crates/op-blob/src/descriptor.rs:305-315 | the byte loop appends exactly the base-128 form of the value |
| `Wire.Buffer.PutBytes` | crates/op-blob/src/descriptor.rs:330-334 | tag, length and payload are appended, nothing else changes |
| `Wire.Reader.ReadVarint` | crates/op-blob/src/descriptor.rs:464-482 | the decoding loop returns what the position-based specification reads and advances past it; truncation and an eleventh byte are errors |
| `Wire.Reader.Skip` | crates/op-blob/src/descriptor.rs:504-521 | skips exactly one value of wire types 0, 1, 2 and 5 inside the input; every other wire type, and a value that runs past the end, is an error |
| `Wire.WrittenIsSkipped` | crates/op-blob/src/descriptor.rs:504-521 | whatever value of the four wire types stands there, in whatever buffer, skipping it ends right behind it, and nothing of another type can be skipped |
| `Wire.VarintReadsBack` | crates/op-blob/src/descriptor.rs:305-315 | every u64 written anywhere in a buffer reads back, in at most ten bytes |
| `Wire.TagReadsBack` | crates/op-blob/src/descriptor.rs:317-319 | every (field, wire type) pair reads back |
| `Wire.BytesFieldReadsBack` | crates/op-blob/src/descriptor.rs:330-334 | a length-delimited field reads back as its number and exactly its payload |
| `Summaries.DecodeFileSummaries` | crates/op-blob/src/descriptor.rs:404-417 | the loop over the set computes the specified list of summaries, on every byte string |
| `Summaries.DecodeFileSummary` | crates/op-blob/src/descriptor.rs:419-440 | the loop over one file collects name, package, message and service names |
| `Summaries.DecoderIsTotal` | crates/op-blob/src/descriptor.rs:404-440 | on every input decoding fails exactly when the bytes are not a gapless row of fields or some file in it does not decode; otherwise it consumes everything and lists precisely those files |
| `Summaries.SlicesInOrder` | crates/op-blob/src/descriptor.rs:404-417 | borrowed slices are in order, disjoint and inside the input |
| `Summaries.SetDecodes` | crates/op-blob/src/descriptor.rs:404-417 | a concatenation of encoded files decodes to one summary per file, in order, each borrowing that file's bytes |
| `DepCycles.FindCycles` | deploy/runit/check-dep-cycles.py:47-69 | terminates on every graph and in every iteration order; every reported list is a real cycle; nothing is reported exactly when the graph restricted to its own nodes is acyclic; and removing the reported closing edges leaves no cycle |
| `DepCycles.CycleSearch.Visit` | deploy/runit/check-dep-cycles.py:53-64 | one visit blackens its node, leaves gray and black nodes alone and restores the stack; the set of white nodes is the termination measure |
| `DepCycles.EveryCycleIsHit` | deploy/runit/check-dep-cycles.py:47-69 | every cycle of the graph, reported or not, runs over the closing edge of some reported one |
| `DepCycles.FinishedIsAcyclic` | deploy/runit/check-dep-cycles.py:53-64 | a finishing order in which every edge goes back or closes a report leaves an acyclic graph |
| `Graphs.AcyclicIffRanked` | deploy/runit/check-dep-cycles.py:47-69 | having no closed walk is the same as having a ranking every edge lowers |
| `References.Resolve` | crates/op-blob/src/descriptor.rs:250-258 | wherever the chain of references ends, following it gives a node that refers to no definition; which node that is, `Inlining.ResolveIff` and `Inlining.NamedDefinition` say |
| `References.ResolveIsIdempotent` | crates/op-blob/src/descriptor.rs:250-258 | resolving twice is resolving once |
| `References.EndsIffNoReturn` | crates/op-blob/src/descriptor.rs:157-258 | a walk over a schema and its definitions (resolving, synthesizing, reading types) ends exactly when no chain of the calls it makes comes back to a call; only finitely many calls can be met |
| `References.AcyclicEnds` | crates/op-blob/src/descriptor.rs:250-258 | definitions whose references are acyclic are enough for every walk to end, from every node |
| `References.RecursiveUnion` | crates/op-blob/src/descriptor.rs:215-231 | but not necessary, and the walks differ: a union that refers to itself has a protobuf type, since a union of two branches travels as text, while reading it as a field type does not end |
| `JsonSchema.LastSegmentIff` | crates/op-blob/src/descriptor.rs:252 | the key of a reference is the one text without a slash that the reference is, or that stands behind its last slash |
| `Inlining.ResolveIff` | crates/op-blob/src/descriptor.rs:250-258 | resolving a node ends exactly when its references lead, one after the other, to a node that refers to no definition; and that is what it gives |
| `Inlining.NamedDefinition` | crates/op-blob/src/descriptor.rs:250-258 | whatever stands before the last slash, the definition of the name behind it is meant; a reference to no definition stays |
| `Inlining.DefinitionsOf` | crates/op-blob/src/descriptor.rs:157-162 | definitions are those under `$defs`, and only without it those under `definitions` |
| `Inlining.InliningKeepsType` | crates/op-blob/src/adapter.rs:88-143 | writing definitions in place of references, at any depth below, changes no field type |
| `Inlining.InliningKeepsProto` | crates/op-blob/src/descriptor.rs:209-247 | and no protobuf type |
| `Inlining.InliningKeepsProperty` | crates/op-blob/src/descriptor.rs:173-190 | and no property of a message, repeated or not |
| `Inlining.InliningKeepsMessage` | crates/op-blob/src/descriptor.rs:165-196 | so it changes no message |
| `Inlining.InliningKeepsSchema` | crates/op-blob/src/descriptor.rs:157-163 | nor what is synthesized from a whole document |
| `Inlining.InlinedPropertyIff` | crates/op-blob/src/adapter.rs:154-173 | a property read through a reference is the one its definition gives exactly when the notes beside the reference are those of the definition: the reader looks for them at the reference |
| `Inlining.InlinedBranchIff` | crates/op-blob/src/adapter.rs:93-110 | a union of two or more alternatives reads the same with a definition written out for one of them exactly when that says `null` as the reference did: the filter for `null` does not follow references |
| `NameForms.NamesByPieces` | crates/op-blob/src/descriptor.rs:336-383 | the Pascal-case, snake-case and JSON forms of a name, character by character: what each becomes by itself and by the one before it |
| `ProtoTypes.TypeOfDocument` | crates/op-blob/src/descriptor.rs:234-247 | in any document: integers get type 3, numbers 1, booleans 8, objects with properties 11 and a nested message, and all the rest 9 |
| `ProtoTypes.UnionOfDocument` | crates/op-blob/src/descriptor.rs:215-232 | a union gets the type of its only alternative beside `null`, and 9 when there are more or none |
| `ProtoTypes.UnionReadsAsOnly` | crates/op-blob/src/adapter.rs:93-110 | and reads as that alternative |
| `ProtoTypes.NullableTypeIsType` | crates/op-blob/src/descriptor.rs:260-267 | `type: [x, "null"]` is synthesized and read as `x` is, as a type and as a property, whatever else the node says |
| `ProtoTypes.OptionalProperty` | crates/op-blob/src/descriptor.rs:198-207 | an optional property written as a union gets the type of its alternative and is never repeated; so an optional array travels as text |
| `ProtoTypes.PrintedProto` | crates/op-blob/src/descriptor.rs:209-247 | the printed node of every type of the schema, at any depth: 3 for integers, 1 for floats, 8 for booleans, 9 for text, enums, anything, arrays and unions of several branches, 11 and the declared message for objects |
| `ProtoTypes.PrintedProperty` | crates/op-blob/src/descriptor.rs:173-190 | as a property: repeated exactly for arrays, with the type of their items |
| `ProtoTypes.PrintedMessage` | crates/op-blob/src/descriptor.rs:165-196 | so the message of a printed object type has one field for each of its fields, in name order, of these types |
| `ProtoTypes.PrintedObjectIsDeclared` | crates/op-blob/src/descriptor.rs:157-163 | printing and synthesis agree on every object type, at every depth |
| `Messages.SynthesizeMessage` | crates/op-blob/src/descriptor.rs:165-196 | wherever synthesis ends, the property loop builds the specified message, recursion over references included |
| `Messages.MessageIsWellFormed` | crates/op-blob/src/descriptor.rs:157-247 | wherever synthesis ends: fields are numbered 1..n in name order, message types are named after their fields, and message-typed fields and nested messages correspond one to one, in order and by name, at every depth |
| `Messages.CollectNestedSymbols` | crates/op-blob/src/descriptor.rs:269-278 | the recursive loop appends the symbol list of the message |
| `Messages.SymbolsAreThePaths` | crates/op-blob/src/descriptor.rs:269-278 | exactly one symbol for each nested message at any depth, and it is that message's qualified name |
| `SymbolNames.SiblingsAreDistinct` | crates/op-blob/src/descriptor.rs:209-247 | nested messages of one message have different names exactly when no two message-typed fields share a Pascal-case form |
| `SymbolNames.NestedSymbolsDistinct` | crates/op-blob/src/descriptor.rs:269-278 | the symbols of a message are all different exactly when that holds at every depth |
| `SymbolNames.MethodSymbolsDistinct` | crates/op-blob/src/descriptor.rs:70-133 | all symbols of a method's file, service, route and messages included, are different exactly when it holds throughout its input and output |
| `Descriptor.EncodeMessage` | crates/op-blob/src/descriptor.rs:281-301 | the encoder emits name, then fields, then nested messages |
| `Descriptor.MethodFileDescriptor` | crates/op-blob/src/descriptor.rs:70-133 | wherever synthesis ends, the file of a method is its names, both synthesized messages, the service and the syntax, and its symbols are service, messages, route and then the nested messages collected from both |
| `Descriptor.DescriptorSetForPlugin` | crates/op-blob/src/descriptor.rs:52-64 | one encoded file per method in sorted key order, with matching method records |
| `Descriptor.MethodFileReadsBack` | crates/op-blob/src/descriptor.rs:70-133 | reflection reads off a method's file its file name, package, both message names and service name |
| `Descriptor.DescriptorSetReadsBack` | crates/op-blob/src/descriptor.rs:52-64 | decoding a plugin's set gives one summary per method in key order with that method's names, borrowing exactly that method's encoded file |
| `DescriptorReader.ParseEncoded` | crates/op-blob/src/descriptor.rs:305-334 | any list of wire fields the put functions write parses back as that list |
| `DescriptorReader.FieldReadsBack` | crates/op-blob/src/descriptor.rs:285-297 | an encoded field read by number gives its name, number, label, type, type name and JSON name |
| `DescriptorReader.MessageReadsBack` | crates/op-blob/src/descriptor.rs:281-301 | the bytes of a well-formed message, read as descriptor.proto says, are that message with its nested messages at every depth |
| `DescriptorReader.MethodFileDescribesMethod` | crates/op-blob/src/descriptor.rs:70-133 | a method's file, read as descriptor.proto says, describes exactly the two messages synthesized from its schemas and a service whose one method takes and returns them |
| `Blob.SealImage` | crates/op-blob/src/blob.rs:243-287 | the offset, table, padding and payload loops produce the specified image |
| `Blob.OpenImage` | crates/op-blob/src/blob.rs:323-368 | the reader accepts and rejects exactly as specified: magic, version, table bounds, UTF-8 text, schema hash |
| `ImageReading.OpensIff` | crates/op-blob/src/blob.rs:323-368 | a byte string opens exactly when it has the magic, version 1, a table whose rows and the sections they point to lie inside it, and first sections with tags 1 and 2 that are UTF-8, the first with the hash of the header |
| `ImageReading.SectionIff` | crates/op-blob/src/blob.rs:370-399 | a section is read exactly as the bytes the first row with its tag points to |
| `Blob.ImageIsLaid` | crates/op-blob/src/blob.rs:243-287 | section ranges are 8-aligned, pairwise disjoint and in bounds, for any sections |
| `Blob.SealOpens` | crates/op-blob/src/blob.rs:323-368 | every sealed image opens, with the table it was written with |
| `Blob.SectionsReadBack` | crates/op-blob/src/blob.rs:370-399 | each of the four sections of a sealed image comes back exactly |
| `Blob.SealRoundTrip` | crates/op-blob/src/blob.rs:232-241 | from_sealed undoes seal |
| `Resealing.ResealsIffCanonical` | crates/op-blob/src/blob.rs:228-241 | sealing again what was unsealed gives the same bytes exactly when the image is canonical, a condition on its bytes: four sections with tags 1 to 4 in order, reserved bytes and padding zero, offsets 8-aligned and gapless, nothing behind the last section, metadata valid UTF-8 and the manifest printed as it parses |
| `Resealing.SealIsCanonical` | crates/op-blob/src/blob.rs:243-287 | every sealed image is canonical |
| `Blob.ReservedByteIsLost` | crates/op-blob/src/blob.rs:229-231 | the documented identity fails for readable images in general: a nonzero reserved header byte unseals but is lost |
| `Blob.TamperingIsCaught` | crates/op-blob/src/blob.rs:323-368 | replacing the schema text of a sealed image is caught, unless the new text is UTF-8 with the very same SHA-256 |
| `Blobify.ManifestCoversMethods` | crates/op-blob/src/blob.rs:152-226 | the manifest lists one entry per method, carrying that method's descriptor names and symbols |
| `ManifestReading.MethodNamesRead` | crates/op-blob/src/descriptor.rs:70-133 | the route, service, file and message names kept beside a method's file are put together from what reflection reads off its bytes: the route is a slash, package, full stop, service, a slash and the method |
| `ManifestReading.ManifestEntryReads` | crates/op-blob/src/blob.rs:166-190 | an entry of the manifest names what its method's own bytes name, input as input and output as output; it has that method's name exactly when the method declared under that name as its key, if there is one, has it too, and the rest of the declaration where that is found again by name |
| `ManifestReading.ManifestReads` | crates/op-blob/src/blob.rs:152-226 | the methods of a manifest come by name, its services and files are exactly those of the methods, sorted, and its other members are the texts the source gives them |
| `ReflectionIndex.BuildIndex` | crates/op-blob/src/catalog.rs:391-417 | the indexing loops compute the specified file and symbol maps |
| `ReflectionIndex.IndexIsInBounds` | crates/op-blob/src/catalog.rs:391-417 | whatever the image, every recorded range lies inside it |
| `ReflectionIndex.SealedIsIndexed` | crates/op-blob/src/catalog.rs:391-417 | indexing a sealed blob succeeds exactly when its descriptor set decodes, and keeps the sealed manifest and set |
| `ReflectionIndex.FileMapRanges` | crates/op-blob/src/catalog.rs:399-406 | a file name maps to the absolute range of the last file of that name |
| `ReflectionIndex.RecordedSymbol` | crates/op-blob/src/catalog.rs:407-415 | a symbol is recorded exactly when some method lists it, with a file of such a method |
| `ZeroCopy.ProjectionIsIndexed` | crates/op-blob/src/catalog.rs:391-417 | a blob made from a schema always indexes |
| `ZeroCopy.FilesAreServed` | crates/op-blob/src/catalog.rs:304-311 | every method's file is served byte for byte as synthesized if and only if methods with one snake-case name have one descriptor; no other file is served |
| `ZeroCopy.SymbolIsServed` | crates/op-blob/src/catalog.rs:313-320 | every symbol a method defines is answered with that method's own descriptor bytes |
| `ZeroCopy.ServicesAreServed` | crates/op-blob/src/blob.rs:152-226 | no phantom services: every advertised service is some method's, and looking it up serves that method's descriptor |
| `ZeroCopy.SharedSymbolSharesSnake` | crates/op-blob/src/descriptor.rs:70-133 | two methods of a plugin share a symbol only when their names share a snake-case form |
| `Serving.OnlyOwnerServesFile` | crates/op-blob/src/catalog.rs:304-311 | among all active plugins only the owner serves a method's file, whatever order the entries are asked in |
| `Serving.OnlyOwnerServesSymbol` | crates/op-blob/src/catalog.rs:313-320 | the same for every symbol of a method |
| `CatalogIdentity.HashCatalog` | crates/op-blob/src/catalog.rs:217-234 | whatever order the hash map yields the leaves in, the hash is that of the sorted leaves |
| `CatalogIdentity.CatalogBytesDetermine` | crates/op-blob/src/catalog.rs:217-234 | for NUL-free names the hashed bytes are equal exactly when the id-to-hash maps are |
| `CatalogIdentity.NulConfuses` | crates/op-blob/src/catalog.rs:217-234 | with a NUL inside a name two different catalogs feed the hasher the same bytes |
| `CatalogState.UpsertKeepsAgreement` | crates/op-blob/src/catalog.rs:153-174 | publishing keeps memory and disk in agreement if and only if the image can be indexed and the id captures no other active plugin's file; it fails exactly when the set does not decode |
| `CatalogState.FailedUpsertDisagrees` | crates/op-blob/src/catalog.rs:153-174 | an image that cannot be indexed is reported only after the directory was changed: memory and disk then disagree |
| `CatalogState.CaptureShape` | crates/op-blob/src/catalog.rs:160-169 | an id captures exactly the plugins it is a dotted prefix of, or whose id and hash it spells |
| `CatalogState.DotFreeNeverCaptures` | crates/op-blob/src/catalog.rs:160-169 | ids without a full stop capture nothing |
| `CatalogState.DropKeepsAgreement` | crates/op-blob/src/catalog.rs:177-215 | removals keep memory and disk in agreement |
| `CatalogState.ReopenRebuilds` | crates/op-blob/src/catalog.rs:118-137 | reopening a directory that agrees rebuilds the same entries, in whatever order it is read |
| `CatalogState.PathsDiffer` | crates/op-blob/src/catalog.rs:153-174 | different active plugins never share a file |
| `CatalogState.RunAgrees` | crates/op-blob/src/catalog.rs:118-215 | in every run of open, upsert, remove and retain from an empty directory the blob files are at every point exactly the active entries' files |
| `CatalogState.StepKeepsManifest` | crates/op-blob/src/catalog.rs:238-265 | after a mutation the manifest is current, and operations that write none leave it so |
| `CatalogState.ManifestChain` | crates/op-blob/src/catalog.rs:238-273 | in every run, each manifest written after the first has as previous hash the hash of the one it replaced and a generation one higher modulo 2^64 |
| `CatalogState.GenerationCounts` | crates/op-blob/src/catalog.rs:238-273 | in every run the first manifest has generation 1 and no previous hash, and the generation at any point is the number of mutations so far modulo 2^64 |
| `CatalogState.RunManifest` | crates/op-blob/src/catalog.rs:118-273 | in every run, from the first mutation on, the manifest's plugin map equals the entries at every point |
| `Publication.PublicationIsSafe` | crates/op-blob/src/catalog.rs:153-173 | at every intermediate step of a publication each visible blob is complete, other plugins' blobs are untouched, and an active plugin never has zero visible blobs |
| `Publication.CrashThenReopen` | crates/op-blob/src/blob.rs:297-309 | stop anywhere in a publication and reopen: every other plugin comes back as it was, and the published one as its old or its new entry |
| `CatalogState.UpsertRestoresAgreement` | crates/op-blob/src/catalog.rs:153-174 | publishing restores agreement where only old versions of the same id stand in its way, under the same condition |
| `Publication.CrashAgreesIff` | crates/op-blob/src/catalog.rs:118-174 | stop anywhere in a publication and reopen: memory and disk agree exactly when no two versions of the published plugin were left visible |
| `Publication.RemovedReturnsIff` | crates/op-blob/src/catalog.rs:118-191 | remove the plugin after the crash and reopen once more: one file is deleted, and the plugin is back exactly when two versions of it were visible |
| `Publication.RepublishingRestores` | crates/op-blob/src/catalog.rs:118-174 | a further publication of that id restores agreement exactly when its descriptor set decodes |
| `Catalog.Directory.Write` | crates/op-blob/src/blob.rs:301-309 | a write is visible at every prefix, and the last of them is the whole content |
| `Catalog.ActiveReflectionCatalog.Open` | crates/op-blob/src/catalog.rs:118-150 | the directory loop loads exactly what a directory allows, skipping unreadable blobs, in any order |
| `Catalog.ActiveReflectionCatalog.WriteToDir` | crates/op-blob/src/blob.rs:301-309 | every prefix of the temporary file and the renamed image are seen on the way, and every directory content seen is one the publication analysis covers |
| `Catalog.ActiveReflectionCatalog.WriteManifest` | crates/op-blob/src/catalog.rs:238-265 | the manifest is wholly the old or the new one at every point |
| `Catalog.ActiveReflectionCatalog.UpsertBlob` | crates/op-blob/src/catalog.rs:153-174 | memory and directory become what the state specification says; every prefix, the renamed image and the final directory are seen, and all that is seen is covered by the publication analysis |
| `Catalog.ActiveReflectionCatalog.RemoveBlob` | crates/op-blob/src/catalog.rs:177-191 | memory and directory become what the state specification says |
| `Catalog.ActiveReflectionCatalog.RetainPlugins` | crates/op-blob/src/catalog.rs:194-215 | the stale set is exactly the active plugins not kept, and all of them go |
| `Catalog.ActiveReflectionCatalog.FileByFilename` | crates/op-blob/src/catalog.rs:304-311 | some active entry's answer, and none only when no entry has one |
| `Catalog.ActiveReflectionCatalog.SymbolByName` | crates/op-blob/src/catalog.rs:313-320 | the same for symbols |
| `Catalog.ActiveReflectionCatalog.ListServices` | crates/op-blob/src/catalog.rs:286-295 | every service of every active blob, as often as advertised, sorted |
| `Catalog.AdvertisedInAnyOrder` | crates/op-blob/src/catalog.rs:286-295 | the listed services do not depend on the order entries are visited in |
| `EndToEnd.RunReflects` | crates/op-blob/src/catalog.rs:118-215 | after any run the active plugins are exactly those published and not removed since, each with the entry of the blob published last |
| `EndToEnd.RunServesLatest` | crates/op-blob/src/catalog.rs:118-320 | after any run the catalog serves, for every method of the schema last published under an active id, the bytes synthesized for it, by file name and by every symbol, and no other plugin answers |
| `EndToEnd.FirstPublicationServes` | crates/op-blob/src/catalog.rs:153-174 | a first publication into an empty directory is served, under conditions on the published schema alone |
| `Ordering.SortUnique` | crates/op-blob/src/catalog.rs:225 | any sorted arrangement of a bag is the one `sort` gives |
| `Ordering.LeIff` | crates/op-blob/src/catalog.rs:225 | the order of texts is that of their first differing character, a text before those it begins |
| `Text.HexAt` | crates/op-blob/src/schema.rs:290-296 | the hash of a schema is printed two digits a byte, the upper half first |
| `Text.Utf8RoundTrip` | crates/op-blob/src/descriptor.rs:500-502 | text written as UTF-8 reads back unchanged through the lossy decoder |
| `Text.LittleEndianRoundTrip` | crates/op-blob/src/blob.rs:255-280 | fixed-width integers of the image read back |
| `SchemaMethods.ToJsonSchema` | crates/op-blob/src/schema.rs:131-180 | the loops over sorted field names fill properties and required as specified |
| `SchemaMethods.FieldToJsonSchema` | crates/op-blob/src/schema.rs:221-251 | later constraints of a kind overwrite earlier ones; other annotations appear only when set |
| `SchemaMethods.TypeToJsonSchema` | crates/op-blob/src/schema.rs:253-288 | the recursive printer computes the specified node |
| `SchemaMethods.ReadFieldType` | crates/op-blob/src/adapter.rs:88-143 | wherever reading the type ends, the recursive parser computes the specified type |
| `SchemaMethods.PluginSchemaFromJson` | crates/op-blob/src/adapter.rs:19-63 | the property loop fills fields and subids as specified |
| `SchemaText.RequiredRoundTrip` | crates/op-blob/src/schema.rs:140-142 | a field is read back as required exactly when it was |
| `SchemaRoundTrip.PrintedShapeReads` | crates/op-blob/src/schema.rs:253-288 | a node with the type members of a printed type is no reference and is recognized as that type |
| `SchemaRoundTrip.TypeRoundTrip` | crates/op-blob/src/adapter.rs:88-143 | a printed type reads back as its normal form |
| `SchemaRoundTrip.FieldRoundTrip` | crates/op-blob/src/adapter.rs:154-173 | a printed field reads back as its normal form, with or without a subid |
| `SchemaRoundTrip.SchemaRoundTrip` | crates/op-blob/src/adapter.rs:19-63 | for every schema: printing and parsing gives its normal form |
| `SchemaRoundTrip.RoundTripIffPrintable` | crates/op-blob/src/adapter.rs:19-63 | the same schema comes back if and only if it has no methods, the default dialect, only unions of two or more branches, constraints limited to finite Min, Max, Pattern in that order, no read_only_when, and subids for its fields or the schema only |
| `SchemaRoundTrip.RoundTripIsIdempotent` | crates/op-blob/src/adapter.rs:19-63 | two round trips equal one, for every schema |
| `FieldReading.TypeReads` | crates/op-blob/src/adapter.rs:111-143 | a node of any document that refers to no definition and is no union reads as what its `enum`, `type`, `items`, `properties` and `required` say |
| `FieldReading.FieldReads` | crates/op-blob/src/adapter.rs:154-200 | a property of any document is read member by member: notes, default, first example, and exactly the bounds and the pattern it has, in this order |
| `FieldReading.DocumentReads` | crates/op-blob/src/adapter.rs:19-63 | a whole document: its properties, which of them are required, and the subids and immutable paths of its extensions |
| `FieldReading.DocumentPrints` | crates/op-blob/src/schema.rs:131-180 | a printed schema says its name, version, description, dialect, subid and immutable paths under these names |
| `Doubles.IntegersAreExact` | crates/op-blob/src/adapter.rs:186-193 | a bound written as an integer of at most 53 bits is read as exactly that number |
| `Doubles.LongIntegersAreNearest` | crates/op-blob/src/adapter.rs:186-193 | and a longer one as a double nearest to it |
| `Drift.SchemaDiffs` | crates/op-blob/src/adapter.rs:268-314 | the pushes onto the list, in order, are the specified drift, which `DriftReport.ReportIsTheList` characterizes |
| `Drift.FieldTypeDiffs` | crates/op-blob/src/adapter.rs:364-399 | the same for nested types |
| `DriftReport.ReportedIff` | crates/op-blob/src/adapter.rs:266-399 | an entry is in the report exactly when walking its path through both schemas leads to a place where that differs: a field of the reference that the derived schema lacks is dropped, one it has beside it is added, and fields met in both differ in type, required, description, default, example, constraints or read-only |
| `DriftReport.ReportInOrder` | crates/op-blob/src/adapter.rs:266-399 | the report names the schema itself first, then each field before what is behind it, fields by name and branches by position; so every difference once |
| `DriftReport.ReportIsTheList` | crates/op-blob/src/adapter.rs:266-399 | and it is the only list in that order of exactly the differences |
| `DriftReport.TagIs` | crates/op-blob/src/adapter.rs:401-424 | the type compared is the tag put together from those of its parts: sorted branches, fields by name, the members of an enum left out |
| `Drift.AgreementIffNoDrift` | crates/op-blob/src/adapter.rs:266-399 | two schemas agree exactly when the drift is empty and the branches of their unions are aligned by tag |
| `Drift.SomePrinterTellsApart` | crates/op-blob/src/adapter.rs:426-440 | the assumption on printed numbers can be met: some printer tells all doubles apart |
| `Drift.NoDriftIsAgreement` | crates/op-blob/src/adapter.rs:266-399 | without unions in the reference an empty drift is agreement, up to enum members, read_only_when, constraint order and OneOf values, order of immutable paths, methods and dialect |
| `Drift.NoDriftAgainstItself` | crates/op-blob/src/adapter.rs:266-399 | no schema drifts from itself |
| `Drift.ExchangedBranchesGoUnseen` | crates/op-blob/src/adapter.rs:401-416 | an empty result is documented as exact reproduction, but exchanging two simple union branches of any field goes unseen |
| `Drift.ConstraintTagsTell` | crates/op-blob/src/adapter.rs:426-440 | sorted constraint tags are equal exactly when the constraints are the same bag, OneOf values aside |
| `OpenFlow.SafeRun` | emergent-handoff/src/controller.rs:296-354 | over any sequence of arrivals and expiries every table state holds the installed fallback entry exactly when every modification that arrives is harmless to it |
| `OpenFlow.NormalRun` | emergent-handoff/src/controller.rs:296-354 | normal switching, by whatever entry, is never interrupted exactly when each change keeps it given the entry that provides it at that point: replacements are normal, deletions name another cookie, and an entry expires only if it has a timeout |
| `PortDiscovery.DiscoveryReadsTo` | emergent-handoff/src/controller.rs:195-243 | on every inbox discovery reads to the first message that does not continue it, finds its ports as in one pass, and answers each echo request once, in order |
| `PortDiscovery.DiscoveryWaits` | emergent-handoff/src/controller.rs:195-243 | while every message continues discovery it waits, answering each echo request, until the connection closes |
| `PortDiscovery.SplittingDoesNotMatter` | emergent-handoff/src/controller.rs:195-243 | for any split of a port list, with echo requests anywhere between, the map equals one pass over the whole list and nothing behind the last reply is read |
| `PortDiscovery.OtherMessageCutsDiscovery` | emergent-handoff/src/controller.rs:238 | any message that is neither an echo request nor a port reply, a multipart reply of another type or under eight bytes included, ends discovery with what was found so far |
| `PortDiscovery.PortsAreTheLastNamed` | emergent-handoff/src/controller.rs:219-227 | the map holds exactly the listed names, each with the number of the last port so named |
| `PortDiscovery.PortReplyReadsBack` | emergent-handoff/src/controller.rs:210-231 | a reply as a switch writes it yields exactly its port records and its flag |
| `PortDiscovery.PortReadsBack` | emergent-handoff/src/controller.rs:213-228 | a port as a switch writes it yields its number and its name, and is listed exactly when the name is not empty and the number is not 0xffffffff |
| `PortDiscovery.ReadPorts` | emergent-handoff/src/controller.rs:219-227 | the loop over 64-byte records fills the map as specified |
| `FlowMatch.ParseMatch` | emergent-handoff/src/openflow_translate.rs:159-254 | for every order in which the map yields its fields, the loop over them builds the match given field by field: each value in its field and the Ethernet type that was set last, or an error when some field does not translate |
| `FlowMatch.OneMatchIff` | emergent-handoff/src/openflow_translate.rs:192-252 | for every field map, all orders give one result if and only if no `dl_type` other than 0x0800 stands beside `nw_src` or `nw_dst`, whose setters also write the type (or nothing translates) |
| `FlowMatch.TypeBesideAddress` | vendor/rovs-openflow/src/match_fields.rs:176-190 | with such a type beside an address the order decides: one order sends 0x0800, the other the type asked for |
| `FlowMatch.ArpBesideAddress` | vendor/rovs-openflow/src/match_fields.rs:176-190 | `dl_type` 0x806 beside `nw_src` 10.0.0.1 is such an entry: two orders, two matches |
| `FlowMatch.NoFieldIsDropped` | emergent-handoff/src/openflow_translate.rs:154-254 | every field that is no marker has its value in the match, exactly except a `dl_type` that an address setter overwrote; markers set a type |
| `FlowMatch.NoFieldIsInvented` | emergent-handoff/src/openflow_translate.rs:154-254 | every constraint of the match comes from a field, from the markers, or is the IPv4 type the address setters add |
| `FlowMatch.NothingLooserIff` | emergent-handoff/src/openflow_translate.rs:154-254 | in every order the match sent keeps the value each field was parsed to, if and only if no field is `tcp_flags` and no type other than IPv4 stands beside an address; what the texts ask of packets, `PacketRule` says |
| `FieldTexts.NumberIff` | emergent-handoff/src/openflow_translate.rs:49-51 | a text parses as a number exactly when it is one: digits by their places, behind a `+` or not, below the limit of the type |
| `FieldTexts.SplitIff` | emergent-handoff/src/openflow_translate.rs:64 | splitting gives exactly the parts that are free of the separator and join to the text |
| `FieldTexts.PortIff` | emergent-handoff/src/openflow_translate.rs:49-60 | a port is a number, else `LOCAL` in letters of any case, else a name the switch reported |
| `FieldTexts.MacIff` | emergent-handoff/src/openflow_translate.rs:62-72 | a hardware address is six hexadecimal numbers below 256 with colons between them |
| `FieldTexts.NetworkIff` | emergent-handoff/src/openflow_translate.rs:94-108 | a network is four decimals with dots between them, all 32 bits counting, or as many as a number behind a slash says |
| `FieldTexts.TypeIff` | emergent-handoff/src/openflow_translate.rs:197-206 | a type is a decimal, or hexadecimal behind `0x` |
| `FieldTexts.StateIff` | emergent-handoff/src/openflow_translate.rs:134-152 | a connection state is read exactly from known flag names between plus signs, and matches just the states that have the bits of all of them |
| `PacketRule.TranslatesIff` | emergent-handoff/src/openflow_translate.rs:192-252 | a field translates exactly when its text says something under its key; a transport port needs the marker `tcp` or `udp` and no `icmp6`, and every other key is an error |
| `PacketRule.NothingLooserIff` | emergent-handoff/src/openflow_translate.rs:8-14 | the file's rule on packets, no flow looser than was requested: in every order a match accepts only packets that meet what the text of every key asks, if and only if the keys agree on type and protocol, ask for no TCP flags and no VLAN id of thirteen bits, or the match accepts nothing at all |
| `PacketRule.ExactlyAsked` | emergent-handoff/src/openflow_translate.rs:154-254 | and where that is so, it accepts exactly these packets |
| `PacketRule.AskedIsAccepted` | emergent-handoff/src/openflow_translate.rs:154-254 | in every case and order a packet that every key asks for is accepted: no flow is narrower |
| `PacketRule.BareAddressIsHost` | emergent-handoff/src/openflow_translate.rs:94-108 | a bare address is a host: packets accepted come from that very address |
| `PacketRule.WideIdIsAnotherVlan` | vendor/rovs-openflow/src/match_fields.rs:1158-1523 | `dl_vlan` 4101 is sent as VLAN 5: packets of that VLAN are accepted, and nobody asked for them |
| `PacketRule.ArpBesideIp` | emergent-handoff/src/openflow_translate.rs:164-190 | the markers `arp` and `ip` together accept packets that are not IP |
| `FlowMatch.SentMatchesAllIff` | vendor/rovs-openflow/src/match_fields.rs:1158-1523 | an entry is sent as a match of every packet exactly when each of its fields is `tcp_flags` or a `ct_state` without flags |
| `FlowMatch.SentIsPortIff` | vendor/rovs-openflow/src/match_fields.rs:1158-1523 | and as a match of one port alone exactly when beside `in_port` it has only such fields |
| `FlowMatch.MoreFieldsNarrow` | emergent-handoff/src/openflow_translate.rs:154-254 | a further field keeps all other fields, and keeps the type, so that what is sent only narrows, exactly when the type set last stays the same: where no type other than IPv4 stands beside an address, when the field sets no type or the one already there |
| `FlowMatch.ReadMac` | emergent-handoff/src/openflow_translate.rs:62-72 | the octet loop fills the address, or fails on the first bad octet |
| `MatchWire.EncodeMatch` | vendor/rovs-openflow/src/match_fields.rs:1158-1523 | the encoder emits the fields in its order, then pads: header, class, number, mask bit, length, value and mask |
| `MatchWire.DecodeFields` | vendor/rovs-openflow/src/match_fields.rs:631-672 | the decoding loop takes field after field, skips those it does not know and stops at one that is cut short |
| `MatchWire.DecodeMatch` | vendor/rovs-openflow/src/match_fields.rs:678-740 | reads the header, the fields and the padded length, or fails |
| `MatchWire.MatchReadsBack` | vendor/rovs-openflow/src/match_fields.rs:678-740 | decoding an encoded match gives it without its TCP flags, VLAN ids cut to twelve bits and prefixes to 32, and the bytes it took, a multiple of eight |
| `MatchWire.MatchRoundTripIff` | vendor/rovs-openflow/src/match_fields.rs:1792-1815 | the same match comes back if and only if it has no TCP flags, no VLAN id of more than twelve bits and no prefix longer than an address |
| `MatchWire.SwitchReadsSent` | vendor/rovs-openflow/src/match_fields.rs:1158-1523 | a switch that reads the bytes by section 7.2 of the OpenFlow Switch Specification 1.3.0 gets exactly the match as sent: no TCP flags, no field with an empty mask, VLAN ids tagged |
| `MatchWire.TranslatedIsReadAsSent` | emergent-handoff/src/openflow_translate.rs:159-254 | every match translated from a flow entry has values of the width of their fields, so its bytes are read so |
| `FlowTranslate.BuildActions` | emergent-handoff/src/openflow_translate.rs:260-365 | the action loop translates every action in order, or fails |
| `FlowTranslate.ActionsOf` | emergent-handoff/src/openflow_translate.rs:260-365 | actions translate one by one, all or none |
| `FlowTranslate.EncodeActions` | vendor/rovs-openflow/src/action/mod.rs:705-713 | the encoding loop sends each action in order, a drop as nothing |
| `FlowTranslate.JsonFlowToAdd` | emergent-handoff/src/openflow_translate.rs:371-390 | in any order of the fields it succeeds exactly when the table is not 255 and every match field and every action translates under the marked protocol; then table, priority and timeouts are kept, the match is the one built in that order, as sent, the actions are those of the entry in order, as sent, and the cookie is 0 unless given |
| `FlowTranslate.JsonFlowToDelete` | emergent-handoff/src/openflow_translate.rs:393-408 | in any order of the fields it succeeds exactly when the table is not 255 and every match field translates, whatever the actions; then it is a strict delete of that table, priority and match as sent, limited to the cookie only when one is given |
| `FlowTranslate.HarmlessIffNotFallback` | emergent-handoff/src/openflow_translate.rs:371-408 | a translated entry endangers the NORMAL fallback exactly when it names table 0, priority 0 and only fields that are not on the wire, `tcp_flags` and `ct_state` without flags (and, for a delete, a cookie that lets it) |
| `FlowTranslate.TcpFlagsTakeTheFallback` | vendor/rovs-openflow/src/match_fields.rs:1158-1523 | an entry of table 0 and priority 0 that asks for TCP flags alone is sent as the fallback's key and replaces it |
| `FlowTranslate.KeysIff` | emergent-handoff/src/openflow_translate.rs:192-252 | an entry has one key on the switch in all orders of its fields, or in a clash exactly two |
| `FlowTranslate.DeleteUndoesAdd` | emergent-handoff/src/openflow_translate.rs:371-408 | adding an entry and then deleting it, each translated in an order of its own, restores the table exactly when both set the same type, as they do without a clash |
| `ActionRule.ActionIff` | emergent-handoff/src/openflow_translate.rs:260-365 | an action translates, and what is sent for it takes a packet from one state to another, exactly when its text asks for that: `dl_dst` sets the destination, transport ports are those of the marked protocol, outputs go to the port named |
| `ActionRule.ActionsIff` | emergent-handoff/src/openflow_translate.rs:260-365 | and so for a list of actions, one after the other |
| `Numerals.DecimalReadsBack` | emergent-handoff/src/openflow_translate.rs:49-51 | a printed number parses back exactly when it fits the type |
| `Session.Connection.Handle` | emergent-handoff/src/controller.rs:248-416 | a whole session sends exactly the specified conversation: handshake, discovery, installation, keepalive; what that says, message by message, `Exchange.SessionSays` states |
| `Session.Connection.DiscoverPorts` | emergent-handoff/src/controller.rs:195-243 | the receive loop finds the specified ports, answers the specified echoes and leaves the specified rest |
| `Session.Connection.Install` | emergent-handoff/src/controller.rs:294-354 | NORMAL, delete managed, NORMAL, the pairs with both ports known, then the static flows that translate, numbered consecutively modulo 2^32 |
| `Session.Connection.Keepalive` | emergent-handoff/src/controller.rs:371-414 | ticks, messages and flow requests are served in order until the switch is gone, as `Exchange.KeepaliveSays` states |
| `Session.Connection.PushAdd` | emergent-handoff/src/controller.rs:420-431 | a flow that parses and translates is sent under the next id; any other leaves the session as it was |
| `Session.ModsOfConversation` | emergent-handoff/src/controller.rs:248-416 | the flow modifications of a session are none, or the fixed head, the configured flows and the requests, in that order |
| `Exchange.ConversationIsPhases` | emergent-handoff/src/controller.rs:248-416 | a session is its phases, each reading up to a message of its own: the features reply ends the first, the last port reply or any message that does not continue the second, and the events are served on what is behind |
| `Exchange.SessionSays` | emergent-handoff/src/controller.rs:248-416 | in a whole session each echo request read is answered exactly once, in order, with its own transaction id and payload, nothing else draws a reply, and the session's own messages carry the ids 1, 2, 3 and so on modulo 2^32 |
| `Exchange.KeepaliveSays` | emergent-handoff/src/controller.rs:371-414 | the same for the keepalive phase from any point: the replies answer the messages read, and the rest is one echo request for each tick and one modification for each request that translates, numbered on |
| `Exchange.ResponseIsAdded` | emergent-handoff/src/controller.rs:371-414 | one more event adds just its own response, to the first message not read yet and under the next id |
| `Fallback.InBandSafetyIff` | emergent-handoff/src/controller.rs:296-414 | from the first modification of a session on, every table state of every history holds the fallback entry, from any table, wherever the session breaks off and whatever expires, if and only if no JSON text that translates names its place, fields that are not on the wire left aside |
| `Fallback.InBandSafety` | emergent-handoff/src/controller.rs:296-414 | so it does when no text names the place, whatever ports the switch reports |
| `Fallback.SafeFromTheFirst` | emergent-handoff/src/controller.rs:296-414 | for one history: all its states hold the very entry installed if and only if nothing that replaces or deletes it arrived |
| `Fallback.NormalFromTheFirst` | emergent-handoff/src/controller.rs:296-414 | and for switching itself: all those states switch normally if and only if every later change keeps it so |
| `Fallback.NormalIffUnbroken` | emergent-handoff/src/controller.rs:296-414 | for whole sessions: normal switching survives every prefix of what is sent and every expiry exactly when no modification breaks it and no entry that provides it on the way has a timeout |
| `Fallback.InBandSwitchingIff` | emergent-handoff/src/controller.rs:296-414 | the same from the JSON texts, exactly: normal switching survives every history if and only if each text that lands at the fallback's place puts a lasting entry there that just outputs to NORMAL, drops apart and by whatever port name, or deletes with a cookie other than that of the entry then there |
| `Fallback.InBandSwitching` | emergent-handoff/src/controller.rs:296-414 | a condition that needs no ports: flows at that place say NORMAL and have no timeouts, and deletions there name cookies none of these carries |
| `Fallback.StaticFlowCanClobber` | emergent-handoff/src/controller.rs:337-345 | a static flow that lands at the fallback's place leaves some state without the fallback entry, and unless it is a lasting normal one some state that does not switch normally |
| `Fallback.SynFlowTakesTheFallback` | vendor/rovs-openflow/src/match_fields.rs:1158-1523 | such a flow is one of table 0 and priority 0 that drops packets with the SYN flag: it drops every packet no other entry matches |
| `Reconnect.ReconnectChangesNothingIff` | emergent-handoff/src/controller.rs:296-354 | programming the switch a second time changes nothing, from any table and in whatever orders the two sessions translate, if and only if no key is disputed: behind the last static flow that must have it in every order, any that can have it in some order writes the same entry |
| `Reconnect.ReconnectChangesNothing` | emergent-handoff/src/controller.rs:296-354 | so it changes nothing when no static flow has a type other than IPv4 beside an address |
| `Reconnect.ClashSpoilsReconnect` | vendor/rovs-openflow/src/match_fields.rs:176-190 | and where the only static flow has one, some reconnect changes the table |
| `Reconnect.ManagedAreTheConfigured` | emergent-handoff/src/controller.rs:296-354 | after programming, from any table, the managed entries are exactly the configured flows whose two ports were discovered, if and only if the static flows' entries keep apart from them |
| `Reconnect.StaticsKeepApartIff` | emergent-handoff/src/controller.rs:296-354 | which they do exactly when every static flow that no later one overwrites keeps apart by its text: one with the managed cookie, or with the priority and `in_port` of a configured flow and nothing else on the wire, does just what the last configured flow there does |
| `Reconnect.ManagedInEveryOrderIff` | emergent-handoff/src/controller.rs:296-354 | and in whatever orders the static flows are translated, exactly when that holds for each that can be the last with its key in some orders |
| `Reconnect.TcpFlagsTakeManagedPlace` | vendor/rovs-openflow/src/match_fields.rs:1158-1523 | a static flow with the port and priority of a configured flow, and `tcp_flags` beside, always takes its place |
| `Reconnect.PairTableIsLast` | emergent-handoff/src/controller.rs:310-336 | of configured flows with one key the later one wins |
| `Base64.B64Encode` | crates/op-blob/src/identity.rs:132-155 | the chunk loop computes the specified encoding |
| `Base64.B64Decode` | crates/op-blob/src/identity.rs:157-187 | the chunk loops compute the specified decoding, errors included |
| `Base64.EncodesBits` | crates/op-blob/src/identity.rs:132-155 | the letters of up to three bytes are their bits six at a time, first bits first, filled up with zero bits and padded to four |
| `Base64.EncodesChunks` | crates/op-blob/src/identity.rs:132-155 | and longer data are encoded three bytes at a time |
| `Base64.EncodingRoundTrips` | crates/op-blob/src/identity.rs:132-187 | decoding an encoding gives the bytes back; its length is 4*ceil(n/3) |
| `Base64.DecodesIff` | crates/op-blob/src/identity.rs:157-187 | exactly the strings over the alphabet whose unpadded length is not 1 modulo 4 decode |
| `Base64.DecodingRoundTripsIff` | crates/op-blob/src/identity.rs:157-187 | encoding what was decoded gives the same string if and only if its padding is exact and its spare bits are zero |

## Left out

- Base64.B64Decode: works on characters; a character outside ASCII is refused as its bytes would be, and error texts are not modelled.
- Blob.OpenImage: the additions of decoded offsets and lengths are mathematical, so their overflow on a 64-bit machine is not modelled.
- Catalog.Directory.Write: ids with a slash, for which a write fails for want of a directory, are excluded from runs; operations of the directory succeed; a failure is only an early stop between two of them, and names are strings rather than operating-system strings.
- Drift.SchemaDiffs: two defaults or examples that differ only in the sign of a zero double count as different, where the program finds them equal.
- Session.Connection.Handle: models one connection at a time; a send that fails is the end of the events, and transaction ids wrap modulo 2^32 where a debug build would stop.
- Summaries.DecodeFileSummaries: a decoded length near 2^64 is an ordinary failure, where the addition to the position overflows in the program; `Wire.Reader.Skip` has the same limit.
- Summaries.DecoderIsTotal: the same overflow, which panics or wraps in the program, is a failure to decode here.
- Recursion over printed and parsed types is bounded by the stack in the program and unbounded here.
- Case conversions and tag texts are computed by recursion over characters instead of the program's loops; the loops they come from carry no further state.
- `apply_state_defaults`, `method_decl_from_schemars_with_output`, the `BlobStore` facade and the readers of single manifest members: they would only add easy members.
- `canonical_json` and the schema hash are taken as given texts of the blob; X25519 keys, key files and session identities are not modelled.
- `mkfs.btrfs` images, the gRPC shim, state-store adapters and demo code are input and output around the modelled core.
- Sockets, timers, tasks and logging of the controller; `send_flow` and its list of installed flows; concurrent connections that share a command channel.
- Fragments and packets inside packets: a packet has at most one VLAN tag, and addresses and transport ports only under the types and protocols that have them.
- The bytes of actions and of the fixed part of a modification: actions are compared as a list, and one that becomes several on the wire is one.
- Modifications a switch refuses, such as an address without its prerequisite type, address bits outside their mask or a VLAN id of more than twelve bits: the table is what it would be if none were refused.
- MatchWire.DecodeMatch: fields the controller never sets, and masks of hardware addresses, are skipped; a length below four is a failure, where the program's slice panics.
- Reading the `run` scripts of services and the command line of the cycle checker.
