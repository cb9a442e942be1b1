# protoc-gen-jsonschema core, modelled in Dafny

`protoc-gen-jsonschema` is a `protoc` plugin. It receives a code-generator request with the
descriptors of a set of `.proto` files and answers with one JSON Schema document per top-level
message (or, for a file without messages, one per top-level enum). This project models its core:

- **Package registry** (`namespace.dfy`). The Go code keeps a process-wide tree of
  `ProtoPackage` nodes. Here it is the class `Namespace.Registry`, whose one field maps a
  package path (the dotted name split into segments) to its node. The children of a node are
  the keys one segment longer. `Register` is `registerType`: it walks the segments from the root,
  creates the missing nodes and stores the message in the node's `types`. The invariant
  `WellFormed` says four things:
  - the root exists;
  - every node's parent exists;
  - every node carries the name `registerType` gives it;
  - the root never has a `""` child.
- **Type resolution** (`resolver.dfy`). This covers `lookupType`, `relativelyLookupType`,
  `relativelyLookupNestedType` and `relativelyLookupPackage`. Each is a specification function
  and a method proved equal to it. The methods call one another as the source does:
  `LookupType` calls `RelativelyLookupType`, which recurses into child packages and calls
  `LookupNestedType`.
- **Schema conversion** (`converter.dfy`). `convertField`, `convertMessageType` and
  `convertEnumType` produce a `JsonSchema.Schema` value. Each is a specification function and
  a method proved equal to it. The methods call one another as the source does: `ConvertField`
  uses `MatchEnumValues` and `Resolver.LookupType`, and recurses through `ConvertMessageType`. That value has the fields of the
  `jsonschema.Type` the source fills in: type, properties, items, oneOf, enum,
  additionalProperties, and whether the version marker is set.
- **Orchestration** (`batch.dfy`). `convertFile` and `convert` are modelled: registration of
  every supplied file, then conversion of the requested files in order, stopping at the first
  failure.
- **Support modules.**
  - `strings.dfy`: Go's `strings.Split`, `strings.SplitN(…, 2)` and `strings.HasSuffix` on
    dots.
  - `descriptors.dfy`: the protobuf descriptor records.
  - `wrappers.dfy`: `Option` and `Result`.

### Modelling choices

- **Field-to-message recursion.** The source recurses without bound: a field of message type
  converts the referenced message, which converts its fields, and so on. In the model
  `FieldSchema`, `FieldsSchema` and `MessageSchema` carry a `depth: nat`. When it runs out they
  return `DepthExhausted`. `MessageDepthMonotone` proves that a larger depth never changes a
  result that is not `DepthExhausted`, so the bound only cuts off chains deeper than it.
- **Global registry.** The process-wide `globalPkg` becomes a `Registry` object. `Convert`
  creates it and passes it to every lookup.
- **Errors.** They are a datatype, `Converter.ConvertError`. `ErrorText` gives the message text
  the source formats. `Batch.FailureText` gives the text of the response's error.

### Behaviour of the code that the model keeps

- **Node names.** A node is named `parent.name + "." + segment`, and the root's name is `""`.
  So top-level packages are named `.a`, and their children `.a.b`, each with a leading dot.
- **Leading dot.** `registerType(".a.b")` skips the leading empty segment at the root, so it
  registers in node `a.b` (`LeadingDotRegistersSamePath`). However, `relativelyLookupPackage`
  does not skip it. So a file whose package is written `".a.b"`, or whose package is empty,
  fails with `no such package found` as soon as it has messages (`LeadingEmptySegmentNotFound`,
  `Batch.MessageFile`).
- **Which package a nested message uses.** A referenced message is converted with the package
  of the *referencing* message, not the package it was found in.

## Model

| member | source | states |
|---|---|---|
| Strings.IndexOfDot | main.go:103 | the first dot of a name is found exactly when there is one, and nothing before it is a dot |
| Strings.SplitDots | main.go:52 | `strings.Split(s, ".")` yields at least one part, and no part contains a dot |
| Strings.SplitFirstDot | main.go:103-126 | `strings.SplitN(s, ".", 2)` yields one part (`s` itself, which has no dot) or two parts around its first dot; so the `case 0` and `default` branches cannot be reached |
| Strings.SplitFirstDotAt | main.go:103 | splitting `a.b`, with no dot in `a`, gives exactly `[a, b]` |
| Strings.JoinSplitDots | main.go:87 | joining the parts of a split with dots gives back the original name |
| Strings.SplitJoinDots | main.go:87 | splitting a dot-join of dot-free parts gives back the parts |
| Strings.SplitDotsAt | main.go:52 | splitting `a.rest`, with no dot in `a`, gives `a` followed by the parts of `rest` |
| Strings.SplitDotsLeadingDot | main.go:52-56 | a name with a leading dot splits into an empty first segment followed by the segments of the rest |
| Strings.NatDecimalValue | main.go:206 | the text of a natural number is a string of decimal digits, with no leading zero, whose value is the number; the text of 0 is exactly `"0"` |
| Strings.DecimalValue | main.go:206 | the text of an unknown kind tag is its base-10 rendering: a minus sign before the digits of the magnitude when negative, the digits alone otherwise, with no leading zero; the text of 0 is exactly `"0"` |
| Namespace.Prefixes | main.go:52-69 | the nodes on the way to a package include the root and the package itself |
| Namespace.PrefixesPresent | main.go:58-68 | in a well-formed registry every ancestor of a node is a node |
| Namespace.DropLeadingEmpty | main.go:53-56 | the segments walked after skipping those met at the root never start with an empty segment |
| Namespace.DropLeadingEmptySnoc | main.go:52-56 | skipping an empty segment only while still at the root, one segment at a time, drops exactly the leading empty segments |
| Namespace.LeadingDotRegistersSamePath | main.go:53-56 | a package written `".a.b"` is registered in the same node as `"a.b"` |
| Namespace.EnsurePathNodes | main.go:57-68 | existing nodes on the way are reused unchanged; missing ones are created, named after their path, with no types; no other node appears |
| Namespace.Registered | main.go:49-71 | after registration the nodes are the old ones plus the package's ancestors; every other node is unchanged; the package's `types` gains the message under its name |
| Namespace.EnsurePathStep | main.go:57-67 | entering child `node` of the node reached so far reuses an existing child and otherwise creates one named `parent.name + "." + node` with no types |
| Namespace.EnsurePathWellFormed | main.go:57-68 | creating the nodes of a path whose first segment is not empty keeps the registry well formed: parents present, names right |
| Namespace.RegisteredWellFormed | main.go:49-71 | registration keeps the registry well formed, whatever the package name |
| Namespace.RegisterOverwrites | main.go:70 | registering a second message under the same name in the same package leaves the registry as if only the second had been registered |
| Namespace.Registry.constructor | main.go:32-39 | a fresh registry holds only the root, named `""`, with no types |
| Namespace.Registry.Walk | main.go:51-69 | the loop over the segments ends at the node of the segments without their leading empty ones, having created exactly the missing nodes on the way |
| Namespace.Registry.Register | main.go:49-71 | registration leaves exactly the registry `Registered` describes, and keeps it well formed |
| Resolver.FindNested | main.go:90-94 | a nested type is found exactly when one has the name, and it is the first such in declaration order |
| Resolver.NestedLookupName | main.go:86-100 | a type reached through a nested path carries the path's last component as its name |
| Resolver.LookupNestedType | main.go:86-100 | the loop follows the dotted path component by component as `NestedLookup` does, failing at the first missing component |
| Resolver.LookupPackage | main.go:129-139 | the loop over child nodes finds the package exactly when the name's segments are a node of the registry |
| Resolver.RelativelyLookupType | main.go:102-127 | a dot-free name is looked up in this node's `types`; for `a.rest` an existing child package `a` continues the search, otherwise message `a` of this node is searched for nested path `rest`, as `RelativeLookup` describes |
| Resolver.LookupType | main.go:73-84 | an absolute name is resolved from the root with its leading dot removed; any other name is resolved in this package and then in each ancestor up to the root |
| Resolver.OutwardFindsNearest | main.go:78-82 | outward search returns `m` exactly when some enclosing scope resolves the name to `m` and no nearer scope resolves it |
| Resolver.NearestInParent | main.go:78-82 | when this scope resolves nothing, the nearest scope resolving the name is the nearest one seen from the parent |
| Resolver.UnshadowedScopeWins | main.go:78-82 | a scope that resolves the name to `m`, with no nearer scope resolving it, is what outward search returns |
| Resolver.OutwardNotFound | main.go:78-83 | outward search fails exactly when no scope from this package up to the root resolves the name |
| Resolver.ChildPackageTakesPrecedence | main.go:111-116 | for `a.rest`, an existing child package `a` decides the result, even when it resolves nothing |
| Resolver.MessageReadWithoutChildPackage | main.go:117-121 | without child package `a`, `a.rest` is message `a` of this node followed by nested path `rest` |
| Resolver.SimpleNameLookup | main.go:108-110 | a name with no dot is looked up only in this node's `types` |
| Resolver.RelativeLookupAlongPath | main.go:102-127 | the segments leading to a node, followed by a type name, resolve to that node's entry for the type name |
| Resolver.SplitDotsFirstNonEmpty | main.go:130 | a package name not starting with a dot has a non-empty first segment |
| Resolver.PackagePathOfPlainName | main.go:52-56 | a package written without a leading dot is registered under its segments as they are |
| Resolver.RegisteredNameFound | main.go:49-71 | after registering `m` in a plainly written package P, the bare name of `m` resolves to `m` in P's node |
| Resolver.AbsoluteName | main.go:73-76 | `".P.<name>"` starts with a dot, and without it is the dot-join of P's segments and the name |
| Resolver.RegisterThenFindPackage | main.go:49-71 | after registering `m` in P, looking P up from the root finds a node whose `types` maps `m`'s name to `m` |
| Resolver.RegisterThenResolveAbsolute | main.go:73-76 | after registering `m` in P, `".P.<name>"` resolves to `m` from any scope |
| Resolver.RegisterThenResolveFromDescendant | main.go:78-82 | after registering `m` in P, its bare name resolves to `m` from P and from every descendant where no nearer scope resolves it |
| Resolver.LeadingEmptySegmentNotFound | main.go:129-139 | an empty package name, or one with a leading dot, is never found |
| Converter.EnumPairsEntries | main.go:179-187 | the enum list holds two entries per value, its name and then its number, in value order |
| Converter.FieldSchema | main.go:142-242 | an unknown kind is an error carrying its tag; a converted field never carries the version marker; it is an array, and has `items`, exactly when it is repeated |
| Converter.FieldsSchema | main.go:262-268 | the `properties` of a converted message have exactly the field names as keys |
| Converter.MessageSchema | main.go:245-271 | a converted message is an object with the version marker and `additionalProperties` true; its property keys are its field names |
| Converter.AppendMatchingValues | main.go:179-189 | the inner loop appends every value's name and number of a nested enum exactly when the enum matches the field's type name, and nothing otherwise |
| Converter.MatchEnumValues | main.go:176-190 | the nested loop over the owner's enums and their values builds the list `EnumValuesFor` describes |
| Converter.FieldsSchemaErrPrefix | main.go:262-267 | once a field fails, the later fields do not change the outcome |
| Converter.KindNode | main.go:149-207 | the kind switch builds the node `KindSchema` describes, collecting a matching nested enum's values for an enum field |
| Converter.ConvertField | main.go:142-242 | the field conversion, with its enum loop, type lookup and recursive message conversion, yields the result `FieldSchema` describes |
| Converter.ConvertMessageType | main.go:245-271 | the loop over the fields, each converted by `ConvertField`, yields the result `MessageSchema` describes |
| Converter.ConvertEnumType | main.go:274-292 | an enum converts to a versioned `oneOf [string, integer]` whose `enum` lists each value's name then its number, in declaration order |
| Converter.FieldsSchemaSucceeds | main.go:262-268 | a message converts exactly when each of its fields converts |
| Converter.FieldsSchemaValues | main.go:268 | each field name maps to the schema of the last field with that name |
| Converter.FieldsSchemaFirstError | main.go:263-267 | a failing message fails with the error of its first failing field, and every earlier field converts |
| Converter.MessageDepthMonotone | main.go:225-229 | more nesting depth never changes the result of converting a message, unless the result is the depth cut-off |
| Converter.FieldsDepthMonotone | main.go:262-268 | the same for the fields of a message |
| Converter.FieldDepthMonotone | main.go:218-239 | the same for one field |
| Converter.SingularScalarFields | main.go:150-193 | singular double/float are `number`; the ten integer kinds are `integer`; string/bytes are `string`; bool is `boolean` |
| Converter.RepeatedScalarFields | main.go:209-216 | a repeated non-message field is an `array` whose `items` carries only the element type (empty for enums), with no properties and no `additionalProperties` |
| Converter.EnumFields | main.go:171-216 | an enum field is a `oneOf [string, integer]` with the matching values, and these stay on the outer node when it is repeated |
| Converter.MessageFields | main.go:195-239 | an unresolvable message type is an error naming it; a repeated message field is an `array` with the converted message as `items`; a singular one is an `object` with the converted message's properties, and `additionalProperties` true when optional, false when required |
| Converter.NoMatchingEnum | main.go:176-190 | when no nested enum of the owner matches the field's type name, the enum list stays empty |
| Converter.SingleMatchingEnum | main.go:176-190 | when exactly one nested enum matches, the enum list is that enum's entries |
| Converter.ColorFieldExample | main.go:171-190 | a field of type `.pkg.M.Color`, in message `M` with nested enum `Color {RED = 0; GREEN = 1}`, gives `oneOf [string, integer]` with `enum [RED, 0, GREEN, 1]` |
| Batch.EnumFilesOutputs | main.go:312-335 | one `<Enum>.jsonschema` file per top-level enum, holding that enum's schema, in order |
| Batch.MessageFilesOutputs | main.go:342-364 | the messages convert exactly when each one does; then there is one `<Message>.jsonschema` file per top-level message, holding its schema, in order |
| Batch.RegisterMessages | main.go:378-381 | registering a file's messages keeps the registry well formed, removes no node, and creates the file's package node |
| Batch.RegisterFiles | main.go:377-382 | registering every supplied file keeps the registry well formed and removes no node |
| Batch.EnumOutputs | main.go:312-335 | the loop over the enums builds the list `EnumFiles` describes |
| Batch.MessageOutputs | main.go:342-364 | the loop over the messages builds the list `MessageFiles` describes, or returns the first message's failure |
| Batch.ConvertFile | main.go:295-368 | the file's result is the one `FileSchemas` describes |
| Batch.GenerateTargets | main.go:371-374 | the set of file names to generate is exactly the names listed in the request |
| Batch.RegisterFile | main.go:378-381 | the inner registration loop leaves the registry `RegisterMessages` describes |
| Batch.RegisterAll | main.go:377-382 | the outer registration loop leaves the registry `RegisterFiles` describes and keeps it well formed |
| Batch.ConvertRequested | main.go:383-394 | the conversion loop yields the response `ConvertFiles` describes for the registry it is given |
| Batch.Convert | main.go:370-395 | composing the target set, a fresh registry, registration of every supplied file and the conversion loop yields the response `ConvertRequest` describes |
| Batch.EnumOnlyFile | main.go:312-335 | a file without messages always converts, to one `<Enum>.jsonschema` per enum |
| Batch.MessageFile | main.go:337-364 | a file with messages yields one `<Message>.jsonschema` per message and none for its enums; a missing package, an empty one, or one with a leading dot fails with `no such package found` |
| Batch.RegisterFilesCreatesPackages | main.go:377-382 | after registration, the package node of every supplied file with messages exists |
| Batch.SuppliedPackageFound | main.go:338-341 | once every supplied file is registered, a supplied file with messages whose package is written plainly always finds its package |
| Batch.ConvertFilesSucceeds | main.go:383-394 | the response has no error exactly when every requested file converts; then it holds the requested files' outputs in supplied order |
| Batch.AllConvertCons | main.go:383-392 | every requested file converts exactly when the first does (if requested) and every requested file after it does |
| Batch.FailsFirstAtShift | main.go:383-392 | a first file that does not fail shifts the position of the first failure by one and prepends that file's outputs |
| Batch.ConvertFilesStopsAtFirstFailure | main.go:383-392 | on failure the error is `Failed to convert <name>: …` for the first failing requested file; the response keeps exactly the outputs of the requested files before it |

## Left out

- `main` and `convertFrom` (main.go:397-448) are not modelled: they read the request from standard input, write the response to standard output, parse flags and exit.
- JSON serialisation (`json.MarshalIndent`) is left out. An output file holds the schema value rather than its indented JSON text, so the marshalling error branches of `convertFile` do not appear.
- Logging is left out: every `log.*` call, the warnings about several messages or enums in one file, the debug dump of a message, and `path.Base`, which only feeds log text.
- The contents of `jsonschema.Version` come from another package. A schema records only whether the version marker is set.
- Descriptors are values, so reference identity is not modelled. "The same descriptor reference" becomes equality of descriptor values, and node objects are map entries keyed by path. The `parent` back-reference is the path without its last segment.
- Converter.FieldSchema: the field-to-message recursion (and with it `ConvertField` and `ConvertMessageType`) is bounded by a `depth` parameter that the source does not have. A cyclic chain of message fields, repeated or singular, which in the source recurses until the stack overflows, ends in `DepthExhausted`.
- Labels are limited to optional, required and repeated, the three the descriptor format defines. Kinds outside the eighteen known ones are `TypeUnknown(tag)`, whose tag type `UnknownTag` excludes the known tags 1 to 18.
- The 32-bit width of enum numbers and kind tags is not modelled: they are unbounded integers, because nothing in the core does arithmetic on them.
- Converter.ConvertEnumType: the source's `convertEnumType` also returns an error value, but that value is always nil, so the model returns the schema alone.
