/**
 * The plugin's entry point over one request: every top-level message of every supplied file is
 * registered first; then each requested file, in the order of the supplied files, yields one
 * schema per top-level message (or, in a file without messages, one per top-level enum). The
 * first file that fails stops the run: the response keeps the files produced before it and
 * carries an error naming it.
 */
module Batch {
  import opened Wrappers
  import opened Descriptors
  import opened JsonSchema
  import opened Namespace
  import opened Resolver
  import opened Converter

  /** One generated file of the response. */
  datatype OutputFile = OutputFile(name: string, content: Schema)

  /** `CodeGeneratorResponse`: the generated files and, after a failure, the error text. */
  datatype Response = Response(files: seq<OutputFile>, error: Option<string>)

  /** The name of the file generated for a top-level type. */
  function SchemaFileName(typeName: string): string
  {
    typeName + ".jsonschema"
  }

  /** The error text of the response when file `name` fails. */
  function FailureText(name: string, e: ConvertError): string
  {
    "Failed to convert " + name + ": " + ErrorText(e)
  }

  /** One schema file per top-level enum of a file without messages, in declaration order. */
  function EnumFiles(enums: seq<EnumDescriptor>): seq<OutputFile>
  {
    if enums == [] then []
    else
      var last := enums[|enums| - 1];
      EnumFiles(enums[..|enums| - 1]) + [OutputFile(SchemaFileName(last.name), EnumSchema(last))]
  }

  /** Each top-level enum gives one file, named after it and holding its schema, in declaration order. */
  lemma {:induction false} EnumFilesOutputs(enums: seq<EnumDescriptor>)
    ensures |EnumFiles(enums)| == |enums|
    ensures forall i :: 0 <= i < |enums| ==>
      EnumFiles(enums)[i] == OutputFile(SchemaFileName(enums[i].name), EnumSchema(enums[i]))
    decreases |enums|
  {
    if enums != [] {
      var init := enums[..|enums| - 1];
      EnumFilesOutputs(init);
      assert forall i :: 0 <= i < |init| ==> init[i] == enums[i];
    }
  }

  /** One schema file per top-level message, converted from the file's package; the first failure stops it. */
  function MessageFiles(pkgs: Packages, path: seq<string>, depth: nat, msgs: seq<MessageDescriptor>)
    : Result<seq<OutputFile>, ConvertError>
  {
    if msgs == [] then Ok([])
    else match MessageSchema(pkgs, path, depth, msgs[0])
      case Err(e) => Err(e)
      case Ok(schema) =>
        match MessageFiles(pkgs, path, depth, msgs[1..])
        case Err(e) => Err(e)
        case Ok(rest) => Ok([OutputFile(SchemaFileName(msgs[0].name), schema)] + rest)
  }

  /**
   * The messages of a file convert exactly when each one does; then each gives one file, named
   * after it and holding its schema, in declaration order.
   */
  lemma {:induction false} MessageFilesOutputs(pkgs: Packages, path: seq<string>, depth: nat, msgs: seq<MessageDescriptor>)
    ensures MessageFiles(pkgs, path, depth, msgs).Ok? <==>
      forall i :: 0 <= i < |msgs| ==> MessageSchema(pkgs, path, depth, msgs[i]).Ok?
    ensures MessageFiles(pkgs, path, depth, msgs).Ok? ==>
      |MessageFiles(pkgs, path, depth, msgs).value| == |msgs| &&
      forall i :: 0 <= i < |msgs| ==>
        MessageFiles(pkgs, path, depth, msgs).value[i] ==
          OutputFile(SchemaFileName(msgs[i].name), MessageSchema(pkgs, path, depth, msgs[i]).value)
    decreases |msgs|
  {
    if msgs != [] {
      MessageFilesOutputs(pkgs, path, depth, msgs[1..]);
      assert forall i :: 1 <= i < |msgs| ==> msgs[1..][i - 1] == msgs[i];
    }
  }

  /** `convertFile` without serialisation: the schema files of one `.proto` file. */
  function FileSchemas(pkgs: Packages, depth: nat, file: FileDescriptor): Result<seq<OutputFile>, ConvertError>
  {
    if file.messageTypes == [] then Ok(EnumFiles(file.enumTypes))
    else match PackageOf(pkgs, GetPackage(file))
      case None => Err(NoSuchPackage(GetPackage(file)))
      case Some(path) => MessageFiles(pkgs, path, depth, file.messageTypes)
  }

  /** The registry after registering `msgs` in order in package `pkgName`. */
  function RegisterMessages(pkgs: Packages, pkgName: Option<string>, msgs: seq<MessageDescriptor>): (r: Packages)
    requires WellFormed(pkgs)
    ensures WellFormed(r)
    ensures pkgs.Keys <= r.Keys
    ensures msgs != [] ==> PackagePath(pkgName) in r
  {
    if msgs == [] then pkgs
    else
      var before := RegisterMessages(pkgs, pkgName, msgs[..|msgs| - 1]);
      RegisteredWellFormed(before, pkgName, msgs[|msgs| - 1]);
      Registered(before, pkgName, msgs[|msgs| - 1])
  }

  /** One more message registers on top of the registry the earlier ones left. */
  lemma RegisterMessagesStep(pkgs: Packages, pkgName: Option<string>, msgs: seq<MessageDescriptor>, j: nat)
    requires WellFormed(pkgs) && j < |msgs|
    ensures RegisterMessages(pkgs, pkgName, msgs[..j + 1]) ==
      Registered(RegisterMessages(pkgs, pkgName, msgs[..j]), pkgName, msgs[j])
  {
    assert msgs[..j + 1][..j] == msgs[..j];
  }

  /** The first pass of `convert`: the top-level messages of every file, file by file. */
  function RegisterFiles(pkgs: Packages, files: seq<FileDescriptor>): (r: Packages)
    requires WellFormed(pkgs)
    ensures WellFormed(r)
    ensures pkgs.Keys <= r.Keys
  {
    if files == [] then pkgs
    else
      var last := files[|files| - 1];
      RegisterMessages(RegisterFiles(pkgs, files[..|files| - 1]), last.packageName, last.messageTypes)
  }

  /** The second pass of `convert`: the requested files in order, up to the first failure. */
  function ConvertFiles(pkgs: Packages, depth: nat, files: seq<FileDescriptor>, targets: set<string>): Response
  {
    if files == [] then Response([], None)
    else if files[0].name !in targets then ConvertFiles(pkgs, depth, files[1..], targets)
    else match FileSchemas(pkgs, depth, files[0])
      case Err(e) => Response([], Some(FailureText(files[0].name, e)))
      case Ok(outputs) =>
        var rest := ConvertFiles(pkgs, depth, files[1..], targets);
        Response(outputs + rest.files, rest.error)
  }

  /** The names of the files to generate. */
  function Targets(req: CodeGeneratorRequest): set<string>
  {
    set i | 0 <= i < |req.fileToGenerate| :: req.fileToGenerate[i]
  }

  /** `convert`: registration of every supplied file, then conversion of the requested ones. */
  function ConvertRequest(req: CodeGeneratorRequest, depth: nat): Response
  {
    ConvertFiles(RegisterFiles(Root, req.protoFiles), depth, req.protoFiles, Targets(req))
  }

  /** The schema files of the requested files among `files` that convert, in order. */
  function Produced(pkgs: Packages, depth: nat, files: seq<FileDescriptor>, targets: set<string>): seq<OutputFile>
  {
    if files == [] then []
    else
      var here := FileSchemas(pkgs, depth, files[0]);
      (if files[0].name in targets && here.Ok? then here.value else []) + Produced(pkgs, depth, files[1..], targets)
  }

  /** `r` with `acc` put before its files when it is a success. */
  function Prepended(acc: seq<OutputFile>, r: Result<seq<OutputFile>, ConvertError>): Result<seq<OutputFile>, ConvertError>
  {
    if r.Ok? then Ok(acc + r.value) else r
  }

  /** The enum loop of `convertFile`: one output file per top-level enum, in order. */
  method EnumOutputs(enums: seq<EnumDescriptor>) returns (response: seq<OutputFile>)
    ensures response == EnumFiles(enums)
  {
    response := [];
    var i := 0;
    while i < |enums|
      invariant 0 <= i <= |enums|
      invariant response == EnumFiles(enums[..i])
    {
      var schema := ConvertEnumType(enums[i]);
      assert enums[..i + 1][..i] == enums[..i];
      response := response + [OutputFile(SchemaFileName(enums[i].name), schema)];
      i := i + 1;
    }
    assert enums[..|enums|] == enums;
  }

  /** The message loop of `convertFile`: one output file per top-level message, stopping at the first failure. */
  method MessageOutputs(reg: Registry, path: seq<string>, depth: nat, msgs: seq<MessageDescriptor>)
    returns (r: Result<seq<OutputFile>, ConvertError>)
    ensures r == MessageFiles(reg.packages, path, depth, msgs)
  {
    var response: seq<OutputFile> := [];
    var i := 0;
    assert msgs[0..] == msgs;
    assert MessageFiles(reg.packages, path, depth, msgs).Ok? ==>
      [] + MessageFiles(reg.packages, path, depth, msgs).value == MessageFiles(reg.packages, path, depth, msgs).value;
    while i < |msgs|
      invariant 0 <= i <= |msgs|
      invariant MessageFiles(reg.packages, path, depth, msgs) ==
        Prepended(response, MessageFiles(reg.packages, path, depth, msgs[i..]))
    {
      var converted := ConvertMessageType(reg, path, depth, msgs[i]);
      assert msgs[i..][0] == msgs[i] && msgs[i..][1..] == msgs[i + 1..];
      if converted.Err? {
        assert MessageFiles(reg.packages, path, depth, msgs[i..]) == Err(converted.error);
        return Err(converted.error);
      }
      var output := OutputFile(SchemaFileName(msgs[i].name), converted.value);
      ghost var rest := MessageFiles(reg.packages, path, depth, msgs[i + 1..]);
      assert MessageFiles(reg.packages, path, depth, msgs[i..]) == Prepended([output], rest);
      if rest.Ok? {
        assert response + ([output] + rest.value) == (response + [output]) + rest.value;
      }
      response := response + [output];
      i := i + 1;
    }
    assert MessageFiles(reg.packages, path, depth, msgs[i..]) == Ok([]);
    assert response + [] == response;
    r := Ok(response);
  }

  /** `convertFile`: the enum schemas of a file without messages, otherwise the schemas of its messages. */
  method ConvertFile(reg: Registry, depth: nat, file: FileDescriptor) returns (r: Result<seq<OutputFile>, ConvertError>)
    requires reg.Valid()
    ensures r == FileSchemas(reg.packages, depth, file)
  {
    if |file.messageTypes| == 0 {
      var response := EnumOutputs(file.enumTypes);
      return Ok(response);
    }
    var found := LookupPackage(reg, GetPackage(file));
    if found.None? {
      return Err(NoSuchPackage(GetPackage(file)));
    }
    r := MessageOutputs(reg, found.value, depth, file.messageTypes);
  }

  /** The first loop of `convert`: the set of the names of the files to generate. */
  method GenerateTargets(req: CodeGeneratorRequest) returns (targets: set<string>)
    ensures targets == Targets(req)
  {
    targets := {};
    var t := 0;
    while t < |req.fileToGenerate|
      invariant 0 <= t <= |req.fileToGenerate|
      invariant targets == set i | 0 <= i < t :: req.fileToGenerate[i]
    {
      targets := targets + {req.fileToGenerate[t]};
      t := t + 1;
    }
  }

  /** The inner registration loop of `convert`: every top-level message of one file, in order. */
  method RegisterFile(reg: Registry, file: FileDescriptor)
    requires reg.Valid()
    modifies reg
    ensures reg.Valid()
    ensures reg.packages == RegisterMessages(old(reg.packages), file.packageName, file.messageTypes)
  {
    var msgs := file.messageTypes;
    var j := 0;
    while j < |msgs|
      invariant 0 <= j <= |msgs|
      invariant reg.Valid() && reg.packages == RegisterMessages(old(reg.packages), file.packageName, msgs[..j])
    {
      RegisterMessagesStep(old(reg.packages), file.packageName, msgs, j);
      reg.Register(file.packageName, msgs[j]);
      j := j + 1;
    }
    assert msgs[..|msgs|] == msgs;
  }

  /** The registration loop of `convert`: every top-level message of every supplied file, file by file. */
  method RegisterAll(reg: Registry, files: seq<FileDescriptor>)
    requires reg.Valid()
    modifies reg
    ensures reg.Valid()
    ensures reg.packages == RegisterFiles(old(reg.packages), files)
  {
    var i := 0;
    while i < |files|
      invariant 0 <= i <= |files|
      invariant reg.Valid() && reg.packages == RegisterFiles(old(reg.packages), files[..i])
    {
      RegisterFile(reg, files[i]);
      assert files[..i + 1][..i] == files[..i];
      i := i + 1;
    }
    assert files[..|files|] == files;
  }

  /** The conversion loop of `convert`: the requested files in order, up to the first failure. */
  method ConvertRequested(reg: Registry, depth: nat, files: seq<FileDescriptor>, targets: set<string>)
    returns (res: Response)
    requires reg.Valid()
    ensures res == ConvertFiles(reg.packages, depth, files, targets)
  {
    var produced: seq<OutputFile> := [];
    var i := 0;
    assert files[0..] == files;
    while i < |files|
      invariant 0 <= i <= |files|
      invariant ConvertFiles(reg.packages, depth, files, targets) ==
        var rest := ConvertFiles(reg.packages, depth, files[i..], targets);
        Response(produced + rest.files, rest.error)
    {
      assert files[i..][0] == files[i] && files[i..][1..] == files[i + 1..];
      ghost var rest := ConvertFiles(reg.packages, depth, files[i + 1..], targets);
      if files[i].name in targets {
        var converted := ConvertFile(reg, depth, files[i]);
        if converted.Err? {
          assert ConvertFiles(reg.packages, depth, files[i..], targets).files == [];
          assert produced + [] == produced;
          return Response(produced, Some(FailureText(files[i].name, converted.error)));
        }
        assert ConvertFiles(reg.packages, depth, files[i..], targets) == Response(converted.value + rest.files, rest.error);
        assert produced + (converted.value + rest.files) == (produced + converted.value) + rest.files;
        produced := produced + converted.value;
      } else {
        assert ConvertFiles(reg.packages, depth, files[i..], targets) == rest;
      }
      i := i + 1;
    }
    assert ConvertFiles(reg.packages, depth, files[i..], targets) == Response([], None);
    assert produced + [] == produced;
    res := Response(produced, None);
  }

  /** `convert`: collects the requested names, registers every message of every file, then converts the requested files in order. */
  method Convert(req: CodeGeneratorRequest, depth: nat) returns (res: Response)
    ensures res == ConvertRequest(req, depth)
  {
    var generateTargets := GenerateTargets(req);
    var reg := new Registry();
    RegisterAll(reg, req.protoFiles);
    res := ConvertRequested(reg, depth, req.protoFiles, generateTargets);
  }

  /** A file without messages always converts, to one `<Enum>.jsonschema` per top-level enum. */
  lemma EnumOnlyFile(pkgs: Packages, depth: nat, file: FileDescriptor)
    requires file.messageTypes == []
    ensures var r := FileSchemas(pkgs, depth, file);
      r.Ok? && |r.value| == |file.enumTypes| &&
      forall i :: 0 <= i < |file.enumTypes| ==>
        r.value[i].name == SchemaFileName(file.enumTypes[i].name) && r.value[i].content == EnumSchema(file.enumTypes[i])
  {
    EnumFilesOutputs(file.enumTypes);
  }

  /**
   * A file with messages yields one `<Message>.jsonschema` per top-level message, and none for
   * its enums; it fails when its package is not a node, which is always the case for an empty
   * package or one written with a leading dot.
   */
  lemma MessageFile(pkgs: Packages, depth: nat, file: FileDescriptor)
    requires WellFormed(pkgs)
    requires file.messageTypes != []
    ensures var r := FileSchemas(pkgs, depth, file);
      r.Ok? ==>
        |r.value| == |file.messageTypes| &&
        forall i :: 0 <= i < |file.messageTypes| ==> r.value[i].name == SchemaFileName(file.messageTypes[i].name)
    ensures PackageOf(pkgs, GetPackage(file)).None? ==>
      FileSchemas(pkgs, depth, file) == Err(NoSuchPackage(GetPackage(file)))
    ensures GetPackage(file) == "" || GetPackage(file)[0] == '.' ==>
      FileSchemas(pkgs, depth, file) == Err(NoSuchPackage(GetPackage(file)))
  {
    if PackageOf(pkgs, GetPackage(file)).Some? {
      MessageFilesOutputs(pkgs, PackageOf(pkgs, GetPackage(file)).value, depth, file.messageTypes);
    }
    if GetPackage(file) == "" || GetPackage(file)[0] == '.' {
      LeadingEmptySegmentNotFound(pkgs, GetPackage(file));
    }
  }

  /** Registering messages never removes a node, and registering any message creates its package's node. */
  lemma {:induction false} RegisterFilesCreatesPackages(pkgs: Packages, files: seq<FileDescriptor>, k: nat)
    requires WellFormed(pkgs)
    requires k < |files| && files[k].messageTypes != []
    ensures PackagePath(files[k].packageName) in RegisterFiles(pkgs, files)
    decreases |files|
  {
    var init := files[..|files| - 1];
    if k < |files| - 1 {
      assert init[k] == files[k];
      RegisterFilesCreatesPackages(pkgs, init, k);
    }
  }

  /**
   * A supplied file whose package is written plainly (not empty, no leading dot) always finds its
   * package when requested: registration created the node.
   */
  lemma SuppliedPackageFound(req: CodeGeneratorRequest, depth: nat, k: nat)
    requires k < |req.protoFiles|
    requires req.protoFiles[k].messageTypes != []
    requires var p := GetPackage(req.protoFiles[k]); p != "" && p[0] != '.'
    ensures var file := req.protoFiles[k];
      PackageOf(RegisterFiles(Root, req.protoFiles), GetPackage(file)) == Some(PackagePath(file.packageName))
  {
    var file := req.protoFiles[k];
    RegisterFilesCreatesPackages(Root, req.protoFiles, k);
    PackagePathOfPlainName(GetPackage(file));
  }

  /** Every requested file among `files` converts. */
  predicate AllConvert(pkgs: Packages, depth: nat, files: seq<FileDescriptor>, targets: set<string>)
  {
    forall i :: 0 <= i < |files| && files[i].name in targets ==> FileSchemas(pkgs, depth, files[i]).Ok?
  }

  /** Every requested file converts exactly when the first one does (if requested) and every later one does. */
  lemma AllConvertCons(pkgs: Packages, depth: nat, files: seq<FileDescriptor>, targets: set<string>)
    requires files != []
    ensures AllConvert(pkgs, depth, files, targets) <==>
      (files[0].name in targets ==> FileSchemas(pkgs, depth, files[0]).Ok?) &&
      AllConvert(pkgs, depth, files[1..], targets)
  {
    assert forall i :: 1 <= i < |files| ==> files[1..][i - 1] == files[i];
  }

  /**
   * A batch reports no error exactly when every requested file converts; then the response holds
   * the schema files of the requested files, in the order the files were supplied.
   */
  lemma {:induction false} ConvertFilesSucceeds(pkgs: Packages, depth: nat, files: seq<FileDescriptor>, targets: set<string>)
    ensures ConvertFiles(pkgs, depth, files, targets).error.None? <==> AllConvert(pkgs, depth, files, targets)
    ensures ConvertFiles(pkgs, depth, files, targets).error.None? ==>
      ConvertFiles(pkgs, depth, files, targets).files == Produced(pkgs, depth, files, targets)
    decreases |files|
  {
    if files != [] {
      ConvertFilesSucceeds(pkgs, depth, files[1..], targets);
      AllConvertCons(pkgs, depth, files, targets);
    }
  }

  /** The `k`-th file is the first requested file of `files` that fails to convert. */
  predicate FailsFirstAt(pkgs: Packages, depth: nat, files: seq<FileDescriptor>, targets: set<string>, k: int)
  {
    0 <= k < |files| && files[k].name in targets && FileSchemas(pkgs, depth, files[k]).Err? &&
    forall j :: 0 <= j < k && files[j].name in targets ==> FileSchemas(pkgs, depth, files[j]).Ok?
  }

  /** The response of a batch whose first failing requested file is the `k`-th. */
  function FailedAt(pkgs: Packages, depth: nat, files: seq<FileDescriptor>, targets: set<string>, k: nat): Response
    requires k < |files| && FileSchemas(pkgs, depth, files[k]).Err?
  {
    Response(Produced(pkgs, depth, files[..k], targets),
             Some(FailureText(files[k].name, FileSchemas(pkgs, depth, files[k]).error)))
  }

  /** Moving past a first file that does not fail shifts the first failure by one. */
  lemma FailsFirstAtShift(pkgs: Packages, depth: nat, files: seq<FileDescriptor>, targets: set<string>, k: nat)
    requires files != [] && !(files[0].name in targets && FileSchemas(pkgs, depth, files[0]).Err?)
    requires FailsFirstAt(pkgs, depth, files[1..], targets, k)
    ensures FailsFirstAt(pkgs, depth, files, targets, k + 1)
    ensures FailedAt(pkgs, depth, files, targets, k + 1) ==
      var here := FileSchemas(pkgs, depth, files[0]);
      var rest := FailedAt(pkgs, depth, files[1..], targets, k);
      Response((if files[0].name in targets then here.value else []) + rest.files, rest.error)
  {
    assert forall j :: 1 <= j < k + 1 ==> files[1..][j - 1] == files[j];
    assert files[..k + 1][1..] == files[1..][..k];
    assert files[..k + 1][0] == files[0];
  }

  /**
   * When a requested file fails, the response carries the error of the first failing requested
   * file and exactly the schema files of the requested files before it; nothing from that file
   * or from any later file.
   */
  lemma {:induction false} ConvertFilesStopsAtFirstFailure(
    pkgs: Packages, depth: nat, files: seq<FileDescriptor>, targets: set<string>)
    requires ConvertFiles(pkgs, depth, files, targets).error.Some?
    ensures exists k: nat :: (FailsFirstAt(pkgs, depth, files, targets, k) &&
      ConvertFiles(pkgs, depth, files, targets) == FailedAt(pkgs, depth, files, targets, k))
    decreases |files|
  {
    var here := FileSchemas(pkgs, depth, files[0]);
    if files[0].name in targets && here.Err? {
      assert files[..0] == [];
      assert FailsFirstAt(pkgs, depth, files, targets, 0);
    } else {
      ConvertFilesStopsAtFirstFailure(pkgs, depth, files[1..], targets);
      var k: nat :| FailsFirstAt(pkgs, depth, files[1..], targets, k) &&
        ConvertFiles(pkgs, depth, files[1..], targets) == FailedAt(pkgs, depth, files[1..], targets, k);
      FailsFirstAtShift(pkgs, depth, files, targets, k);
    }
  }
}
