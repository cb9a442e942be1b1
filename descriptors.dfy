/**
 * The protobuf descriptors the plugin receives, as read-only values. Only the parts of
 * `FieldDescriptorProto`, `DescriptorProto`, `EnumDescriptorProto`, `FileDescriptorProto` and
 * `CodeGeneratorRequest` that the converter reads are kept.
 */
module Descriptors {
  import opened Wrappers

  /** A numeric type tag the descriptor format does not define: the known kinds are the tags 1 to 18. */
  type UnknownTag = t: int | !(1 <= t <= 18) witness 0

  /** `FieldDescriptorProto.Type`; `TypeUnknown` holds any numeric tag outside the eighteen known ones. */
  datatype Kind =
    | TypeDouble | TypeFloat | TypeInt64 | TypeUint64 | TypeInt32 | TypeFixed64 | TypeFixed32
    | TypeBool | TypeString | TypeGroup | TypeMessage | TypeBytes | TypeUint32 | TypeEnum
    | TypeSfixed32 | TypeSfixed64 | TypeSint32 | TypeSint64
    | TypeUnknown(tag: UnknownTag)

  /** `FieldDescriptorProto.Label`. */
  datatype Label = LabelOptional | LabelRequired | LabelRepeated

  /** A field: its name, kind, label and, for message and enum fields, the referenced type name. */
  datatype FieldDescriptor = FieldDescriptor(name: string, kind: Kind, fieldLabel: Label, typeName: string)

  datatype EnumValue = EnumValue(name: string, number: int)

  datatype EnumDescriptor = EnumDescriptor(name: string, values: seq<EnumValue>)

  /** A message type with its fields, nested message types and nested enum types, in declaration order. */
  datatype MessageDescriptor = MessageDescriptor(
    name: string,
    fields: seq<FieldDescriptor>,
    nestedTypes: seq<MessageDescriptor>,
    enumTypes: seq<EnumDescriptor>)

  /** A `.proto` file: its name, its optional package and its top-level messages and enums. */
  datatype FileDescriptor = FileDescriptor(
    name: string,
    packageName: Option<string>,
    messageTypes: seq<MessageDescriptor>,
    enumTypes: seq<EnumDescriptor>)

  /** The request protoc sends: the files to generate and every file visible to the run. */
  datatype CodeGeneratorRequest = CodeGeneratorRequest(fileToGenerate: seq<string>, protoFiles: seq<FileDescriptor>)

  /** `GetPackage()`: the package, or the empty string when the file declares none. */
  function GetPackage(file: FileDescriptor): string
  {
    if file.packageName.Some? then file.packageName.value else ""
  }
}
