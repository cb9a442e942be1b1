/**
 * The schema converter: a field's kind picks its JSON Schema `type`; enum fields get a
 * string-or-integer `oneOf` and the values of the owning message's matching nested enums;
 * repeated fields become arrays; message fields are resolved through the registry and
 * converted recursively, their schema becoming the array's `items` or, for a singular field,
 * lending its `properties` to the field's node.
 *
 * The source recurses from field to message without a cycle guard, so a message that contains
 * itself never finishes. The model bounds the recursion with `depth`, the number of message
 * fields that may still be entered; when it runs out, conversion fails with `DepthExhausted`.
 */
module Converter {
  import opened Wrappers
  import opened Strings
  import opened Descriptors
  import opened JsonSchema
  import opened Namespace
  import opened Resolver

  /** Whether message schemas allow properties beyond their fields (a build-time constant of the plugin). */
  const AllowAdditionalProperties: bool := true

  datatype ConvertError =
    | UnrecognizedFieldType(tag: int)
    | NoSuchMessageType(typeName: string)
    | NoSuchPackage(packageName: string)
    | DepthExhausted(typeName: string)

  /** The error's text, as the plugin formats it. */
  function ErrorText(e: ConvertError): string
  {
    match e
    case UnrecognizedFieldType(tag) => "unrecognized field type: " + Decimal(tag)
    case NoSuchMessageType(name) => "no such message type named " + name
    case NoSuchPackage(name) => "no such package found: " + name
    case DepthExhausted(name) => "message " + name + " is nested deeper than the depth bound"
  }

  predicate IsDepthError<T>(r: Result<T, ConvertError>)
  {
    r.Err? && r.error.DepthExhausted?
  }

  /** The `type` the kind switch picks; enum fields leave it empty. */
  function KindType(kind: Kind): string
    requires !kind.TypeUnknown?
  {
    match kind
    case TypeDouble | TypeFloat => "number"
    case TypeInt64 | TypeUint64 | TypeInt32 | TypeUint32 | TypeFixed64 | TypeFixed32
      | TypeSfixed32 | TypeSfixed64 | TypeSint32 | TypeSint64 => "integer"
    case TypeString | TypeBytes => "string"
    case TypeEnum => ""
    case TypeBool => "boolean"
    case TypeGroup | TypeMessage => "object"
  }

  /** `additionalProperties` of a message field's node: allowed when optional, forbidden when required. */
  function LabelAdditional(fieldLabel: Label): Option<bool>
  {
    match fieldLabel
    case LabelOptional => Some(true)
    case LabelRequired => Some(false)
    case LabelRepeated => None
  }

  /** The `[name, number]` entries of enum values, in declaration order. */
  function EnumPairs(values: seq<EnumValue>): seq<EnumLiteral>
  {
    if values == [] then []
    else
      var last := values[|values| - 1];
      EnumPairs(values[..|values| - 1]) + [EnumName(last.name), EnumNumber(last.number)]
  }

  /** Two entries per value, its name and then its number, in value order. */
  lemma {:induction false} EnumPairsEntries(values: seq<EnumValue>)
    ensures |EnumPairs(values)| == 2 * |values|
    ensures forall i :: 0 <= i < |values| ==>
      EnumPairs(values)[2 * i] == EnumName(values[i].name) && EnumPairs(values)[2 * i + 1] == EnumNumber(values[i].number)
    decreases |values|
  {
    if values != [] {
      var init := values[..|values| - 1];
      EnumPairsEntries(init);
      assert forall i :: 0 <= i < |init| ==> init[i] == values[i];
    }
  }

  /** Whether a field of type `typeName` takes the values of `owner`'s nested enum `e`: a suffix test on ".<message>.<enum>". */
  predicate EnumMatches(owner: MessageDescriptor, e: EnumDescriptor, typeName: string)
  {
    HasSuffix(typeName, "." + owner.name + "." + e.name)
  }

  /** The entries contributed by the matching enums among `enums`, in declaration order. */
  function MatchingEnumValues(owner: MessageDescriptor, enums: seq<EnumDescriptor>, typeName: string): seq<EnumLiteral>
  {
    if enums == [] then []
    else
      var e := enums[|enums| - 1];
      MatchingEnumValues(owner, enums[..|enums| - 1], typeName) +
        (if EnumMatches(owner, e, typeName) then EnumPairs(e.values) else [])
  }

  /** The `enum` list of an enum field: only the owning message's own nested enums are consulted. */
  function EnumValuesFor(owner: MessageDescriptor, typeName: string): seq<EnumLiteral>
  {
    MatchingEnumValues(owner, owner.enumTypes, typeName)
  }

  /** The node the kind switch of `convertField` builds, before arrays and nested messages are handled. */
  function KindSchema(f: FieldDescriptor, owner: MessageDescriptor): Schema
    requires !f.kind.TypeUnknown?
  {
    var t := KindType(f.kind);
    if f.kind == TypeEnum then
      Schema(t, map[], None, [Leaf("string"), Leaf("integer")], EnumValuesFor(owner, f.typeName), None, false)
    else if t == "object" then
      Schema(t, map[], None, [], [], LabelAdditional(f.fieldLabel), false)
    else Leaf(t)
  }

  /** The names of the fields, which become the keys of a message schema's `properties`. */
  function FieldNames(fields: seq<FieldDescriptor>): set<string>
  {
    set i | 0 <= i < |fields| :: fields[i].name
  }

  /**
   * `convertField`: the schema of field `f` of message `owner`, whose references are resolved
   * from the package at `path`.
   */
  function FieldSchema(pkgs: Packages, path: seq<string>, depth: nat, f: FieldDescriptor, owner: MessageDescriptor)
    : (r: Result<Schema, ConvertError>)
    ensures f.kind.TypeUnknown? ==> r == Err(UnrecognizedFieldType(f.kind.tag))
    ensures r.Ok? ==> !r.value.versioned
    ensures r.Ok? ==> (r.value.typ == "array" <==> f.fieldLabel == LabelRepeated)
    ensures r.Ok? ==> (r.value.items.Some? <==> f.fieldLabel == LabelRepeated)
    decreases depth, 0, 0
  {
    if f.kind.TypeUnknown? then Err(UnrecognizedFieldType(f.kind.tag))
    else
      var node := KindSchema(f, owner);
      if f.fieldLabel == LabelRepeated && node.typ != "object" then
        Ok(node.(typ := "array", items := Some(Leaf(node.typ))))
      else if node.typ != "object" then
        Ok(node)
      else match Resolve(pkgs, path, f.typeName)
        case None => Err(NoSuchMessageType(f.typeName))
        case Some(record) =>
          if depth == 0 then Err(DepthExhausted(record.name))
          else match MessageSchema(pkgs, path, depth - 1, record)
            case Err(e) => Err(e)
            case Ok(sub) =>
              if f.fieldLabel == LabelRepeated then Ok(node.(typ := "array", items := Some(sub)))
              else Ok(node.(properties := sub.properties))
  }

  /** The `properties` of a message with these fields: each field in order, stopping at the first failure. */
  function FieldsSchema(pkgs: Packages, path: seq<string>, depth: nat, fields: seq<FieldDescriptor>, owner: MessageDescriptor)
    : (r: Result<map<string, Schema>, ConvertError>)
    ensures r.Ok? ==> r.value.Keys == FieldNames(fields)
    decreases depth, 1, |fields|
  {
    if fields == [] then Ok(map[])
    else
      var last := fields[|fields| - 1];
      match FieldsSchema(pkgs, path, depth, fields[..|fields| - 1], owner)
      case Err(e) => Err(e)
      case Ok(props) =>
        match FieldSchema(pkgs, path, depth, last, owner)
        case Err(e) => Err(e)
        case Ok(s) =>
          assert FieldNames(fields) == FieldNames(fields[..|fields| - 1]) + {last.name} by {
            forall i | 0 <= i < |fields| - 1 ensures fields[..|fields| - 1][i] == fields[i] { }
          }
          Ok(props[last.name := s])
  }

  /** `convertMessageType`: an object schema whose `properties` are the converted fields. */
  function MessageSchema(pkgs: Packages, path: seq<string>, depth: nat, m: MessageDescriptor): (r: Result<Schema, ConvertError>)
    ensures r.Ok? ==> r.value.typ == "object" && r.value.versioned
    ensures r.Ok? ==> r.value.additionalProperties == Some(AllowAdditionalProperties)
    ensures r.Ok? ==> r.value.properties.Keys == FieldNames(m.fields)
    decreases depth, 2, 0
  {
    match FieldsSchema(pkgs, path, depth, m.fields, m)
    case Err(e) => Err(e)
    case Ok(props) => Ok(Schema("object", props, None, [], [], Some(AllowAdditionalProperties), true))
  }

  /** `convertEnumType`: a string-or-integer schema listing every value's name and number. */
  function EnumSchema(e: EnumDescriptor): Schema
  {
    Schema("", map[], None, [Leaf("string"), Leaf("integer")], EnumPairs(e.values), None, true)
  }

  /** One more value adds its name and number to the entries. */
  lemma EnumPairsStep(values: seq<EnumValue>, j: nat)
    requires j < |values|
    ensures EnumPairs(values[..j + 1]) == EnumPairs(values[..j]) + [EnumName(values[j].name), EnumNumber(values[j].number)]
  {
    assert values[..j + 1][..j] == values[..j];
  }

  /** One more nested enum adds its entries when it matches. */
  lemma MatchingEnumValuesStep(owner: MessageDescriptor, enums: seq<EnumDescriptor>, typeName: string, i: nat)
    requires i < |enums|
    ensures MatchingEnumValues(owner, enums[..i + 1], typeName) == MatchingEnumValues(owner, enums[..i], typeName) +
      (if EnumMatches(owner, enums[i], typeName) then EnumPairs(enums[i].values) else [])
  {
    assert enums[..i + 1][..i] == enums[..i];
  }

  /** The inner loop over one nested enum's values: each value is appended when the enum matches the field's type. */
  method AppendMatchingValues(acc: seq<EnumLiteral>, owner: MessageDescriptor, e: EnumDescriptor, typeName: string)
    returns (r: seq<EnumLiteral>)
    ensures r == acc + (if EnumMatches(owner, e, typeName) then EnumPairs(e.values) else [])
  {
    var values := e.values;
    ghost var matches := EnumMatches(owner, e, typeName);
    r := acc;
    var j := 0;
    while j < |values|
      invariant 0 <= j <= |values|
      invariant r == acc + (if matches then EnumPairs(values[..j]) else [])
    {
      var fullName := "." + owner.name + "." + e.name;
      assert HasSuffix(typeName, fullName) == matches;
      EnumPairsStep(values, j);
      if HasSuffix(typeName, fullName) {
        r := r + [EnumName(values[j].name), EnumNumber(values[j].number)];
      }
      j := j + 1;
    }
    assert values[..|values|] == values;
  }

  /** The enum loop of `convertField`: every value of every matching nested enum of the owner. */
  method MatchEnumValues(owner: MessageDescriptor, typeName: string) returns (r: seq<EnumLiteral>)
    ensures r == EnumValuesFor(owner, typeName)
  {
    var enums := owner.enumTypes;
    r := [];
    var i := 0;
    while i < |enums|
      invariant 0 <= i <= |enums|
      invariant r == MatchingEnumValues(owner, enums[..i], typeName)
    {
      r := AppendMatchingValues(r, owner, enums[i], typeName);
      MatchingEnumValuesStep(owner, enums, typeName, i);
      i := i + 1;
    }
    assert enums[..|enums|] == enums;
  }

  /** A failure among the first `k` fields is the failure of the whole message. */
  lemma {:induction false} FieldsSchemaErrPrefix(
    pkgs: Packages, path: seq<string>, depth: nat, fields: seq<FieldDescriptor>, owner: MessageDescriptor, k: nat)
    requires k <= |fields| && FieldsSchema(pkgs, path, depth, fields[..k], owner).Err?
    ensures FieldsSchema(pkgs, path, depth, fields, owner) == FieldsSchema(pkgs, path, depth, fields[..k], owner)
    decreases |fields|
  {
    if k < |fields| {
      var init := fields[..|fields| - 1];
      assert init[..k] == fields[..k];
      FieldsSchemaErrPrefix(pkgs, path, depth, init, owner, k);
    } else {
      assert fields[..k] == fields;
    }
  }

  /** One more field: its schema joins the properties, or its failure becomes the message's. */
  lemma FieldsSchemaStep(
    pkgs: Packages, path: seq<string>, depth: nat, fields: seq<FieldDescriptor>, owner: MessageDescriptor, i: nat)
    requires i < |fields| && FieldsSchema(pkgs, path, depth, fields[..i], owner).Ok?
    ensures var props := FieldsSchema(pkgs, path, depth, fields[..i], owner).value;
      FieldsSchema(pkgs, path, depth, fields[..i + 1], owner) ==
        match FieldSchema(pkgs, path, depth, fields[i], owner)
        case Err(e) => Err(e)
        case Ok(s) => Ok(props[fields[i].name := s])
  {
    assert fields[..i + 1][..i] == fields[..i];
  }

  /** A field whose kind node is an object is resolved and converted through the message it names. */
  lemma FieldSchemaReference(pkgs: Packages, path: seq<string>, depth: nat, f: FieldDescriptor, owner: MessageDescriptor)
    requires !f.kind.TypeUnknown? && KindSchema(f, owner).typ == "object"
    ensures var node := KindSchema(f, owner);
      FieldSchema(pkgs, path, depth, f, owner) ==
        match Resolve(pkgs, path, f.typeName)
        case None => Err(NoSuchMessageType(f.typeName))
        case Some(record) =>
          if depth == 0 then Err(DepthExhausted(record.name))
          else match MessageSchema(pkgs, path, depth - 1, record)
            case Err(e) => Err(e)
            case Ok(sub) =>
              if f.fieldLabel == LabelRepeated then Ok(node.(typ := "array", items := Some(sub)))
              else Ok(node.(properties := sub.properties))
  {
  }

  /** The kind switch of `convertField`, collecting the values of a matching nested enum for an enum field. */
  method KindNode(f: FieldDescriptor, owner: MessageDescriptor) returns (node: Schema)
    requires !f.kind.TypeUnknown?
    ensures node == KindSchema(f, owner)
  {
    var t := KindType(f.kind);
    if f.kind == TypeEnum {
      var values := MatchEnumValues(owner, f.typeName);
      node := Schema(t, map[], None, [Leaf("string"), Leaf("integer")], values, None, false);
    } else if t == "object" {
      node := Schema(t, map[], None, [], [], LabelAdditional(f.fieldLabel), false);
    } else {
      node := Leaf(t);
    }
  }

  /**
   * `convertField`: builds the node for the field's kind (collecting a matching nested enum's
   * values), turns a repeated non-message field into an array, and otherwise looks the message
   * type up and converts it.
   */
  method ConvertField(reg: Registry, path: seq<string>, depth: nat, f: FieldDescriptor, owner: MessageDescriptor)
    returns (r: Result<Schema, ConvertError>)
    ensures r == FieldSchema(reg.packages, path, depth, f, owner)
    decreases depth, 0
  {
    if f.kind.TypeUnknown? {
      return Err(UnrecognizedFieldType(f.kind.tag));
    }
    var node := KindNode(f, owner);
    if f.fieldLabel == LabelRepeated && node.typ != "object" {
      return Ok(node.(typ := "array", items := Some(Leaf(node.typ))));
    }
    if node.typ != "object" {
      return Ok(node);
    }
    FieldSchemaReference(reg.packages, path, depth, f, owner);
    var record := LookupType(reg, path, f.typeName);
    if record.None? {
      return Err(NoSuchMessageType(f.typeName));
    }
    if depth == 0 {
      return Err(DepthExhausted(record.value.name));
    }
    var sub := ConvertMessageType(reg, path, depth - 1, record.value);
    if sub.Err? {
      return Err(sub.error);
    }
    if f.fieldLabel == LabelRepeated {
      r := Ok(node.(typ := "array", items := Some(sub.value)));
    } else {
      r := Ok(node.(properties := sub.value.properties));
    }
  }

  /** `convertMessageType`: fills `properties` field by field and returns at the first failing field. */
  method ConvertMessageType(reg: Registry, path: seq<string>, depth: nat, msg: MessageDescriptor)
    returns (r: Result<Schema, ConvertError>)
    ensures r == MessageSchema(reg.packages, path, depth, msg)
    decreases depth, 1
  {
    var fields := msg.fields;
    var props: map<string, Schema> := map[];
    var i := 0;
    while i < |fields|
      invariant 0 <= i <= |fields|
      invariant FieldsSchema(reg.packages, path, depth, fields[..i], msg) == Ok(props)
    {
      var converted := ConvertField(reg, path, depth, fields[i], msg);
      FieldsSchemaStep(reg.packages, path, depth, fields, msg, i);
      if converted.Err? {
        FieldsSchemaErrPrefix(reg.packages, path, depth, fields, msg, i + 1);
        return Err(converted.error);
      }
      props := props[fields[i].name := converted.value];
      i := i + 1;
    }
    assert fields[..|fields|] == fields;
    r := Ok(Schema("object", props, None, [], [], Some(AllowAdditionalProperties), true));
  }

  /** `convertEnumType`: the union of string and integer, with each value's name and number in order. */
  method ConvertEnumType(e: EnumDescriptor) returns (r: Schema)
    ensures r == EnumSchema(e)
    ensures r.oneOf == [Leaf("string"), Leaf("integer")] && r.versioned
    ensures |r.enumValues| == 2 * |e.values|
    ensures forall i :: 0 <= i < |e.values| ==>
      r.enumValues[2 * i] == EnumName(e.values[i].name) && r.enumValues[2 * i + 1] == EnumNumber(e.values[i].number)
  {
    var values := e.values;
    var entries: seq<EnumLiteral> := [];
    var i := 0;
    while i < |values|
      invariant 0 <= i <= |values|
      invariant entries == EnumPairs(values[..i])
    {
      EnumPairsStep(values, i);
      entries := entries + [EnumName(values[i].name), EnumNumber(values[i].number)];
      i := i + 1;
    }
    assert values[..|values|] == values;
    EnumPairsEntries(values);
    r := Schema("", map[], None, [Leaf("string"), Leaf("integer")], entries, None, true);
  }

  /** Every one of `fields` passes the test `ok`. */
  predicate AllFields(ok: FieldDescriptor -> bool, fields: seq<FieldDescriptor>)
  {
    forall i :: 0 <= i < |fields| ==> ok(fields[i])
  }

  /** All fields pass when the ones before the last do and the last one does. */
  lemma AllFieldsSnoc(ok: FieldDescriptor -> bool, fields: seq<FieldDescriptor>)
    requires fields != []
    ensures AllFields(ok, fields) <==> AllFields(ok, fields[..|fields| - 1]) && ok(fields[|fields| - 1])
  {
    var init := fields[..|fields| - 1];
    assert forall i :: 0 <= i < |init| ==> init[i] == fields[i];
  }

  /** The test "this field converts", for fields of `owner` resolved from `path`. */
  function Converts(pkgs: Packages, path: seq<string>, depth: nat, owner: MessageDescriptor): FieldDescriptor -> bool
  {
    f => FieldSchema(pkgs, path, depth, f, owner).Ok?
  }

  /** Each of `fields` converts on its own. */
  predicate FieldsConvert(pkgs: Packages, path: seq<string>, depth: nat, fields: seq<FieldDescriptor>, owner: MessageDescriptor)
  {
    AllFields(Converts(pkgs, path, depth, owner), fields)
  }

  /** A message's fields convert exactly when each of them does. */
  lemma {:induction false} FieldsSchemaSucceeds(
    pkgs: Packages, path: seq<string>, depth: nat, fields: seq<FieldDescriptor>, owner: MessageDescriptor)
    ensures FieldsSchema(pkgs, path, depth, fields, owner).Ok? <==> FieldsConvert(pkgs, path, depth, fields, owner)
    decreases |fields|
  {
    if fields != [] {
      var init := fields[..|fields| - 1];
      FieldsSchemaSucceeds(pkgs, path, depth, init, owner);
      AllFieldsSnoc(Converts(pkgs, path, depth, owner), fields);
    }
  }

  /**
   * In a converted message, each field whose name no later field reuses maps to its own schema
   * (a later field of the same name overwrites an earlier one).
   */
  lemma {:induction false} FieldsSchemaValues(
    pkgs: Packages, path: seq<string>, depth: nat, fields: seq<FieldDescriptor>, owner: MessageDescriptor, i: nat)
    requires FieldsSchema(pkgs, path, depth, fields, owner).Ok?
    requires i < |fields| && forall j :: i < j < |fields| ==> fields[j].name != fields[i].name
    ensures FieldSchema(pkgs, path, depth, fields[i], owner).Ok?
    ensures FieldsSchema(pkgs, path, depth, fields, owner).value[fields[i].name] ==
      FieldSchema(pkgs, path, depth, fields[i], owner).value
    decreases |fields|
  {
    var init := fields[..|fields| - 1];
    if i < |fields| - 1 {
      assert forall j :: 0 <= j < |init| ==> init[j] == fields[j];
      FieldsSchemaValues(pkgs, path, depth, init, owner, i);
    }
  }

  /** A failing message fails with the error of its first failing field. */
  lemma {:induction false} FieldsSchemaFirstError(
    pkgs: Packages, path: seq<string>, depth: nat, fields: seq<FieldDescriptor>, owner: MessageDescriptor)
    requires FieldsSchema(pkgs, path, depth, fields, owner).Err?
    ensures exists k :: (0 <= k < |fields| &&
      FieldSchema(pkgs, path, depth, fields[k], owner) == Err(FieldsSchema(pkgs, path, depth, fields, owner).error) &&
      forall j :: 0 <= j < k ==> FieldSchema(pkgs, path, depth, fields[j], owner).Ok?)
    decreases |fields|
  {
    var init := fields[..|fields| - 1];
    assert forall i :: 0 <= i < |init| ==> init[i] == fields[i];
    if FieldsSchema(pkgs, path, depth, init, owner).Err? {
      FieldsSchemaFirstError(pkgs, path, depth, init, owner);
    } else {
      FieldsSchemaSucceeds(pkgs, path, depth, init, owner);
      assert FieldSchema(pkgs, path, depth, fields[|fields| - 1], owner) == Err(FieldsSchema(pkgs, path, depth, fields, owner).error);
    }
  }

  /** A larger depth bound never changes a message schema that did not run out of depth. */
  lemma {:induction false} MessageDepthMonotone(pkgs: Packages, path: seq<string>, d1: nat, d2: nat, m: MessageDescriptor)
    requires d1 <= d2
    requires !IsDepthError(MessageSchema(pkgs, path, d1, m))
    ensures MessageSchema(pkgs, path, d2, m) == MessageSchema(pkgs, path, d1, m)
    decreases d1, 2, 0
  {
    FieldsDepthMonotone(pkgs, path, d1, d2, m.fields, m);
  }

  lemma {:induction false} FieldsDepthMonotone(
    pkgs: Packages, path: seq<string>, d1: nat, d2: nat, fields: seq<FieldDescriptor>, owner: MessageDescriptor)
    requires d1 <= d2
    requires !IsDepthError(FieldsSchema(pkgs, path, d1, fields, owner))
    ensures FieldsSchema(pkgs, path, d2, fields, owner) == FieldsSchema(pkgs, path, d1, fields, owner)
    decreases d1, 1, |fields|
  {
    if fields != [] {
      var init := fields[..|fields| - 1];
      FieldsDepthMonotone(pkgs, path, d1, d2, init, owner);
      if FieldsSchema(pkgs, path, d1, init, owner).Ok? {
        FieldDepthMonotone(pkgs, path, d1, d2, fields[|fields| - 1], owner);
      }
    }
  }

  lemma {:induction false} FieldDepthMonotone(
    pkgs: Packages, path: seq<string>, d1: nat, d2: nat, f: FieldDescriptor, owner: MessageDescriptor)
    requires d1 <= d2
    requires !IsDepthError(FieldSchema(pkgs, path, d1, f, owner))
    ensures FieldSchema(pkgs, path, d2, f, owner) == FieldSchema(pkgs, path, d1, f, owner)
    decreases d1, 0, 0
  {
    if !f.kind.TypeUnknown? && KindType(f.kind) == "object" {
      var found := Resolve(pkgs, path, f.typeName);
      if found.Some? && d1 > 0 {
        MessageDepthMonotone(pkgs, path, d1 - 1, d2 - 1, found.value);
      }
    }
  }

  /** The kind table for singular fields: each scalar kind maps to its JSON Schema type. */
  lemma SingularScalarFields(pkgs: Packages, path: seq<string>, depth: nat, f: FieldDescriptor, owner: MessageDescriptor)
    requires f.fieldLabel != LabelRepeated
    ensures f.kind in {TypeDouble, TypeFloat} ==> FieldSchema(pkgs, path, depth, f, owner) == Ok(Leaf("number"))
    ensures f.kind in {TypeInt64, TypeUint64, TypeInt32, TypeUint32, TypeFixed64, TypeFixed32,
                       TypeSfixed32, TypeSfixed64, TypeSint32, TypeSint64} ==>
      FieldSchema(pkgs, path, depth, f, owner) == Ok(Leaf("integer"))
    ensures f.kind in {TypeString, TypeBytes} ==> FieldSchema(pkgs, path, depth, f, owner) == Ok(Leaf("string"))
    ensures f.kind == TypeBool ==> FieldSchema(pkgs, path, depth, f, owner) == Ok(Leaf("boolean"))
  {
  }

  /** A repeated non-message field is an array whose `items` carries only the element type ("" for enums). */
  lemma RepeatedScalarFields(pkgs: Packages, path: seq<string>, depth: nat, f: FieldDescriptor, owner: MessageDescriptor)
    requires f.fieldLabel == LabelRepeated
    requires !f.kind.TypeUnknown? && f.kind != TypeMessage && f.kind != TypeGroup
    ensures var r := FieldSchema(pkgs, path, depth, f, owner);
      r.Ok? && r.value.typ == "array" && r.value.items == Some(Leaf(KindType(f.kind))) &&
      r.value.properties == map[] && r.value.additionalProperties.None?
  {
  }

  /** An enum field is a string-or-integer union carrying the matching enum values, also when repeated. */
  lemma EnumFields(pkgs: Packages, path: seq<string>, depth: nat, f: FieldDescriptor, owner: MessageDescriptor)
    requires f.kind == TypeEnum
    ensures var r := FieldSchema(pkgs, path, depth, f, owner);
      r.Ok? && r.value.oneOf == [Leaf("string"), Leaf("integer")] &&
      r.value.enumValues == EnumValuesFor(owner, f.typeName) &&
      r.value.typ == (if f.fieldLabel == LabelRepeated then "array" else "")
  {
  }

  /**
   * A message field: an unresolvable type name is an error; otherwise the referenced message is
   * converted from the referencing package, and becomes the `items` of a repeated field or gives
   * its `properties` to a singular field, which keeps the label's `additionalProperties`.
   */
  lemma MessageFields(pkgs: Packages, path: seq<string>, depth: nat, f: FieldDescriptor, owner: MessageDescriptor)
    requires f.kind == TypeMessage || f.kind == TypeGroup
    ensures Resolve(pkgs, path, f.typeName).None? ==>
      FieldSchema(pkgs, path, depth, f, owner) == Err(NoSuchMessageType(f.typeName))
    ensures Resolve(pkgs, path, f.typeName).Some? && depth > 0 ==>
      var sub := MessageSchema(pkgs, path, depth - 1, Resolve(pkgs, path, f.typeName).value);
      FieldSchema(pkgs, path, depth, f, owner) ==
        if sub.Err? then Err(sub.error)
        else if f.fieldLabel == LabelRepeated then Ok(Schema("array", map[], Some(sub.value), [], [], None, false))
        else Ok(Schema("object", sub.value.properties, None, [], [], Some(f.fieldLabel == LabelOptional), false))
  {
  }

  /** With no matching nested enum, the `enum` list stays empty. */
  lemma {:induction false} NoMatchingEnum(owner: MessageDescriptor, enums: seq<EnumDescriptor>, typeName: string)
    requires forall i :: 0 <= i < |enums| ==> !EnumMatches(owner, enums[i], typeName)
    ensures MatchingEnumValues(owner, enums, typeName) == []
    decreases |enums|
  {
    if enums != [] {
      var init := enums[..|enums| - 1];
      assert forall i :: 0 <= i < |init| ==> init[i] == enums[i];
      NoMatchingEnum(owner, init, typeName);
    }
  }

  /** When exactly one nested enum matches, the `enum` list is that enum's entries. */
  lemma {:induction false} SingleMatchingEnum(owner: MessageDescriptor, enums: seq<EnumDescriptor>, typeName: string, k: nat)
    requires k < |enums| && EnumMatches(owner, enums[k], typeName)
    requires forall i :: 0 <= i < |enums| && i != k ==> !EnumMatches(owner, enums[i], typeName)
    ensures MatchingEnumValues(owner, enums, typeName) == EnumPairs(enums[k].values)
    decreases |enums|
  {
    var init := enums[..|enums| - 1];
    assert forall i :: 0 <= i < |init| ==> init[i] == enums[i];
    if k < |enums| - 1 {
      SingleMatchingEnum(owner, init, typeName, k);
    } else {
      NoMatchingEnum(owner, init, typeName);
    }
  }

  /** The entries of the two values `RED = 0` and `GREEN = 1`. */
  lemma ColorPairs()
    ensures EnumPairs([EnumValue("RED", 0), EnumValue("GREEN", 1)]) ==
      [EnumName("RED"), EnumNumber(0), EnumName("GREEN"), EnumNumber(1)]
  {
    var values := [EnumValue("RED", 0), EnumValue("GREEN", 1)];
    EnumPairsEntries(values);
    var pairs := EnumPairs(values);
    assert pairs[0] == EnumName("RED") && pairs[1] == EnumNumber(0);
    assert pairs[2] == EnumName("GREEN") && pairs[3] == EnumNumber(1);
  }

  /** The entries of the nested enum `Color {RED = 0; GREEN = 1;}` of a message `M`, for a field of type `.pkg.M.Color`. */
  lemma ColorEntries(m: MessageDescriptor)
    requires m.name == "M" && m.enumTypes == [EnumDescriptor("Color", [EnumValue("RED", 0), EnumValue("GREEN", 1)])]
    ensures EnumValuesFor(m, ".pkg.M.Color") == [EnumName("RED"), EnumNumber(0), EnumName("GREEN"), EnumNumber(1)]
  {
    var color := m.enumTypes[0];
    assert EnumMatches(m, color, ".pkg.M.Color") by {
      assert "." + m.name + "." + color.name == ".M.Color";
      assert ".pkg.M.Color"[4..] == ".M.Color";
    }
    SingleMatchingEnum(m, m.enumTypes, ".pkg.M.Color", 0);
    ColorPairs();
  }

  /** A message `M` with nested enum `Color {RED = 0; GREEN = 1;}` and a field of type `.pkg.M.Color`. */
  lemma ColorFieldExample(pkgs: Packages, path: seq<string>, depth: nat)
    ensures var color := EnumDescriptor("Color", [EnumValue("RED", 0), EnumValue("GREEN", 1)]);
      var field := FieldDescriptor("color", TypeEnum, LabelOptional, ".pkg.M.Color");
      var m := MessageDescriptor("M", [field], [], [color]);
      FieldSchema(pkgs, path, depth, field, m) ==
        Ok(Schema("", map[], None, [Leaf("string"), Leaf("integer")],
                  [EnumName("RED"), EnumNumber(0), EnumName("GREEN"), EnumNumber(1)], None, false))
  {
    var color := EnumDescriptor("Color", [EnumValue("RED", 0), EnumValue("GREEN", 1)]);
    var field := FieldDescriptor("color", TypeEnum, LabelOptional, ".pkg.M.Color");
    var m := MessageDescriptor("M", [field], [], [color]);
    ColorEntries(m);
    assert KindType(field.kind) == "";
    assert FieldSchema(pkgs, path, depth, field, m) == Ok(KindSchema(field, m));
  }
}
