/** The fields of `jsonschema.Type` that the converter fills in. */
module JsonSchema {
  import opened Wrappers

  /** One entry of a schema's `enum` list: the converter appends a value's name, then its number. */
  datatype EnumLiteral = EnumName(name: string) | EnumNumber(number: int)

  /**
   * A schema node. `typ` is the `type` keyword ("" when unset); `additionalProperties` is absent,
   * true or false; `versioned` records whether the `$schema` version marker is set.
   */
  datatype Schema = Schema(
    typ: string,
    properties: map<string, Schema>,
    items: Option<Schema>,
    oneOf: seq<Schema>,
    enumValues: seq<EnumLiteral>,
    additionalProperties: Option<bool>,
    versioned: bool)

  /** A node carrying only a `type`, as `&jsonschema.Type{Type: t}` builds it. */
  function Leaf(typ: string): Schema
  {
    Schema(typ, map[], None, [], [], None, false)
  }
}
