/**
 * Attribute definitions (TOSCA Simple Profile in YAML v1.3, section 3.6.12):
 * the attribute table and the value an attribute starts from.
 */
module AttributeDefinition {
  import opened Options
  import opened Yaml
  import opened Schema
  import opened Template

  const AttributeSchema: Schema := Schema(
    [ ("type", DataTypeReference("data_types")),
      ("description", StringType),
      ("default", Void),
      ("status", Status),
      ("key_schema", Construct("SchemaDefinition")),
      ("entry_schema", Construct("SchemaDefinition")) ],
    {"type"})

  /** A parsed attribute definition; only `default` matters to `GetValue`. */
  datatype AttributeDefinition = AttributeDefinition(
    typeName: string,
    description: Option<string>,
    default: Option<Data>,
    status: Option<string>)

  /**
   * The value of the attribute as type `typ`: the default's own value when a
   * default is given (`defaultValue` is the default's `get_value`), else a
   * value of type `typ` with no payload, marked as not present.
   */
  function GetValue(a: AttributeDefinition, typ: Option<string>, defaultValue: (Data, Option<string>) -> Value): (v: Value)
    ensures a.default.Some? ==> v == defaultValue(a.default.value, typ)
    ensures a.default.None? ==> v.typ == typ && !v.present && v.data.None?
  {
    if a.default.Some? then defaultValue(a.default.value, typ) else Value(typ, false, None)
  }

  /** No type checks are made: the value type is always unknown. */
  function GetValueType(a: AttributeDefinition): (t: Option<string>)
    ensures t.None?
  {
    None
  }

  /** The table declares exactly these six attributes, and only `type` is required. */
  lemma SchemaShape()
    ensures Declared(AttributeSchema) == ["type", "description", "default", "status", "key_schema", "entry_schema"]
    ensures AttributeSchema.required == {"type"}
  {
  }
}
