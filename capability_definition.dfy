/**
 * Capability definitions (TOSCA Simple Profile in YAML v1.3, section 3.6.2):
 * the attribute table and the short form, in which a bare string names the
 * capability type.
 */
module CapabilityDefinition {
  import opened Yaml
  import opened Errors
  import opened OrderedMaps
  import opened Schema

  const CapabilitySchema: Schema := Schema(
    [ ("type", Reference("capability_types")),
      ("description", StringType),
      ("properties", MapOf(Construct("PropertyDefinition"))),
      ("attributes", MapOf(Construct("AttributeDefinition"))),
      ("valid_source_types", ListOf(Reference("node_types"))),
      ("occurrences", Range) ],
    {"type"})

  /**
   * Rewrites the short form into the long form: a string `s` becomes the
   * mapping `{type: s}`, a mapping is kept, anything else is rejected.
   */
  function Normalize(n: Node): (r: Result<Node>)
    ensures r.Err? <==> !(n.value.Str? || n.value.Map?)
    ensures r.Err? ==> r.error == ParseError(ExpectedStringOrMap, n.loc)
    ensures n.value.Map? ==> r == Ok(n)
    ensures n.value.Str? ==>
              && r.Ok? && r.value.value.Map?
              && |r.value.value.entries| == 1
              && r.value.value.entries[0].0.value == Str("type")
              && r.value.value.entries[0].1 == n
  {
    if !(n.value.Str? || n.value.Map?) then Err(ParseError(ExpectedStringOrMap, n.loc))
    else if n.value.Str? then Ok(Node(Map([(Node(Str("type"), NoLoc), n)]), NoLoc))
    else Ok(n)
  }

  /** Normalizing twice is normalizing once. */
  lemma NormalizeIdempotent(n: Node)
    requires Normalize(n).Ok?
    ensures Normalize(Normalize(n).value) == Normalize(n)
  {
  }

  /** The short form, once normalized, has exactly the required attributes. */
  lemma ShortFormIsEntity(s: string, loc: Loc)
    ensures CheckEntity(CapabilitySchema, Normalize(Node(Str(s), loc)).value).Ok?
    ensures Names(Normalize(Node(Str(s), loc)).value.value.entries) == ["type"]
    ensures Bare(Normalize(Node(Str(s), loc)).value) == DMap([(DStr("type"), DStr(s))])
  {
    var n := Normalize(Node(Str(s), loc)).value;
    assert Names(n.value.entries) == ["type"];
    var es := n.value.entries;
    assert es == [(Node(Str("type"), NoLoc), Node(Str(s), loc))];
    assert Bare(es[0].0) == DStr("type") && Bare(es[0].1) == DStr(s);
    assert BareShape(n.value).entries[0] == (Bare(es[0].0), Bare(es[0].1));
    assert BareShape(n.value).entries == [(DStr("type"), DStr(s))];
    assert "type" in Declared(CapabilitySchema) by {
      assert Declared(CapabilitySchema)[0] == "type";
    }
  }

  /** The table declares exactly these six attributes, and only `type` is required. */
  lemma SchemaShape()
    ensures Declared(CapabilitySchema)
         == ["type", "description", "properties", "attributes", "valid_source_types", "occurrences"]
    ensures CapabilitySchema.required == {"type"}
  {
  }
}
