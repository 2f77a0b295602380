/**
 * The schema-driven entity framework: a construct is described by a table
 * of attribute names with their descriptors (`ATTRS`) and a set of names that
 * must be present (`REQUIRED`). `CheckEntity` is the structural part of
 * parsing a normalized node against such a schema.
 */
module Schema {
  import opened Options
  import opened Yaml
  import opened Errors
  import opened OrderedMaps

  /** The descriptor kinds the modelled constructs name in their tables. */
  datatype Descriptor =
    | StringType
    | Void
    | Range
    | Status
    | Reference(section: string)
    | DataTypeReference(section: string)
    | ReferenceXor(paths: seq<seq<string>>)
    | MapOf(entry: Descriptor)
    | ListOf(entry: Descriptor)
    | Construct(name: string)
    | Unspecified

  datatype Schema = Schema(attrs: OMap<string, Descriptor>, required: set<string>)

  /** The attribute names of a schema, in declaration order. */
  function Declared(s: Schema): seq<string> {
    Keys(s.attrs)
  }

  /** All keys of a mapping are plain strings (attribute names). */
  predicate StringKeys(es: seq<(Node, Node)>) {
    forall i :: 0 <= i < |es| ==> es[i].0.value.Str?
  }

  function Names(es: seq<(Node, Node)>): (ns: seq<string>)
    requires StringKeys(es)
    ensures |ns| == |es| && forall i :: 0 <= i < |es| ==> ns[i] == es[i].0.value.s
  {
    seq(|es|, i requires 0 <= i < |es| => es[i].0.value.s)
  }

  /** The first name of `ns` the schema does not declare, if any. */
  function FirstUndeclared(s: Schema, ns: seq<string>): (r: Option<string>)
    ensures r.Some? ==> r.value in ns && r.value !in Declared(s)
    ensures r.None? ==> forall n :: n in ns ==> n in Declared(s)
  {
    if ns == [] then None
    else if ns[0] !in Declared(s) then Some(ns[0])
    else FirstUndeclared(s, ns[1..])
  }

  /**
   * A node is an entity of schema `s` when it is a mapping from attribute
   * names to nodes, every required name is present and every name is declared.
   * The attribute map is returned in document order.
   */
  function CheckEntity(s: Schema, n: Node): (r: Result<OMap<string, Node>>)
    ensures r.Ok? <==>
      && n.value.Map?
      && StringKeys(n.value.entries)
      && (forall name :: name in s.required ==> name in Names(n.value.entries))
      && (forall name :: name in Names(n.value.entries) ==> name in Declared(s))
    ensures r.Ok? ==> Keys(r.value) == Names(n.value.entries)
    ensures r.Ok? ==> forall i :: 0 <= i < |r.value| ==> r.value[i].1 == n.value.entries[i].1
    ensures r.Err? ==> r.error.ParseError?
  {
    if !n.value.Map? then Err(ParseError(ExpectedMap, n.loc))
    else
      var es := n.value.entries;
      if !StringKeys(es) then Err(ParseError(InvalidAttributeName, n.loc))
      else
        var names := Names(es);
        var missing := set name | name in s.required && name !in names;
        if missing != {} then
          assert exists name :: name in missing;
          Err(ParseError(MissingRequired(missing), n.loc))
        else
          assert forall name :: name in s.required ==> name in names by {
            forall name | name in s.required ensures name in names {
              assert name !in missing;
            }
          }
          match FirstUndeclared(s, names)
          case Some(name) => Err(ParseError(UnknownAttribute(name), n.loc))
          case None => Ok(seq(|es|, i requires 0 <= i < |es| => (names[i], es[i].1)))
  }
}
