/**
 * Operation definitions (TOSCA 2.0), modelled from what the unit tests
 * assert: a bare string is the implementation, a mapping is kept as it is,
 * every other shape is a parse error, and no attribute is required.
 */
module OperationDefinition {
  import opened Yaml
  import opened Errors
  import opened OrderedMaps
  import opened Schema

  const OperationSchema: Schema := Schema(
    [ ("description", StringType),
      ("implementation", Unspecified),
      ("inputs", Unspecified),
      ("outputs", Unspecified) ],
    {})

  /** Short form `s` becomes `{implementation: s}`; a mapping is kept; other shapes fail. */
  function Normalize(n: Node): (r: Result<Node>)
    ensures r.Err? <==> !(n.value.Str? || n.value.Map?)
    ensures r.Err? ==> r.error.ParseError?
    ensures n.value.Map? ==> r == Ok(n)
    ensures n.value.Str? ==>
              && r.Ok? && r.value.value.Map?
              && |r.value.value.entries| == 1
              && r.value.value.entries[0].0.value == Str("implementation")
              && r.value.value.entries[0].1 == n
  {
    if !(n.value.Str? || n.value.Map?) then Err(ParseError(ExpectedStringOrMap, n.loc))
    else if n.value.Str? then Ok(Node(Map([(Node(Str("implementation"), NoLoc), n)]), NoLoc))
    else Ok(n)
  }

  /** `OperationDefinition.parse`: normalize, then check against the table. */
  function Parse(n: Node): (r: Result<OMap<string, Node>>)
    ensures r.Ok? ==> (n.value.Str? || n.value.Map?)
  {
    var m :- Normalize(n);
    CheckEntity(OperationSchema, m)
  }

  /** Integers, floats, booleans, tuples and lists are rejected with a parse error. */
  lemma InvalidShapesRejected(loc: Loc, i: int, r: real, b: bool, xs: seq<Node>)
    ensures Normalize(Node(Int(i), loc)).Err? && Normalize(Node(Int(i), loc)).error.ParseError?
    ensures Normalize(Node(Float(r), loc)).Err?
    ensures Normalize(Node(Bool(b), loc)).Err?
    ensures Normalize(Node(Tuple(xs), loc)).Err?
    ensures Normalize(Node(List(xs), loc)).Err?
  {
  }

  /** The bare form of a normalized string is `{"implementation": s}`. */
  lemma StringNormalization(s: string, loc: Loc)
    ensures Bare(Normalize(Node(Str(s), loc)).value) == DMap([(DStr("implementation"), DStr(s))])
  {
    var n := Normalize(Node(Str(s), loc)).value;
    var es := n.value.entries;
    assert es == [(Node(Str("implementation"), NoLoc), Node(Str(s), loc))];
    assert Bare(es[0].0) == DStr("implementation") && Bare(es[0].1) == DStr(s);
    assert BareShape(n.value).entries[0] == (Bare(es[0].0), Bare(es[0].1));
    assert BareShape(n.value).entries == [(DStr("implementation"), DStr(s))];
  }

  /** An empty mapping parses: nothing is required. */
  lemma MinimalParses(loc: Loc)
    ensures Parse(Node(Map([]), loc)) == Ok([])
  {
    assert Names([]) == [];
  }

  /** A mapping with description, implementation, inputs and outputs parses, in document order. */
  lemma FullParses(loc: Loc, description: Node, implementation: Node, inputs: Node, outputs: Node, at: Loc)
    ensures
      var n := Node(Map([ (Node(Str("description"), at), description),
                          (Node(Str("implementation"), at), implementation),
                          (Node(Str("inputs"), at), inputs),
                          (Node(Str("outputs"), at), outputs) ]), loc);
      Parse(n).Ok? && Keys(Parse(n).value) == ["description", "implementation", "inputs", "outputs"]
  {
    var es := [ (Node(Str("description"), at), description),
                (Node(Str("implementation"), at), implementation),
                (Node(Str("inputs"), at), inputs),
                (Node(Str("outputs"), at), outputs) ];
    var names := Names(es);
    assert names == ["description", "implementation", "inputs", "outputs"];
    assert Declared(OperationSchema) == names;
  }
}
