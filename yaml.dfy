/**
 * Documents as the YAML loader hands them over: every node carries the
 * location it was read from, and `Bare` strips locations to give the plain
 * data that parsed values (`.data`, `.bare`) expose.
 */
module Yaml {
  import opened Options
  import OrderedMaps

  /** A position in a source document; nodes made up during normalization have none. */
  datatype Loc = NoLoc | Loc(file: string, line: nat, column: nat)

  /** A located node of the parse tree. */
  datatype Node = Node(value: Shape, loc: Loc)

  /** The shapes a node value can take (Python str, int, float, bool, None, list, tuple, dict). */
  datatype Shape =
    | Str(s: string)
    | Int(i: int)
    | Float(r: real)
    | Bool(b: bool)
    | Null
    | List(items: seq<Node>)
    | Tuple(items: seq<Node>)
    | Map(entries: seq<(Node, Node)>)

  /** The same shapes without locations. */
  datatype Data =
    | DStr(s: string)
    | DInt(i: int)
    | DFloat(r: real)
    | DBool(b: bool)
    | DNone
    | DList(items: seq<Data>)
    | DTuple(items: seq<Data>)
    | DMap(entries: seq<(Data, Data)>)

  /** `node.bare`: the value with every location dropped. */
  function Bare(n: Node): (d: Data)
    ensures n.value.Str? <==> d.DStr?
    ensures n.value.Map? <==> d.DMap?
    ensures n.value.Map? ==> |d.entries| == |n.value.entries|
    decreases n, 1
  {
    BareShape(n.value)
  }

  function BareShape(v: Shape): Data
    decreases v, 0
  {
    match v
    case Str(s) => DStr(s)
    case Int(i) => DInt(i)
    case Float(r) => DFloat(r)
    case Bool(b) => DBool(b)
    case Null => DNone
    case List(xs) => DList(seq(|xs|, i requires 0 <= i < |xs| => Bare(xs[i])))
    case Tuple(xs) => DTuple(seq(|xs|, i requires 0 <= i < |xs| => Bare(xs[i])))
    case Map(es) => DMap(seq(|es|, i requires 0 <= i < |es| => (Bare(es[i].0), Bare(es[i].1))))
  }

  /** Python truthiness: empty strings, collections, zero and None are false. */
  predicate Truthy(d: Data) {
    match d
    case DStr(s) => s != ""
    case DInt(i) => i != 0
    case DFloat(r) => r != 0.0
    case DBool(b) => b
    case DNone => false
    case DList(xs) => xs != []
    case DTuple(xs) => xs != []
    case DMap(es) => es != []
  }

  /** The name Python's `type()` reports for a value of this shape. */
  function TypeName(d: Data): string {
    match d
    case DStr(_) => "str"
    case DInt(_) => "int"
    case DFloat(_) => "float"
    case DBool(_) => "bool"
    case DNone => "NoneType"
    case DList(_) => "list"
    case DTuple(_) => "tuple"
    case DMap(_) => "dict"
  }

  /** `d.get(key)` on a plain mapping. */
  function Lookup(entries: seq<(Data, Data)>, key: Data): (r: Option<Data>)
    ensures r.Some? ==> (key, r.value) in entries
    ensures r.None? ==> forall i :: 0 <= i < |entries| ==> entries[i].0 != key
  {
    OrderedMaps.Get(entries, key)
  }
}
