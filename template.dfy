/**
 * The objects template building produces: values, node templates with their
 * interfaces and operations, trigger actions, triggers and policies. The
 * node, operation and policy template classes are not part of this model
 * beyond the fields the policy algorithm reads and writes.
 */
module Template {
  import opened Options
  import opened Yaml
  import opened OrderedMaps

  /**
   * A value awaiting evaluation: its type (if known), whether a value is
   * present at all, and the raw payload.
   */
  datatype Value = Value(typ: Option<string>, present: bool, data: Option<Data>)

  /** An interface operation of a node template (opaque here). */
  datatype Operation = Operation(implementation: Option<string>)

  datatype Interface = Interface(operations: OMap<string, Operation>)

  /**
   * A node template: its type chain, most derived type first, and its
   * interfaces. Every node has at least one type, which `types[0]` relies on.
   */
  datatype NodeTemplate = NodeTemplate(types: seq<string>, interfaces: OMap<string, Interface>)

  type Node = n: NodeTemplate | n.types != [] witness NodeTemplate(["tosca.nodes.Root"], [])

  /** A resolved trigger action: which interface operation to call, with extra inputs. */
  datatype Action = Action(interfaceName: string, operationName: string, operation: Operation, inputs: OMap<Data, Value>)

  datatype Trigger = Trigger(
    name: string,
    event: Option<Data>,
    targetFilter: Option<(string, Node)>,
    condition: Option<Data>,
    action: seq<Action>)

  datatype Policy = Policy(
    name: string,
    types: seq<string>,
    properties: OMap<string, Value>,
    targets: OMap<string, Node>,
    triggers: OMap<string, Trigger>)
}
