/**
 * The parsed definitions the policy algorithm consumes, and the collaborators
 * it calls but that are not part of this model: reference resolution against
 * the service AST, the inherited trigger definitions of a policy type, and
 * value evaluation. Each collaborator is a function supplied by the caller.
 */
module Definitions {
  import opened Options
  import opened Yaml
  import opened Errors
  import opened OrderedMaps
  import opened Template

  /**
   * A deferred reference: the name it carries (`.data`) and the candidate
   * container paths it may be found under (one for a plain reference, several
   * for an exclusive-or reference).
   */
  datatype Reference = Reference(data: string, paths: seq<seq<string>>)

  /** What a reference resolves to: the container path it was found in and its name. */
  datatype Entity = Entity(path: seq<string>, name: string)

  /** A policy type, as far as the policy algorithm reads it: its own `targets` list. */
  datatype PolicyType = PolicyType(name: string, targets: seq<Reference>)

  /** An activity of a trigger's `action` list: a mapping whose first key names its kind. */
  type Activity = OMap<string, Data>

  /**
   * A trigger's `target_filter`. A parsed filter is an object, so it is
   * truthy whenever it is given, whatever attributes it has.
   */
  datatype EventFilter = EventFilter(node: Option<Reference>, requirement: Option<Data>, capability: Option<Data>)

  datatype TriggerDefinition = TriggerDefinition(
    event: Option<Data>,
    targetFilter: Option<EventFilter>,
    condition: Option<Data>,
    action: seq<Activity>)

  /**
   * The service AST as the policy algorithm uses it: resolving the policy's
   * type reference, resolving a target or filter reference, and collecting the
   * trigger definitions a policy type has along its derivation chain.
   */
  datatype ServiceAst = ServiceAst(
    resolveType: Reference -> Result<PolicyType>,
    resolve: Reference -> Result<Entity>,
    triggerDefinitions: PolicyType -> OMap<string, TriggerDefinition>)

  /**
   * `Value.eval(context, name)` and Python's `str()` on what evaluation returns.
   */
  datatype Evaluator = Evaluator(eval: (Value, Data) -> Data, str: Data -> string)

  /** `str(d)`: a string is its own text; any other value is rendered by the evaluator. */
  function StrOf(ev: Evaluator, d: Data): string {
    if d.DStr? then d.s else ev.str(d)
  }
}
