# TOSCA policy definitions of the xOpera TOSCA parser, in Dafny

This project models the part of the xOpera TOSCA parser that turns a parsed
TOSCA v1.3 policy definition into its template, and proves what that
template is. A policy template has:

- the policy's name, type chain and properties;
- its **targets**: the node templates that the policy's target names designate;
- its **triggers**: the trigger definitions inherited from the policy type,
  merged with the policy's own. Each trigger has its target filter resolved
  and its `call_operation` activities resolved to interface operations of the
  candidate nodes.

The model also covers the policy's `concat` and `get_property` functions.
Beside the policy definition it models three other definitions:

- the capability definition, with its attribute table and its short form;
- the attribute definition, with its attribute table, `get_value` and `get_value_type`;
- the TOSCA 2.0 operation definition's normalization and parsing, as its unit tests state them.

Layout:

- `options.dfy`, `errors.dfy`: Option, the error model and Result.
  - `abort(message, loc)` becomes a `ParseError` with a location.
  - Python crashes and the `RuntimeError`s of `get_property` become a `RuntimeError`.
  - The generic folds `Collect` and `CollectEntries` stop at the first failure.
- `ordered_maps.dfy`: Python dicts as sequences of pairs.
  - Assigning to an existing key keeps its position; a new key goes last.
  - `update` is a fold of assignments; `pop` removes the key.
- `yaml.dfy`: located YAML nodes, their location-free form (`bare`), Python truthiness and `type()` names.
- `schema.dfy`: attribute tables (`ATTRS`, `REQUIRED`) and the structural check a mapping passes to be an entity.
- `template.dfy`, `definitions.dfy`: the template objects and the parsed definitions the policy algorithm reads.
  - The service AST and value evaluation are collaborators, passed in as functions.
- `policy_rules.dfy` (module `PolicyRules`): each step of the policy algorithm as a function over ordered dicts, with lemmas that say what each result means.
- `policy_definition.dfy` (module `PolicyDefinitions`): the class `PolicyDefinition` with the algorithm's loops as methods.
  - Each method is proved to compute the corresponding `PolicyRules` function.
  - `GetTemplate` updates the collected properties that `get_property` later reads.
- `capability_definition.dfy`, `attribute_definition.dfy`, `operation_definition.dfy`: the other three definitions.

Notes on what the code does, where a reader might expect otherwise:

- An action is the LAST matching operation found over all candidate nodes and interfaces. The `break` leaves only the innermost loop, and the duplicate-action check is commented out.
- A policy with its own targets uses only those. It ignores the type's targets, because the merge code is commented out.
- A trigger's target filter must name one of the policy's targets only when the policy has targets.

## Model

| member | source | states |
|---|---|---|
| PolicyDefinitions.SchemaShape | src/opera_tosca_parser/parser/tosca/v_1_3/definitions/policy_definition.py:19-27 | the policy table declares exactly type, description, metadata, properties, targets and triggers, and only type is required |
| PolicyDefinitions.PolicyDefinition.constructor | src/opera_tosca_parser/parser/tosca/v_1_3/definitions/policy_definition.py:18-27 | a parsed policy keeps its attributes as given, and no properties are collected yet |
| PolicyDefinitions.PolicyDefinition.CollectTargets | src/opera_tosca_parser/parser/tosca/v_1_3/definitions/policy_definition.py:62-86 | a policy type that does not resolve aborts target collection with the resolution error |
| PolicyDefinitions.PolicyDefinition.CollectTargetsOutcome | src/opera_tosca_parser/parser/tosca/v_1_3/definitions/policy_definition.py:68-86 | collecting targets succeeds exactly when every chosen target resolves; the result keeps the chosen names in order, each with what its own reference resolves to; otherwise the error is a failing target's |
| PolicyDefinitions.PolicyDefinition.TargetNames | src/opera_tosca_parser/parser/tosca/v_1_3/definitions/policy_definition.py:53-86 | the collected target names are the distinct names of the template's targets when it lists any, else of the type's, and each maps to what a reference of that name resolves to |
| PolicyDefinitions.PolicyDefinition.ResolveTargets | src/opera_tosca_parser/parser/tosca/v_1_3/definitions/policy_definition.py:89-104 | the nested loops assign exactly the matches of each target name, giving ResolvedTargets of the names |
| PolicyDefinitions.PolicyDefinition.CollectTriggerTargetNodes | src/opera_tosca_parser/parser/tosca/v_1_3/definitions/policy_definition.py:165-192 | the three-branch loop computes the trigger candidates: the first node the filter names, else every node some target names, else all nodes |
| PolicyDefinitions.PolicyDefinition.ResolveEventFilter | src/opera_tosca_parser/parser/tosca/v_1_3/definitions/policy_definition.py:249-264 | the breaking scan returns the first node whose name or most derived type is the filter's name, and nothing without a filter |
| PolicyDefinitions.PolicyDefinition.ScanOperations | src/opera_tosca_parser/parser/tosca/v_1_3/definitions/policy_definition.py:133-146 | the operations loop stops at the first operation whose interface.operation spelling is the requested name |
| PolicyDefinitions.PolicyDefinition.ScanInterfaces | src/opera_tosca_parser/parser/tosca/v_1_3/definitions/policy_definition.py:131-146 | after one node's interfaces the count and the recorded action account for every find so far; inputs that are not a mapping crash only when an operation is found |
| PolicyDefinitions.PolicyDefinition.CollectTriggerActionFromInterfaces | src/opera_tosca_parser/parser/tosca/v_1_3/definitions/policy_definition.py:117-162 | the triple loop yields ActionFor: the last find with its evaluated inputs, the abort when nothing is found, the crash for non-mapping inputs |
| PolicyDefinitions.PolicyDefinition.ParseActivity | src/opera_tosca_parser/parser/tosca/v_1_3/definitions/policy_definition.py:209-235 | reading one activity agrees with ActivityCall in every branch: empty, unsupported kind, short and extended notation, invalid type, missing name |
| PolicyDefinitions.PolicyDefinition.CollectTriggerActions | src/opera_tosca_parser/parser/tosca/v_1_3/definitions/policy_definition.py:195-246 | the activity loop computes Actions: one action per activity, in order, stopping at the first failure |
| PolicyDefinitions.PolicyDefinition.CollectTrigger | src/opera_tosca_parser/parser/tosca/v_1_3/definitions/policy_definition.py:290-318 | one loop iteration of collect_triggers builds exactly TriggerFor of the trigger's name and definition |
| PolicyDefinitions.PolicyDefinition.MergeTriggerDefinitions | src/opera_tosca_parser/parser/tosca/v_1_3/definitions/policy_definition.py:281-286 | popping the duplicates and updating with the assignments gives MergedTriggers |
| PolicyDefinitions.PolicyDefinition.CollectTriggers | src/opera_tosca_parser/parser/tosca/v_1_3/definitions/policy_definition.py:267-320 | the whole trigger collection agrees with CollectedTriggers: a failed type resolution, or the first failing trigger, aborts it |
| PolicyDefinitions.PolicyDefinition.TemplateOf | src/opera_tosca_parser/parser/tosca/v_1_3/definitions/policy_definition.py:29-50 | a template keeps the policy's name, types and properties; a type or target failure aborts it with that error |
| PolicyDefinitions.PolicyDefinition.TemplateTargets | src/opera_tosca_parser/parser/tosca/v_1_3/definitions/policy_definition.py:38-46 | once targets are collected, the template's targets are a dict holding exactly the nodes whose name or most derived type is a target name |
| PolicyDefinitions.PolicyDefinition.TemplateTriggers | src/opera_tosca_parser/parser/tosca/v_1_3/definitions/policy_definition.py:38-47 | once targets and triggers are collected the template is built with those triggers; their names are the union of the inherited and the assigned ones, and an assigned trigger is built from the template's definition alone |
| PolicyDefinitions.PolicyDefinition.GetTemplate | src/opera_tosca_parser/parser/tosca/v_1_3/definitions/policy_definition.py:29-50 | building the template returns TemplateOf; it records the properties once the targets are collected, and leaves them unchanged when that fails |
| PolicyDefinitions.PolicyDefinition.Concat | src/opera_tosca_parser/parser/tosca/v_1_3/definitions/policy_definition.py:322-323 | concat of no parameters is the empty string, and of one parameter is that parameter rendered |
| PolicyDefinitions.PolicyDefinition.ConcatPrefixes | src/opera_tosca_parser/parser/tosca/v_1_3/definitions/policy_definition.py:322-323 | each parameter's rendering follows the renderings of all parameters before it in the result |
| PolicyDefinitions.PolicyDefinition.ConcatAppend | src/opera_tosca_parser/parser/tosca/v_1_3/definitions/policy_definition.py:322-323 | concat of joined parameter lists is the join of their concats |
| PolicyDefinitions.PolicyDefinition.ConcatPieces | src/opera_tosca_parser/parser/tosca/v_1_3/definitions/policy_definition.py:322-323 | concat starts with the rendering of its first parameter and continues with the concat of the rest |
| PolicyDefinitions.PolicyDefinition.GetProperty | src/opera_tosca_parser/parser/tosca/v_1_3/definitions/policy_definition.py:325-334 | get_property fails with fewer than two parameters or a host other than SELF; it succeeds exactly for a collected property name and then evaluates that property; otherwise it reports the unknown property with the known names |
| PolicyDefinitions.PolicyDefinition.GetPropertyIgnoresRest | src/opera_tosca_parser/parser/tosca/v_1_3/definitions/policy_definition.py:326 | parameters after the host and the property do not change the result |
| PolicyDefinitions.PolicyDefinition.SelfPropertyLookup | src/opera_tosca_parser/parser/tosca/v_1_3/definitions/policy_definition.py:331-332 | a collected property looked up on SELF evaluates its stored value |
| PolicyRules.Dedup | src/opera_tosca_parser/parser/tosca/v_1_3/definitions/policy_definition.py:59 | the distinct names: the same members, no repeats, empty only for empty input |
| PolicyRules.DedupOrder | src/opera_tosca_parser/parser/tosca/v_1_3/definitions/policy_definition.py:59 | the distinct names come in the order of their first occurrence, as the keys of a dict built from the list do |
| PolicyRules.ByName | src/opera_tosca_parser/parser/tosca/v_1_3/definitions/policy_definition.py:59 | the dict built from references has the distinct names as keys and maps each name to a reference of that name |
| PolicyRules.ByNameLast | src/opera_tosca_parser/parser/tosca/v_1_3/definitions/policy_definition.py:59 | each name holds the last reference of the list that carries it: no later reference has that name |
| PolicyRules.ChosenIsOwn | src/opera_tosca_parser/parser/tosca/v_1_3/definitions/policy_definition.py:84 | each chosen target is resolved through its own reference, whether the template's or the type's targets were chosen |
| PolicyRules.ResolveEach | src/opera_tosca_parser/parser/tosca/v_1_3/definitions/policy_definition.py:83-86 | resolving every chosen target succeeds exactly when each resolves, keeps their names and order, and otherwise reports one failing target's error |
| PolicyRules.MatchingNodesExact | src/opera_tosca_parser/parser/tosca/v_1_3/definitions/policy_definition.py:99-103 | the nodes one target name matches are exactly the nodes with that name or most derived type |
| PolicyRules.AssignMatchesIsPutAll | src/opera_tosca_parser/parser/tosca/v_1_3/definitions/policy_definition.py:99-103 | assigning the matching nodes one by one is the same as updating with all of them |
| PolicyRules.ResolvedTargetsExact | src/opera_tosca_parser/parser/tosca/v_1_3/definitions/policy_definition.py:96-104 | the resolved targets are a dict holding exactly the nodes that some target name matches |
| PolicyRules.AncestorTypesNeverMatch | src/opera_tosca_parser/parser/tosca/v_1_3/definitions/policy_definition.py:100 | a node whose name and most derived type are not target names is never a target, whatever its ancestor types |
| PolicyRules.FirstMatch | src/opera_tosca_parser/parser/tosca/v_1_3/definitions/policy_definition.py:259-262 | no match exactly when no node matches the name; otherwise a matching node of the dict |
| PolicyRules.FirstMatchAt | src/opera_tosca_parser/parser/tosca/v_1_3/definitions/policy_definition.py:178-181 | the first match is the node at the lowest matching index |
| PolicyRules.NodesMatchingSomeExact | src/opera_tosca_parser/parser/tosca/v_1_3/definitions/policy_definition.py:184-187 | the candidates without a filter are exactly the nodes some policy target matches |
| PolicyRules.NodesMatchingSomeUnique | src/opera_tosca_parser/parser/tosca/v_1_3/definitions/policy_definition.py:184-187 | those candidates form a dict |
| PolicyRules.TriggerCandidatesCases | src/opera_tosca_parser/parser/tosca/v_1_3/definitions/policy_definition.py:175-192 | with a filter there is at most one candidate, the filtered node; without one the candidates are the target-matching nodes, or all nodes when there are no targets |
| PolicyRules.FirstOperationSpec | src/opera_tosca_parser/parser/tosca/v_1_3/definitions/policy_definition.py:133-146 | nothing is found exactly when no operation of the interface is designated; otherwise the lowest designated one is found |
| PolicyRules.FirstOperationAt | src/opera_tosca_parser/parser/tosca/v_1_3/definitions/policy_definition.py:133-146 | a designated operation with none designated before it is the one found |
| PolicyRules.InterfaceFindsEmpty | src/opera_tosca_parser/parser/tosca/v_1_3/definitions/policy_definition.py:131-146 | one node's interfaces yield no find exactly when none of them has a designated operation |
| PolicyRules.InterfaceFindsOffered | src/opera_tosca_parser/parser/tosca/v_1_3/definitions/policy_definition.py:131-146 | every find is a designated operation of one of the node's interfaces |
| PolicyRules.InterfaceFindsExact | src/opera_tosca_parser/parser/tosca/v_1_3/definitions/policy_definition.py:131-146 | both facts about one node's interfaces |
| PolicyRules.NodeFindsExact | src/opera_tosca_parser/parser/tosca/v_1_3/definitions/policy_definition.py:129-147 | the scan over all candidates finds nothing exactly when no candidate exposes the name, and every find is a designated operation some candidate offers |
| PolicyRules.ExtraInputs | src/opera_tosca_parser/parser/tosca/v_1_3/definitions/policy_definition.py:139-142 | the extra inputs have exactly the activity's input names, in order |
| PolicyRules.ActionForSpec | src/opera_tosca_parser/parser/tosca/v_1_3/definitions/policy_definition.py:117-162 | not found is exactly no candidate exposing the name; success is exactly a found name with mapping inputs, and gives the last find, an operation a candidate offers under that name, with the evaluated inputs; otherwise non-mapping inputs crash |
| PolicyRules.ActivityCallSpec | src/opera_tosca_parser/parser/tosca/v_1_3/definitions/policy_definition.py:209-235 | an empty activity crashes; a kind other than call_operation or a value that is neither string nor map aborts; a string is the name; a map gives its operation and inputs, and a missing or empty name aborts |
| PolicyRules.StepSpec | src/opera_tosca_parser/parser/tosca/v_1_3/definitions/policy_definition.py:208-245 | an action exists only for a well-formed activity and designates the operation it calls; reading errors propagate; every failure is an activity failure |
| PolicyRules.ActionsOutcome | src/opera_tosca_parser/parser/tosca/v_1_3/definitions/policy_definition.py:206-246 | actions succeed exactly when every activity does, one action per activity in order; otherwise the error is the first failing activity's |
| PolicyRules.ActionsDesignateCalls | src/opera_tosca_parser/parser/tosca/v_1_3/definitions/policy_definition.py:206-246 | on success the i-th action's interface.operation spells the name the i-th activity calls |
| PolicyRules.MergedTriggersLaw | src/opera_tosca_parser/parser/tosca/v_1_3/definitions/policy_definition.py:281-286 | the merged definitions are the inherited-only ones in order, then the template's; they form a dict; their names are the union; assigned names keep the template's definition and the others the inherited one |
| PolicyRules.TargetFilter | src/opera_tosca_parser/parser/tosca/v_1_3/definitions/policy_definition.py:292-300 | no filter gives none; a given filter without node aborts; otherwise the node reference resolves, or its error aborts |
| PolicyRules.FilterWithoutNodeAborts | src/opera_tosca_parser/parser/tosca/v_1_3/definitions/policy_definition.py:294-300 | a given filter naming no node aborts the trigger |
| PolicyRules.FilterOutsideTargetsAborts | src/opera_tosca_parser/parser/tosca/v_1_3/definitions/policy_definition.py:303-307 | a filter outside the policy's non-empty targets aborts the trigger |
| PolicyRules.NoTargetsAcceptsAnyFilter | src/opera_tosca_parser/parser/tosca/v_1_3/definitions/policy_definition.py:303-310 | without policy targets a resolved filter never aborts; the trigger fails only on an activity |
| PolicyRules.TriggerFilterAgreesWithCandidates | src/opera_tosca_parser/parser/tosca/v_1_3/definitions/policy_definition.py:290-318 | a built trigger keeps its name, event and condition, records the node its filter designates, was checked against the targets, and looked its actions up on that node alone |
| PolicyRules.TriggersForExact | src/opera_tosca_parser/parser/tosca/v_1_3/definitions/policy_definition.py:289-320 | the triggers succeed exactly when every merged definition builds; they keep the definitions' names and order, each built from its own definition |
| PolicyRules.TriggersMergeLaw | src/opera_tosca_parser/parser/tosca/v_1_3/definitions/policy_definition.py:277-320 | the built triggers are named by the union of inherited and assigned names, and each assigned name holds the trigger built from the template's definition |
| OrderedMaps.PutSpec | src/opera_tosca_parser/parser/tosca/v_1_3/definitions/policy_definition.py:103 | `d[k] = v` overwrites an existing key in its place or appends a new key last, stores the pair, leaves every other entry in its place with its value, adds no other pair, and keeps keys unique |
| OrderedMaps.PutGet | src/opera_tosca_parser/parser/tosca/v_1_3/definitions/policy_definition.py:318 | after `d[k] = v` looking up k gives v, and every other key gives what it gave before |
| OrderedMaps.PutAllSnoc | src/opera_tosca_parser/parser/tosca/v_1_3/definitions/policy_definition.py:286 | updating with one more entry is one more assignment |
| OrderedMaps.WithoutPairs | src/opera_tosca_parser/parser/tosca/v_1_3/definitions/policy_definition.py:283-284 | popping keys keeps exactly the entries with other keys |
| OrderedMaps.WithoutKeys | src/opera_tosca_parser/parser/tosca/v_1_3/definitions/policy_definition.py:283-284 | popping keys leaves exactly the other keys |
| OrderedMaps.WithoutUnique | src/opera_tosca_parser/parser/tosca/v_1_3/definitions/policy_definition.py:283-284 | popping keys keeps a dict a dict |
| OrderedMaps.WithoutNothing | src/opera_tosca_parser/parser/tosca/v_1_3/definitions/policy_definition.py:282 | popping no key changes nothing |
| OrderedMaps.WithoutWithout | src/opera_tosca_parser/parser/tosca/v_1_3/definitions/policy_definition.py:283-284 | popping two sets of keys in turn is popping their union |
| OrderedMaps.PutAllFresh | src/opera_tosca_parser/parser/tosca/v_1_3/definitions/policy_definition.py:286 | updating with entries of new keys appends them in order |
| OrderedMaps.PutAllFromDict | src/opera_tosca_parser/parser/tosca/v_1_3/definitions/policy_definition.py:187 | updating with entries of one dict keeps exactly the entries of both |
| OrderedMaps.PutIntoSubDict | src/opera_tosca_parser/parser/tosca/v_1_3/definitions/policy_definition.py:187 | one assignment from a dict adds only that entry and loses none |
| OrderedMaps.GetUnique | src/opera_tosca_parser/parser/tosca/v_1_3/definitions/policy_definition.py:331-332 | in a dict, the value stored with a key is what looking it up returns |
| OrderedMaps.KeysUniqueConcat | src/opera_tosca_parser/parser/tosca/v_1_3/definitions/policy_definition.py:286 | joining dicts with disjoint keys gives a dict |
| OrderedMaps.KeysConcat | src/opera_tosca_parser/parser/tosca/v_1_3/definitions/policy_definition.py:286 | the keys of joined dicts are the joined keys |
| OrderedMaps.GetConcat | src/opera_tosca_parser/parser/tosca/v_1_3/definitions/policy_definition.py:286 | a lookup in joined dicts finds the later one's value first |
| OrderedMaps.GetWithout | src/opera_tosca_parser/parser/tosca/v_1_3/definitions/policy_definition.py:283-284 | popping leaves the lookups of other keys unchanged |
| OrderedMaps.PopThenUpdate | src/opera_tosca_parser/parser/tosca/v_1_3/definitions/policy_definition.py:281-286 | after popping the duplicates, the update appends the assignments and keeps keys unique |
| OrderedMaps.PutAgain | src/opera_tosca_parser/parser/tosca/v_1_3/definitions/policy_definition.py:318 | assigning a new key appends it, and assigning it again with the same value changes nothing |
| Errors.CollectOk | src/opera_tosca_parser/parser/tosca/v_1_3/definitions/policy_definition.py:208-246 | a fold over items succeeds exactly when every item does |
| Errors.CollectValues | src/opera_tosca_parser/parser/tosca/v_1_3/definitions/policy_definition.py:208-246 | a successful fold gives one value per item, in order |
| Errors.CollectFirstError | src/opera_tosca_parser/parser/tosca/v_1_3/definitions/policy_definition.py:208-246 | a failed fold reports the error of a failing item, every item before it succeeding |
| Errors.CollectStopsAt | src/opera_tosca_parser/parser/tosca/v_1_3/definitions/policy_definition.py:210-214 | the first failing item decides the fold's error |
| Errors.CollectEntriesOk | src/opera_tosca_parser/parser/tosca/v_1_3/definitions/policy_definition.py:290-318 | a keyed fold succeeds exactly when every entry does |
| Errors.CollectEntriesValues | src/opera_tosca_parser/parser/tosca/v_1_3/definitions/policy_definition.py:290-318 | a successful keyed fold assigns one result per key, in the dict's order |
| Errors.CollectEntriesExact | src/opera_tosca_parser/parser/tosca/v_1_3/definitions/policy_definition.py:290-318 | both facts about a keyed fold |
| Errors.CollectEntriesStopsAt | src/opera_tosca_parser/parser/tosca/v_1_3/definitions/policy_definition.py:290-318 | the first failing entry decides the keyed fold's error |
| CapabilityDefinition.SchemaShape | src/opera_tosca_parser/parser/tosca/v_1_3/capability_definition.py:14-22 | the table declares exactly type, description, properties, attributes, valid_source_types and occurrences, and only type is required |
| CapabilityDefinition.Normalize | src/opera_tosca_parser/parser/tosca/v_1_3/capability_definition.py:24-35 | normalization fails exactly for shapes other than string and map, at the node's location; a map is kept; a string s becomes the one-entry map from type to s |
| CapabilityDefinition.NormalizeIdempotent | src/opera_tosca_parser/parser/tosca/v_1_3/capability_definition.py:24-35 | normalizing a normalized node changes nothing |
| CapabilityDefinition.ShortFormIsEntity | src/opera_tosca_parser/parser/tosca/v_1_3/capability_definition.py:22-35 | the normalized short form passes the entity check with exactly the required attribute, and its bare form is {type: s} |
| AttributeDefinition.SchemaShape | src/opera_tosca_parser/parser/tosca/v_1_3/attribute_definition.py:13-21 | the table declares exactly type, description, default, status, key_schema and entry_schema, and only type is required |
| AttributeDefinition.GetValue | src/opera_tosca_parser/parser/tosca/v_1_3/attribute_definition.py:23-31 | with a default, the value is the default's value for the type; without one, a value of the type with no payload, not present |
| AttributeDefinition.GetValueType | src/opera_tosca_parser/parser/tosca/v_1_3/attribute_definition.py:33-40 | the value type is always unknown |
| OperationDefinition.Normalize | tests/unit/opera_tosca_parser/parser/tosca/v_2_0/definitions/test_operation_definition.py:9-23 | normalization fails with a parse error exactly for shapes other than string and map; a map is kept as it is; a string s becomes the one-entry map from implementation to s |
| OperationDefinition.InvalidShapesRejected | tests/unit/opera_tosca_parser/parser/tosca/v_2_0/definitions/test_operation_definition.py:9-12 | integers, floats, booleans, tuples and lists are rejected |
| OperationDefinition.StringNormalization | tests/unit/opera_tosca_parser/parser/tosca/v_2_0/definitions/test_operation_definition.py:14-17 | the bare form of a normalized string is {implementation: s} |
| OperationDefinition.Parse | tests/unit/opera_tosca_parser/parser/tosca/v_2_0/definitions/test_operation_definition.py:25-42 | only a string or a mapping can parse |
| OperationDefinition.MinimalParses | tests/unit/opera_tosca_parser/parser/tosca/v_2_0/definitions/test_operation_definition.py:41-42 | an empty mapping parses, since nothing is required |
| OperationDefinition.FullParses | tests/unit/opera_tosca_parser/parser/tosca/v_2_0/definitions/test_operation_definition.py:27-39 | a mapping with description, implementation, inputs and outputs parses, keeping that order |
| Yaml.Bare | tests/unit/opera_tosca_parser/parser/tosca/v_2_0/definitions/test_operation_definition.py:17 | stripping locations keeps whether a node is a string or a mapping, and a mapping's size |
| Yaml.Lookup | src/opera_tosca_parser/parser/tosca/v_1_3/definitions/policy_definition.py:226-227 | a lookup finds a stored value of the key, or reports that no entry has the key |
| Schema.CheckEntity | src/opera_tosca_parser/parser/tosca/v_1_3/capability_definition.py:13-22 | a node is an entity exactly when it is a mapping with string keys, all required names and only declared names; the attributes come back in document order; failures are parse errors |
| Schema.FirstUndeclared | src/opera_tosca_parser/parser/tosca/v_1_3/capability_definition.py:14-21 | the reported name is given but undeclared; none is reported only when all names are declared |

## Left out

- The YAML loader, file I/O and the command line (src/opera_tosca_parser/commands/parse.py) are not part of this model.
- `collect_types` and `collect_properties` of the collector mixin come from code that is not part of this model. They are modelled as calls that never fail: `GetTemplate` takes their results as plain values, so any abort they raise, and the point in `get_template` where it would surface, is not modelled.
- `Value.eval` and `str()` on evaluated values are abstract functions supplied in an `Evaluator`, and they never fail: an extra input or a `concat` parameter whose evaluation would raise cannot make the model fail. A Python `str` renders as itself.
- value.py is not part of this model. The second argument of `Value(...)` is read as "a value is present".
- Reference resolution is a function of the service AST (`ServiceAst.resolve`, `ServiceAst.resolveType`) that may fail with any error.
- `ServiceAst.triggerDefinitions`: the policy type's `collect_definitions("triggers", ...)` is modelled as a call that never fails, returning the inherited definitions directly; any abort it raises is not modelled.
- `Entity.parse` is not part of this model. `Schema.CheckEntity` models only its structure: a mapping, string keys, required names present, only declared names. Descriptor parsing of each attribute is left out.
- The TOSCA 2.0 `operation_definition.py` is not part of this model. `OperationDefinition` is modelled from what its unit tests assert, with a table of description, implementation, inputs and outputs and nothing required.
- Error messages are reduced to structured reasons. The exact text of each abort and of each Python exception is not modelled.
- `ParseActivity`: an activity without entries is an `IndexError` in the source; here it is the error `EmptyActivity`.
- `ScanInterfaces`: non-mapping inputs are an `AttributeError` in the source; here they are the error `InputsNotMap`.
- `GetProperty`: a property name that is not a string yields `UnknownProperty`, including names Python could not hash. Calling it before any template is built yields `PropertiesNotCollected`.
- Nodes synthesized by normalization carry no location (`NoLoc`).
- TargetFilter: a given `target_filter` is treated as truthy whatever attributes it has, because it is a parsed object and the classes it is built from are not part of this model; if they defined emptiness, an empty filter would count as absent rather than abort with "Cannot obtain node from target_filter.".
- The source's commented-out code (duplicate-action abort, target merge) is not modelled, because it does not run.
- Triggers: `CollectTrigger` and `MergeTriggerDefinitions` are the loop body and the merge of `collect_triggers`, split into methods of their own. Each keeps the source's steps.
- Actions: `ScanOperations`, `ScanInterfaces` and `ParseActivity` are the inner loops and the activity parsing of the action code, split out the same way.
- Node, operation, policy and trigger template classes are modelled only by the fields the policy algorithm reads and writes.
