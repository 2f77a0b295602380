/**
 * Policy definitions (TOSCA Simple Profile in YAML v1.3, section 3.6.20):
 * the attribute table and the object that turns a parsed policy into its
 * template. The methods of PolicyDefinition are imperative code, proved
 * equal to the rule functions of PolicyRules, whose meaning is proved there;
 * the lemmas here tie the whole template together.
 */
module PolicyDefinitions {
  import opened Options
  import Y = Yaml
  import opened Errors
  import opened OrderedMaps
  import S = Schema
  import opened Template
  import opened Definitions
  import opened PolicyRules

  const PolicySchema: S.Schema := S.Schema(
    [ ("type", S.Reference("policy_types")),
      ("description", S.StringType),
      ("metadata", S.MapOf(S.StringType)),
      ("properties", S.MapOf(S.Void)),
      ("targets", S.ListOf(S.ReferenceXor([["topology_template", "node_templates"], ["topology_template", "groups"]]))),
      ("triggers", S.MapOf(S.Construct("TriggerDefinition"))) ],
    {"type"})

  /** The table declares exactly these six attributes, and only `type` is required. */
  lemma SchemaShape()
    ensures S.Declared(PolicySchema) == ["type", "description", "metadata", "properties", "targets", "triggers"]
    ensures PolicySchema.required == {"type"}
  {
  }

  /**
   * A parsed policy: its attributes as parsing left them, and the properties
   * collected by the last template build, which property lookups read.
   */
  class PolicyDefinition {
    const typeRef: Reference
    const description: Option<string>
    const metadata: OMap<string, string>
    const properties: OMap<string, Y.Data>
    /** The `targets` list; empty when the attribute is absent. */
    const targets: seq<Reference>
    /** The `triggers` mapping; empty when the attribute is absent. */
    const triggers: OMap<string, TriggerDefinition>
    const loc: Y.Loc
    /** Set by `GetTemplate`; None until a template has been built. */
    var collectedProperties: Option<OMap<string, Value>>

    constructor(typeRef: Reference, description: Option<string>, metadata: OMap<string, string>,
                properties: OMap<string, Y.Data>, targets: seq<Reference>,
                triggers: OMap<string, TriggerDefinition>, loc: Y.Loc)
      ensures this.typeRef == typeRef && this.description == description && this.metadata == metadata
      ensures this.properties == properties && this.targets == targets && this.triggers == triggers
      ensures this.loc == loc
      ensures collectedProperties == None
    {
      this.typeRef := typeRef;
      this.description := description;
      this.metadata := metadata;
      this.properties := properties;
      this.targets := targets;
      this.triggers := triggers;
      this.loc := loc;
      collectedProperties := None;
    }

    // -------------------------------------------------------------------------
    // Targets
    // -------------------------------------------------------------------------

    /**
     * The targets `collect_targets` resolves: the template's own targets when
     * it lists any, the type's otherwise, one per distinct name.
     */
    function ChosenTargets(typ: PolicyType): OMap<string, Reference> {
      ByName(if targets != [] then targets else typ.targets)
    }

    /**
     * `collect_targets`: resolves the type, chooses the targets and resolves
     * each against the service AST, through the template's reference of that
     * name when there is one. A type or a reference that does not resolve aborts.
     */
    function CollectTargets(ast: ServiceAst): (r: Result<OMap<string, Entity>>)
      ensures ast.resolveType(typeRef).Err? ==> r == Err(ast.resolveType(typeRef).error)
    {
      var typ :- ast.resolveType(typeRef);
      var definitions := ByName(typ.targets);
      var assignments := ByName(targets);
      var chosen := if |assignments| > 0 then assignments else definitions;
      ResolveEach(chosen, assignments, ast.resolve)
    }

    /**
     * Every chosen target is resolved through its own reference: collecting
     * succeeds exactly when all of them resolve, keeps their names in order
     * with what each resolves to, and otherwise fails with a failing one's error.
     */
    lemma CollectTargetsOutcome(ast: ServiceAst)
      requires ast.resolveType(typeRef).Ok?
      ensures var chosen := ChosenTargets(ast.resolveType(typeRef).value);
        var r := CollectTargets(ast);
        && (r.Ok? <==> forall i :: 0 <= i < |chosen| ==> ast.resolve(chosen[i].1).Ok?)
        && (r.Ok? ==> Keys(r.value) == Keys(chosen)
                      && forall i :: 0 <= i < |chosen| ==> ast.resolve(chosen[i].1) == Ok(r.value[i].1))
        && (r.Err? ==> exists i :: 0 <= i < |chosen| && ast.resolve(chosen[i].1) == Err(r.error))
    {
      var typ := ast.resolveType(typeRef).value;
      var assignments := ByName(targets);
      var definitions := ByName(typ.targets);
      var chosen := if |assignments| > 0 then assignments else definitions;
      assert ChosenTargets(typ) == chosen by {
        assert |Keys(assignments)| == |assignments|;
        assert |assignments| > 0 <==> targets != [];
      }
      var r := ResolveEach(chosen, assignments, ast.resolve);
      assert CollectTargets(ast) == r;
      ChosenIsOwn(chosen, assignments);
      if r.Err? {
        var i :| 0 <= i < |chosen| && ast.resolve(Chosen(chosen[i], assignments)) == Err(r.error);
        assert ast.resolve(chosen[i].1) == Err(r.error);
      }
    }

    /** The names of the policy's targets: the template's when it lists any, else the type's. */
    lemma TargetNames(ast: ServiceAst)
      requires CollectTargets(ast).Ok?
      ensures ast.resolveType(typeRef).Ok?
      ensures var chosen := if targets != [] then targets else ast.resolveType(typeRef).value.targets;
        && Keys(CollectTargets(ast).value) == Dedup(RefNames(chosen))
        && forall p :: p in CollectTargets(ast).value ==>
             exists ref :: ref in chosen && ref.data == p.0 && ast.resolve(ref) == Ok(p.1)
    {
      CollectTargetsOutcome(ast);
      var chosen := if targets != [] then targets else ast.resolveType(typeRef).value.targets;
      var byName := ByName(chosen);
      var r := CollectTargets(ast).value;
      forall p | p in r ensures exists ref :: ref in chosen && ref.data == p.0 && ast.resolve(ref) == Ok(p.1) {
        var i :| 0 <= i < |r| && r[i] == p;
        assert Keys(r)[i] == Keys(byName)[i];
        assert byName[i] in byName;
        assert ast.resolve(byName[i].1) == Ok(p.1);
      }
    }

    /**
     * `resolve_targets`: for each target name, every node whose name or most
     * derived type it is, assigned under the node's name.
     */
    method ResolveTargets(policyTargets: OMap<string, Entity>, nodes: OMap<string, Node>)
      returns (resolved: OMap<string, Node>)
      ensures resolved == ResolvedTargets(Keys(policyTargets), nodes)
    {
      resolved := [];
      if policyTargets != [] {
        var names := Keys(policyTargets);
        var i := 0;
        while i < |policyTargets|
          invariant 0 <= i <= |policyTargets|
          invariant resolved == ResolvedTargets(names[..i], nodes)
        {
          var targetName := policyTargets[i].0;
          assert names[..i + 1][..i] == names[..i];
          ghost var before := resolved;
          var j := 0;
          while j < |nodes|
            invariant 0 <= j <= |nodes|
            invariant resolved == AssignMatches(before, targetName, nodes[..j])
          {
            var (nodeName, node) := nodes[j];
            assert nodes[..j + 1][..j] == nodes[..j];
            if nodeName == targetName || node.types[0] == targetName {
              resolved := Put(resolved, nodeName, node);
            }
            j := j + 1;
          }
          assert nodes[..j] == nodes;
          AssignMatchesIsPutAll(before, targetName, nodes);
          i := i + 1;
        }
        assert names[..i] == names;
      }
    }

    // -------------------------------------------------------------------------
    // Triggers
    // -------------------------------------------------------------------------

    /**
     * `collect_trigger_target_nodes`: with a filter, the first node it names;
     * else, with policy targets, every node some target matches; else every node.
     */
    method CollectTriggerTargetNodes(targetFilter: Option<(string, Entity)>, nodes: OMap<string, Node>,
                                     policyTargets: OMap<string, Entity>) returns (targeted: OMap<string, Node>)
      requires KeysUnique(nodes)
      ensures targeted == TriggerCandidates(FilterName(targetFilter), nodes, Keys(policyTargets))
    {
      targeted := [];
      if targetFilter.Some? {
        var name := targetFilter.value.0;
        var i := 0;
        while i < |nodes|
          invariant 0 <= i <= |nodes|
          invariant forall j :: 0 <= j < i ==> !Matches(name, nodes[j].0, nodes[j].1)
          invariant targeted == []
        {
          var (nodeName, node) := nodes[i];
          if nodeName == name || node.types[0] == name {
            FirstMatchAt(name, nodes, i);
            targeted := Put(targeted, nodeName, node);
            break;
          }
          i := i + 1;
        }
      } else if policyTargets != [] {
        var names := Keys(policyTargets);
        var i := 0;
        while i < |nodes|
          invariant 0 <= i <= |nodes|
          invariant targeted == NodesMatchingSome(names, nodes[..i])
        {
          var (nodeName, node) := nodes[i];
          assert nodes[..i + 1][..i] == nodes[..i];
          ghost var before := targeted;
          assert nodeName !in Keys(before) by {
            NodesMatchingSomeExact(names, nodes[..i]);
            forall q | 0 <= q < |before| ensures Keys(before)[q] != nodeName {
              assert before[q] in before;
              var r :| 0 <= r < i && nodes[..i][r] == before[q];
              assert nodes[r] == before[q];
            }
          }
          PutAgain(before, nodeName, node);
          ghost var hit := false;
          var j := 0;
          while j < |policyTargets|
            invariant 0 <= j <= |policyTargets|
            invariant hit <==> exists q :: 0 <= q < j && Matches(names[q], nodeName, node)
            invariant targeted == before + (if hit then [(nodeName, node)] else [])
          {
            var policyTargetName := policyTargets[j].0;
            if policyTargetName == nodeName || policyTargetName == node.types[0] {
              assert Matches(names[j], nodeName, node);
              ghost var prev := targeted;
              targeted := Put(targeted, nodeName, node);
              assert targeted == before + [(nodeName, node)] by {
                if hit {
                  assert prev == before + [(nodeName, node)];
                } else {
                  assert prev == before;
                }
              }
              hit := true;
            } else {
              assert !Matches(names[j], nodeName, node);
            }
            j := j + 1;
          }
          assert hit <==> MatchesSome(names, nodeName, node) by {
            if MatchesSome(names, nodeName, node) {
              var t :| t in names && Matches(t, nodeName, node);
              var q :| 0 <= q < |names| && names[q] == t;
            }
          }
          i := i + 1;
        }
        assert nodes[..i] == nodes;
      } else {
        targeted := nodes;
      }
    }

    /** `resolve_event_filter`: the first node the filter names, if any. */
    method ResolveEventFilter(targetFilter: Option<(string, Entity)>, nodes: OMap<string, Node>)
      returns (resolved: Option<(string, Node)>)
      ensures resolved == FilteredNode(FilterName(targetFilter), nodes)
    {
      resolved := None;
      if targetFilter.Some? {
        var name := targetFilter.value.0;
        var i := 0;
        while i < |nodes|
          invariant 0 <= i <= |nodes|
          invariant forall j :: 0 <= j < i ==> !Matches(name, nodes[j].0, nodes[j].1)
          invariant resolved == None
        {
          var (nodeName, node) := nodes[i];
          if nodeName == name || node.types[0] == name {
            FirstMatchAt(name, nodes, i);
            resolved := Some((nodeName, node));
            break;
          }
          i := i + 1;
        }
      }
    }

    /**
     * What the scan has recorded so far: nothing before the first hit, and
     * after a hit the action for the latest one (the inputs being a mapping).
     */
    ghost predicate Recorded(collected: Option<Action>, finds: seq<Found>, inputs: Y.Data, ev: Evaluator) {
      && (collected.None? <==> finds == [])
      && (finds != [] ==> inputs.DMap?)
      && (finds != [] && inputs.DMap? ==>
            var f := finds[|finds| - 1];
            collected == Some(Action(f.interfaceName, f.operationName, f.operation, ExtraInputs(inputs.entries, ev))))
    }

    /**
     * The operations loop of `collect_trigger_action_from_interfaces`: the
     * first operation of the interface the name designates, if any.
     */
    method ScanOperations(interfaceName: string, operations: OMap<string, Operation>, callOperationName: string)
      returns (here: Option<Found>)
      ensures here == FirstOperation(interfaceName, operations, callOperationName)
    {
      here := None;
      var k := 0;
      while k < |operations|
        invariant 0 <= k <= |operations|
        invariant forall q :: 0 <= q < k ==> !Designates(interfaceName, operations[q].0, callOperationName)
      {
        var (operationName, operation) := operations[k];
        if interfaceName + "." + operationName == callOperationName {
          FirstOperationAt(interfaceName, operations, callOperationName, k);
          here := Some(Found(interfaceName, operationName, operation));
          return;
        }
        k := k + 1;
      }
      FirstOperationSpec(interfaceName, operations, callOperationName);
    }

    /**
     * The interfaces loop of `collect_trigger_action_from_interfaces` for one
     * candidate node, continuing a scan that has recorded `before`: each hit
     * is counted and replaces the collected action, and a hit with inputs
     * that are not a mapping crashes.
     */
    method ScanInterfaces(interfaces: OMap<string, Interface>, callOperationName: string, inputs: Y.Data,
                          ev: Evaluator, collectedIn: Option<Action>, foundIn: nat, ghost before: seq<Found>)
      returns (r: Result<(Option<Action>, nat)>)
      requires foundIn == |before| && Recorded(collectedIn, before, inputs, ev)
      ensures r.Err? ==> InterfacesExpose(interfaces, callOperationName) && !inputs.DMap?
                         && r.error == RuntimeError(InputsNotMap(Y.TypeName(inputs)))
      ensures r.Ok? ==> var finds := before + InterfaceFinds(interfaces, callOperationName);
                        r.value.1 == |finds| && Recorded(r.value.0, finds, inputs, ev)
    {
      var collectedAction := collectedIn;
      var actionsFound := foundIn;
      ghost var finds := before;
      var j := 0;
      while j < |interfaces|
        invariant 0 <= j <= |interfaces|
        invariant finds == before + InterfaceFinds(interfaces[..j], callOperationName)
        invariant actionsFound == |finds|
        invariant Recorded(collectedAction, finds, inputs, ev)
      {
        var (interfaceName, interface) := interfaces[j];
        var operations := interface.operations;
        assert interfaces[..j + 1][..j] == interfaces[..j];
        var here := ScanOperations(interfaceName, operations, callOperationName);
        FirstOperationSpec(interfaceName, operations, callOperationName);
        if here.Some? {
          actionsFound := actionsFound + 1;
          if !inputs.DMap? {
            var k :| 0 <= k < |operations| && Designates(interfaceName, operations[k].0, callOperationName);
            assert Designates(interfaces[j].0, interfaces[j].1.operations[k].0, callOperationName);
            return Err(RuntimeError(InputsNotMap(Y.TypeName(inputs))));
          }
          var extraInputs := ExtraInputs(inputs.entries, ev);
          collectedAction := Some(Action(interfaceName, here.value.operationName, here.value.operation, extraInputs));
        }
        ghost var piece: seq<Found> := match here case Some(f) => [f] case None => [];
        assert InterfaceFinds(interfaces[..j + 1], callOperationName)
            == InterfaceFinds(interfaces[..j], callOperationName) + piece;
        assert finds + piece == before + InterfaceFinds(interfaces[..j + 1], callOperationName);
        finds := before + InterfaceFinds(interfaces[..j + 1], callOperationName);
        j := j + 1;
      }
      assert interfaces[..j] == interfaces;
      return Ok((collectedAction, actionsFound));
    }

    /**
     * `collect_trigger_action_from_interfaces`: scans every candidate node's
     * interfaces for the operation `interface.operation` names, leaving only
     * the operations loop at a hit, so the last hit wins; no hit aborts.
     * Inputs that are not a mapping crash at the first hit.
     */
    method CollectTriggerActionFromInterfaces(targetedNodes: OMap<string, Node>, callOperationName: string,
                                              inputs: Y.Data, ev: Evaluator) returns (r: Result<Action>)
      ensures r == ActionFor(targetedNodes, callOperationName, inputs, ev, loc)
    {
      var collectedAction: Option<Action> := None;
      var actionsFound := 0;
      ghost var finds: seq<Found> := [];
      var i := 0;
      while i < |targetedNodes|
        invariant 0 <= i <= |targetedNodes|
        invariant finds == NodeFinds(targetedNodes[..i], callOperationName)
        invariant actionsFound == |finds|
        invariant Recorded(collectedAction, finds, inputs, ev)
      {
        var (_, targetNode) := targetedNodes[i];
        assert targetedNodes[..i + 1][..i] == targetedNodes[..i];
        var scan := ScanInterfaces(targetNode.interfaces, callOperationName, inputs, ev, collectedAction, actionsFound, finds);
        if scan.Err? {
          assert InterfacesExpose(targetedNodes[i].1.interfaces, callOperationName);
          ActionForSpec(targetedNodes, callOperationName, inputs, ev, loc);
          return Err(scan.error);
        }
        collectedAction, actionsFound := scan.value.0, scan.value.1;
        finds := finds + InterfaceFinds(targetNode.interfaces, callOperationName);
        i := i + 1;
      }
      assert targetedNodes[..i] == targetedNodes;
      if actionsFound == 0 {
        return Err(ParseError(ActionNotFound(callOperationName), loc));
      }
      return Ok(collectedAction.value);
    }

    /**
     * Reads one activity of `collect_trigger_actions`: only `call_operation`
     * is supported, given as the bare operation name or as a mapping with
     * `operation` and `inputs`.
     */
    method ParseActivity(action: Activity, ev: Evaluator) returns (r: Result<Call>)
      ensures r == ActivityCall(action, ev, loc)
    {
      if |action| == 0 {
        return Err(RuntimeError(EmptyActivity));
      }
      if action[0].0 != "call_operation" {
        return Err(ParseError(UnsupportedActivity(action[0].0), loc));
      }
      assert Keys(action)[0] == "call_operation";
      var inputs := Y.DMap([]);
      var callOperation := Get(action, "call_operation").value;
      assert callOperation == action[0].1 by {
        assert IndexOf(action, "call_operation") == 0;
      }
      var callOperationName: Option<Y.Data> := None;
      match callOperation {
        case DStr(_) =>
          callOperationName := Some(callOperation);
        case DMap(es) =>
          callOperationName := Y.Lookup(es, Y.DStr("operation"));
          inputs := match Y.Lookup(es, Y.DStr("inputs")) case Some(d) => d case None => Y.DNone;
        case _ =>
          return Err(ParseError(InvalidCallOperation(Y.TypeName(callOperation)), loc));
      }
      if callOperationName.None? || !Y.Truthy(callOperationName.value) {
        return Err(ParseError(MissingOperationName, loc));
      }
      return Ok(Call(StrOf(ev, callOperationName.value), inputs));
    }

    /**
     * `collect_trigger_actions`: one action per activity, in order; the first
     * activity that is not a well-formed `call_operation`, or whose operation
     * is not found, aborts.
     */
    method CollectTriggerActions(definition: TriggerDefinition, targetFilter: Option<(string, Entity)>,
                                 nodes: OMap<string, Node>, policyTargets: OMap<string, Entity>, ev: Evaluator)
      returns (r: Result<seq<Action>>)
      requires KeysUnique(nodes)
      ensures r == Actions(definition.action, FilterName(targetFilter), nodes, Keys(policyTargets), ev, loc)
    {
      var actions: seq<Action> := [];
      var actionDefinitions := definition.action;
      ghost var step := StepOn(FilterName(targetFilter), nodes, Keys(policyTargets), ev, loc);
      var i := 0;
      while i < |actionDefinitions|
        invariant 0 <= i <= |actionDefinitions|
        invariant Collect(actionDefinitions[..i], step) == Ok(actions)
      {
        var action := actionDefinitions[i];
        assert actionDefinitions[..i + 1][..i] == actionDefinitions[..i];
        var call := ParseActivity(action, ev);
        if call.Err? {
          CollectStopsAt(actionDefinitions, step, i);
          return Err(call.error);
        }
        var targetedNodes := CollectTriggerTargetNodes(targetFilter, nodes, policyTargets);
        var collectedAction := CollectTriggerActionFromInterfaces(targetedNodes, call.value.name, call.value.inputs, ev);
        if collectedAction.Err? {
          CollectStopsAt(actionDefinitions, step, i);
          return Err(collectedAction.error);
        }
        actions := actions + [collectedAction.value];
        i := i + 1;
      }
      assert actionDefinitions[..i] == actionDefinitions;
      return Ok(actions);
    }

    /** What `collect_triggers` computes: the merged definitions, each built into a trigger. */
    function CollectedTriggers(ast: ServiceAst, policyTargets: OMap<string, Entity>, nodes: OMap<string, Node>,
                               ev: Evaluator): Result<OMap<string, Trigger>>
    {
      var typ :- ast.resolveType(typeRef);
      TriggersFor(MergedTriggers(ast.triggerDefinitions(typ), triggers), ast, Keys(policyTargets), nodes, ev, loc)
    }

    /**
     * The body of the `collect_triggers` loop for one definition: its target
     * filter, the check of the filter against the policy's targets, its
     * actions and the node its filter designates.
     */
    method CollectTrigger(ast: ServiceAst, policyTargets: OMap<string, Entity>, nodes: OMap<string, Node>,
                          ev: Evaluator, name: string, definition: TriggerDefinition) returns (r: Result<Trigger>)
      requires KeysUnique(nodes)
      ensures r == TriggerFor(name, definition, ast, Keys(policyTargets), nodes, ev, loc)
    {
      var targetFilter: Option<(string, Entity)> := None;
      var targetFilterDefinitions := definition.targetFilter;
      if targetFilterDefinitions.Some? {
        var targetNode := targetFilterDefinitions.value.node;
        if targetNode.Some? {
          var resolved := ast.resolve(targetNode.value);
          if resolved.Err? {
            return Err(resolved.error);
          }
          targetFilter := Some((targetNode.value.data, resolved.value));
        } else {
          return Err(ParseError(FilterWithoutNode, loc));
        }
      }
      assert TargetFilter(definition.targetFilter, ast, loc) == Ok(targetFilter);
      if targetFilter.Some? && policyTargets != [] && targetFilter.value.0 !in Keys(policyTargets) {
        return Err(ParseError(FilterNotInTargets(targetFilter.value.0), loc));
      }
      var actions := CollectTriggerActions(definition, targetFilter, nodes, policyTargets, ev);
      if actions.Err? {
        return Err(actions.error);
      }
      var resolvedFilter := ResolveEventFilter(targetFilter, nodes);
      return Ok(Trigger(name, definition.event, resolvedFilter, definition.condition, actions.value));
    }

    /**
     * The merge step of `collect_triggers`: every name the template also
     * defines is popped from the inherited definitions, which are then
     * updated with the template's.
     */
    method MergeTriggerDefinitions(inherited: OMap<string, TriggerDefinition>, assignments: OMap<string, TriggerDefinition>)
      returns (merged: OMap<string, TriggerDefinition>)
      ensures merged == MergedTriggers(inherited, assignments)
    {
      merged := inherited;
      var duplicateTriggers := set k | k in Keys(assignments) && k in Keys(merged);
      assert duplicateTriggers == Duplicates(inherited, assignments);
      WithoutNothing(inherited);
      var remaining := duplicateTriggers;
      assert duplicateTriggers - remaining == {};
      while remaining != {}
        invariant remaining <= duplicateTriggers
        invariant merged == Without(inherited, duplicateTriggers - remaining)
        decreases |remaining|
      {
        var duplicate :| duplicate in remaining;
        WithoutWithout(inherited, duplicateTriggers - remaining, {duplicate});
        assert (duplicateTriggers - remaining) + {duplicate} == duplicateTriggers - (remaining - {duplicate});
        merged := Without(merged, {duplicate});
        remaining := remaining - {duplicate};
      }
      assert duplicateTriggers - remaining == duplicateTriggers;
      merged := PutAll(merged, assignments);
    }

    /**
     * `collect_triggers`: the type's trigger definitions with every name the
     * template also defines popped, updated with the template's, then each
     * built in order into a trigger under its name.
     */
    method CollectTriggers(ast: ServiceAst, policyTargets: OMap<string, Entity>, nodes: OMap<string, Node>,
                           ev: Evaluator) returns (r: Result<OMap<string, Trigger>>)
      requires KeysUnique(nodes)
      ensures r == CollectedTriggers(ast, policyTargets, nodes, ev)
    {
      var typ := ast.resolveType(typeRef);
      if typ.Err? {
        return Err(typ.error);
      }
      var definitions := ast.triggerDefinitions(typ.value);
      definitions := MergeTriggerDefinitions(definitions, triggers);

      ghost var build := TriggerOn(ast, Keys(policyTargets), nodes, ev, loc);
      var collected: OMap<string, Trigger> := [];
      var i := 0;
      while i < |definitions|
        invariant 0 <= i <= |definitions|
        invariant CollectEntries(definitions[..i], build) == Ok(collected)
      {
        var (name, definition) := definitions[i];
        assert definitions[..i + 1][..i] == definitions[..i];
        var trigger := CollectTrigger(ast, policyTargets, nodes, ev, name, definition);
        if trigger.Err? {
          CollectEntriesStopsAt(definitions, build, i);
          return Err(trigger.error);
        }
        assert build(name, definition) == trigger;
        collected := Put(collected, name, trigger.value);
        i := i + 1;
      }
      assert definitions[..i] == definitions;
      return Ok(collected);
    }

    // -------------------------------------------------------------------------
    // The template
    // -------------------------------------------------------------------------

    /**
     * What `get_template` builds: the policy named `name` with the given type
     * chain and collected properties, the nodes its targets designate, and
     * its triggers. Targets are collected first, so their failure comes first.
     */
    function TemplateOf(name: string, ast: ServiceAst, nodes: OMap<string, Node>, types: seq<string>,
                        properties: OMap<string, Value>, ev: Evaluator): (r: Result<Policy>)
      ensures ast.resolveType(typeRef).Err? ==> r == Err(ast.resolveType(typeRef).error)
      ensures CollectTargets(ast).Err? ==> r == Err(CollectTargets(ast).error)
      ensures r.Ok? ==> r.value.name == name && r.value.types == types && r.value.properties == properties
    {
      var policyTargets :- CollectTargets(ast);
      var collected :- CollectedTriggers(ast, policyTargets, nodes, ev);
      Ok(Policy(name, types, properties, ResolvedTargets(Keys(policyTargets), nodes), collected))
    }

    /**
     * The template's targets are exactly the nodes whose name or most derived
     * type is one of the policy's target names.
     */
    lemma TemplateTargets(name: string, ast: ServiceAst, nodes: OMap<string, Node>, types: seq<string>,
                          properties: OMap<string, Value>, ev: Evaluator)
      requires KeysUnique(nodes)
      requires CollectTargets(ast).Ok?
      ensures ast.resolveType(typeRef).Ok?
      ensures var names := Dedup(RefNames(if targets != [] then targets else ast.resolveType(typeRef).value.targets));
        var t := ResolvedTargets(Keys(CollectTargets(ast).value), nodes);
        && (TemplateOf(name, ast, nodes, types, properties, ev).Ok? ==>
              TemplateOf(name, ast, nodes, types, properties, ev).value.targets == t)
        && KeysUnique(t)
        && (forall p :: p in t ==> p in nodes && MatchesSome(names, p.0, p.1))
        && (forall p :: p in nodes && MatchesSome(names, p.0, p.1) ==> p in t)
    {
      TargetNames(ast);
      ResolvedTargetsExact(Keys(CollectTargets(ast).value), nodes);
    }

    /**
     * The template's triggers are named by the type's trigger names and the
     * template's, and a trigger the template defines is built from the
     * template's definition alone.
     */
    lemma TemplateTriggers(name: string, ast: ServiceAst, nodes: OMap<string, Node>, types: seq<string>,
                           properties: OMap<string, Value>, ev: Evaluator)
      requires CollectTargets(ast).Ok?
      requires CollectedTriggers(ast, CollectTargets(ast).value, nodes, ev).Ok?
      requires KeysUnique(triggers)
      requires ast.resolveType(typeRef).Ok? ==> KeysUnique(ast.triggerDefinitions(ast.resolveType(typeRef).value))
      ensures ast.resolveType(typeRef).Ok?
      ensures var inherited := ast.triggerDefinitions(ast.resolveType(typeRef).value);
        var policyTargets := CollectTargets(ast).value;
        var t := CollectedTriggers(ast, policyTargets, nodes, ev).value;
        && TemplateOf(name, ast, nodes, types, properties, ev).Ok?
        && TemplateOf(name, ast, nodes, types, properties, ev).value.triggers == t
        && (forall k :: k in Keys(t) <==> k in Keys(inherited) || k in Keys(triggers))
        && (forall i :: 0 <= i < |triggers| ==>
              var built := TriggerFor(triggers[i].0, triggers[i].1, ast, Keys(policyTargets), nodes, ev, loc);
              built.Ok? && Get(t, triggers[i].0) == Some(built.value))
    {
      var inherited := ast.triggerDefinitions(ast.resolveType(typeRef).value);
      TriggersMergeLaw(inherited, triggers, ast, Keys(CollectTargets(ast).value), nodes, ev, loc);
    }

    /**
     * `get_template`: collects the targets, then records the properties for
     * later lookups, then builds the policy. A failure to collect the targets
     * leaves the recorded properties as they were.
     */
    method GetTemplate(name: string, ast: ServiceAst, nodes: OMap<string, Node>, types: seq<string>,
                       properties: OMap<string, Value>, ev: Evaluator) returns (r: Result<Policy>)
      requires KeysUnique(nodes)
      modifies this
      ensures r == TemplateOf(name, ast, nodes, types, properties, ev)
      ensures CollectTargets(ast).Ok? ==> collectedProperties == Some(properties)
      ensures CollectTargets(ast).Err? ==> collectedProperties == old(collectedProperties)
    {
      var policyTargets := CollectTargets(ast);
      if policyTargets.Err? {
        return Err(policyTargets.error);
      }
      collectedProperties := Some(properties);
      var resolvedTargets := ResolveTargets(policyTargets.value, nodes);
      var collected := CollectTriggers(ast, policyTargets.value, nodes, ev);
      if collected.Err? {
        return Err(collected.error);
      }
      return Ok(Policy(name, types, properties, resolvedTargets, collected.value));
    }

    // -------------------------------------------------------------------------
    // Functions available to property expressions
    // -------------------------------------------------------------------------

    /** One parameter of `concat`: wrapped as a present value, evaluated, and rendered. */
    function Piece(param: Y.Data, ev: Evaluator): string {
      StrOf(ev, ev.eval(Value(None, true, Some(param)), Y.DStr("")))
    }

    /** `concat`: the rendered parameters joined with no separator. */
    function Concat(params: seq<Y.Data>, ev: Evaluator): (r: string)
      ensures params == [] ==> r == ""
      ensures |params| == 1 ==> r == Piece(params[0], ev)
    {
      if params == [] then ""
      else
        assert |params| == 1 ==> params[..0] == [];
        Concat(params[..|params| - 1], ev) + Piece(params[|params| - 1], ev)
    }

    /** Each parameter's piece follows the pieces of the parameters before it. */
    lemma {:induction false} ConcatPrefixes(params: seq<Y.Data>, ev: Evaluator)
      ensures forall k :: 0 <= k < |params| ==> Concat(params[..k], ev) + Piece(params[k], ev) <= Concat(params, ev)
    {
      if params != [] {
        var n := |params| - 1;
        var init := params[..n];
        ConcatPrefixes(init, ev);
        forall k | 0 <= k < |params| ensures Concat(params[..k], ev) + Piece(params[k], ev) <= Concat(params, ev) {
          if k < n {
            assert init[..k] == params[..k] && init[k] == params[k];
          } else {
            assert params[..k] == init;
          }
        }
      }
    }

    /** Concatenation distributes over joining parameter lists. */
    lemma {:induction false} ConcatAppend(a: seq<Y.Data>, b: seq<Y.Data>, ev: Evaluator)
      ensures Concat(a + b, ev) == Concat(a, ev) + Concat(b, ev)
    {
      if b == [] {
        assert a + b == a;
      } else {
        var init := b[..|b| - 1];
        assert (a + b)[..|a + b| - 1] == a + init;
        ConcatAppend(a, init, ev);
      }
    }

    /** The result of `concat` starts with its first parameter's piece. */
    lemma ConcatPieces(params: seq<Y.Data>, ev: Evaluator)
      ensures |params| >= 1 ==> Concat(params, ev) == Piece(params[0], ev) + Concat(params[1..], ev)
    {
      if |params| >= 1 {
        assert params == [params[0]] + params[1..];
        ConcatAppend([params[0]], params[1..], ev);
        assert [params[0]][..0] == [];
      }
    }

    /**
     * `get_property`: `[SELF, name, ...]` evaluates the collected property
     * `name`; fewer than two parameters, another host, no collected properties
     * or an unknown name fail.
     */
    function GetProperty(params: seq<Y.Data>, ev: Evaluator): (r: Result<Y.Data>)
      reads this
      ensures |params| < 2 ==> r == Err(RuntimeError(NotEnoughParameters(|params|)))
      ensures |params| >= 2 && params[0] != Y.DStr("SELF") ==> r == Err(RuntimeError(UnknownHost(StrOf(ev, params[0]))))
      ensures r.Ok? <==> |params| >= 2 && params[0] == Y.DStr("SELF") && collectedProperties.Some?
                         && params[1].DStr? && params[1].s in Keys(collectedProperties.value)
      ensures r.Ok? ==> r.value == ev.eval(Get(collectedProperties.value, params[1].s).value, params[1])
      ensures |params| >= 2 && params[0] == Y.DStr("SELF") && collectedProperties.Some?
              && !(params[1].DStr? && params[1].s in Keys(collectedProperties.value)) ==>
                r == Err(RuntimeError(UnknownProperty(StrOf(ev, params[1]), Keys(collectedProperties.value))))
    {
      if |params| < 2 then Err(RuntimeError(NotEnoughParameters(|params|)))
      else
        var host, prop := params[0], params[1];
        if host != Y.DStr("SELF") then Err(RuntimeError(UnknownHost(StrOf(ev, host))))
        else match collectedProperties
          case None => Err(RuntimeError(PropertiesNotCollected))
          case Some(collected) =>
            if prop.DStr? && prop.s in Keys(collected) then Ok(ev.eval(Get(collected, prop.s).value, prop))
            else Err(RuntimeError(UnknownProperty(StrOf(ev, prop), Keys(collected))))
    }

    /** Parameters after the first two are ignored. */
    lemma GetPropertyIgnoresRest(params: seq<Y.Data>, rest: seq<Y.Data>, ev: Evaluator)
      requires |params| == 2
      ensures GetProperty(params + rest, ev) == GetProperty(params, ev)
    {
      assert (params + rest)[0] == params[0] && (params + rest)[1] == params[1];
    }

    /** A property of the collected dict evaluates to what its stored value evaluates to. */
    lemma SelfPropertyLookup(propName: string, v: Value, ev: Evaluator)
      requires collectedProperties.Some? && KeysUnique(collectedProperties.value)
      requires (propName, v) in collectedProperties.value
      ensures GetProperty([Y.DStr("SELF"), Y.DStr(propName)], ev) == Ok(ev.eval(v, Y.DStr(propName)))
    {
      GetUnique(collectedProperties.value, propName, v);
    }
  }
}
