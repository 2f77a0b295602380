/**
 * The rules behind a policy's template (TOSCA Simple Profile in YAML v1.3,
 * section 3.6.20, policy definition with targets and triggers), stated as
 * functions over ordered dicts, with the lemmas that say what they mean.
 * The class PolicyDefinition computes the same results with its loops and is
 * proved equal to these functions.
 */
module PolicyRules {
  import opened Options
  import Y = Yaml
  import opened Errors
  import opened OrderedMaps
  import opened Template
  import opened Definitions

  // ---------------------------------------------------------------------------
  // Targets
  // ---------------------------------------------------------------------------

  /** The names the references carry, in order. */
  function RefNames(refs: seq<Reference>): (ns: seq<string>)
    ensures |ns| == |refs| && forall i :: 0 <= i < |refs| ==> ns[i] == refs[i].data
  {
    seq(|refs|, i requires 0 <= i < |refs| => refs[i].data)
  }

  /** The distinct elements of `s`, in the order of their first occurrence. */
  function Dedup(s: seq<string>): (d: seq<string>)
    ensures forall x :: x in d <==> x in s
    ensures forall i, j :: 0 <= i < j < |d| ==> d[i] != d[j]
    ensures |d| == 0 <==> |s| == 0
  {
    if s == [] then []
    else
      var rest := Dedup(s[..|s| - 1]);
      var x := s[|s| - 1];
      assert s == s[..|s| - 1] + [x];
      if x in rest then rest else rest + [x]
  }

  /** The index of the first occurrence of `x` in `s`. */
  function FirstIndex(s: seq<string>, x: string): (k: nat)
    requires x in s
    ensures k < |s| && s[k] == x && forall q :: 0 <= q < k ==> s[q] != x
  {
    if s[0] == x then 0 else 1 + FirstIndex(s[1..], x)
  }

  /** Appending an element leaves the first occurrences of earlier elements where they were. */
  lemma {:induction false} FirstIndexAppend(s: seq<string>, x: string, y: string)
    requires y in s
    ensures FirstIndex(s + [x], y) == FirstIndex(s, y)
  {
    if s[0] != y {
      assert (s + [x])[1..] == s[1..] + [x];
      FirstIndexAppend(s[1..], x, y);
    }
  }

  /** The distinct names come in the order of their first occurrences. */
  lemma {:induction false} DedupOrder(s: seq<string>)
    ensures forall i, j :: 0 <= i < j < |Dedup(s)| ==> FirstIndex(s, Dedup(s)[i]) < FirstIndex(s, Dedup(s)[j])
  {
    if s != [] {
      var init, x := s[..|s| - 1], s[|s| - 1];
      assert s == init + [x];
      DedupOrder(init);
      var rest := Dedup(init);
      forall y | y in rest ensures FirstIndex(s, y) == FirstIndex(init, y) {
        FirstIndexAppend(init, x, y);
      }
      if x !in rest {
        assert FirstIndex(s, x) == |init|;
        assert Dedup(s) == rest + [x];
        forall i | 0 <= i < |rest| ensures FirstIndex(s, Dedup(s)[i]) < FirstIndex(s, x) {
          assert Dedup(s)[i] == rest[i];
        }
      }
    }
  }

  /**
   * `{ref.data: ref for ref in refs}`: one entry per distinct name, in the
   * order names first occur, holding a reference that carries that name
   * (the last one, by ByNameLast).
   */
  function ByName(refs: seq<Reference>): (m: OMap<string, Reference>)
    ensures Keys(m) == Dedup(RefNames(refs))
    ensures KeysUnique(m)
    ensures forall p :: p in m ==> p.1 in refs && p.1.data == p.0
  {
    if refs == [] then []
    else
      var init := refs[..|refs| - 1];
      var last := refs[|refs| - 1];
      var rest := ByName(init);
      assert RefNames(refs)[..|refs| - 1] == RefNames(init);
      PutSpec(rest, last.data, last);
      Put(rest, last.data, last)
  }

  /** No reference after index `i` carries `name`. */
  predicate NoLaterName(refs: seq<Reference>, i: nat, name: string) {
    forall j :: i < j < |refs| ==> refs[j].data != name
  }

  lemma NoLaterNameSnoc(init: seq<Reference>, last: Reference, i: nat, name: string)
    requires NoLaterName(init, i, name) && last.data != name
    ensures NoLaterName(init + [last], i, name)
  {
    forall j | i < j < |init + [last]| ensures (init + [last])[j].data != name {
      if j < |init| {
        assert (init + [last])[j] == init[j];
      }
    }
  }

  /** Each name keeps the LAST reference carrying it, as a dict comprehension does. */
  lemma {:induction false} ByNameLast(refs: seq<Reference>)
    ensures forall p :: p in ByName(refs) ==>
              exists i :: 0 <= i < |refs| && refs[i] == p.1 && NoLaterName(refs, i, p.0)
  {
    if refs != [] {
      var n := |refs| - 1;
      var init, last := refs[..n], refs[n];
      assert refs == init + [last];
      var rest := ByName(init);
      ByNameLast(init);
      PutSpec(rest, last.data, last);
      forall p | p in ByName(refs)
        ensures exists i :: 0 <= i < |refs| && refs[i] == p.1 && NoLaterName(refs, i, p.0)
      {
        if p.0 == last.data {
          GetUnique(ByName(refs), p.0, p.1);
          GetUnique(ByName(refs), last.data, last);
          assert refs[n] == p.1 && NoLaterName(refs, n, p.0);
        } else {
          assert p in rest;
          var i :| 0 <= i < |init| && init[i] == p.1 && NoLaterName(init, i, p.0);
          NoLaterNameSnoc(init, last, i, p.0);
          assert refs[i] == p.1;
        }
      }
    }
  }

  /** The reference a chosen target is resolved through: `assignments.get(name) or definition`. */
  function Chosen(entry: (string, Reference), assignments: OMap<string, Reference>): Reference {
    match Get(assignments, entry.0)
    case Some(a) => a
    case None => entry.1
  }

  /**
   * When the chosen targets are the assignments themselves, or there are no
   * assignments, each entry is resolved through its own reference.
   */
  lemma ChosenIsOwn(chosen: OMap<string, Reference>, assignments: OMap<string, Reference>)
    requires KeysUnique(chosen) && (assignments == [] || assignments == chosen)
    ensures forall i :: 0 <= i < |chosen| ==> Chosen(chosen[i], assignments) == chosen[i].1
  {
    forall i | 0 <= i < |chosen| ensures Chosen(chosen[i], assignments) == chosen[i].1 {
      if assignments != [] {
        GetUnique(chosen, chosen[i].0, chosen[i].1);
      }
    }
  }

  /**
   * Resolves every chosen target in order, keyed by its name; the first
   * reference that does not resolve aborts with its error.
   */
  function ResolveEach(chosen: OMap<string, Reference>, assignments: OMap<string, Reference>,
                       resolve: Reference -> Result<Entity>): (r: Result<OMap<string, Entity>>)
    ensures r.Ok? <==> forall i :: 0 <= i < |chosen| ==> resolve(Chosen(chosen[i], assignments)).Ok?
    ensures r.Ok? ==> Keys(r.value) == Keys(chosen)
    ensures r.Ok? ==> forall i :: 0 <= i < |chosen| ==>
                        r.value[i].1 == resolve(Chosen(chosen[i], assignments)).value
    ensures r.Err? ==> exists i :: 0 <= i < |chosen|
                        && resolve(Chosen(chosen[i], assignments)) == Err(r.error)
                        && forall j :: 0 <= j < i ==> resolve(Chosen(chosen[j], assignments)).Ok?
  {
    if chosen == [] then Ok([])
    else
      var n := |chosen| - 1;
      var init := chosen[..n];
      assert forall i :: 0 <= i < n ==> init[i] == chosen[i];
      match ResolveEach(init, assignments, resolve)
      case Err(e) => Err(e)
      case Ok(done) =>
        match resolve(Chosen(chosen[n], assignments))
        case Err(e) => Err(e)
        case Ok(x) =>
          var r := done + [(chosen[n].0, x)];
          assert Keys(r) == Keys(init) + [chosen[n].0];
          assert Keys(chosen) == Keys(init) + [chosen[n].0];
          Ok(r)
  }

  // ---------------------------------------------------------------------------
  // Matching nodes by their template name or their most derived type
  // ---------------------------------------------------------------------------

  /**
   * A target name designates a node when it is the node's template name or
   * the first (most derived) of its types; types further up the chain are not
   * considered.
   */
  predicate Matches(name: string, nodeName: string, node: Node) {
    nodeName == name || node.types[0] == name
  }

  predicate MatchesSome(names: seq<string>, nodeName: string, node: Node) {
    exists t :: t in names && Matches(t, nodeName, node)
  }

  /** The nodes a single name matches, in node order. */
  function MatchingNodes(name: string, nodes: OMap<string, Node>): OMap<string, Node> {
    if nodes == [] then []
    else
      var last := nodes[|nodes| - 1];
      MatchingNodes(name, nodes[..|nodes| - 1]) + (if Matches(name, last.0, last.1) then [last] else [])
  }

  /** A single name matches exactly the nodes it designates. */
  lemma {:induction false} MatchingNodesExact(name: string, nodes: OMap<string, Node>)
    ensures forall p :: p in MatchingNodes(name, nodes) ==> p in nodes && Matches(name, p.0, p.1)
    ensures forall p :: p in nodes && Matches(name, p.0, p.1) ==> p in MatchingNodes(name, nodes)
  {
    if nodes != [] {
      var init := nodes[..|nodes| - 1];
      var last := nodes[|nodes| - 1];
      assert nodes == init + [last];
      MatchingNodesExact(name, init);
    }
  }

  /**
   * `resolve_targets`: for each target name in order, every node it matches
   * is assigned under its own name. A node matched again keeps its place.
   */
  function ResolvedTargets(names: seq<string>, nodes: OMap<string, Node>): OMap<string, Node> {
    if names == [] then []
    else PutAll(ResolvedTargets(names[..|names| - 1], nodes), MatchingNodes(names[|names| - 1], nodes))
  }

  /** The inner loop of `resolve_targets` for one name: each matching node assigned in turn. */
  function AssignMatches(acc: OMap<string, Node>, name: string, nodes: OMap<string, Node>): OMap<string, Node> {
    if nodes == [] then acc
    else
      var last := nodes[|nodes| - 1];
      var done := AssignMatches(acc, name, nodes[..|nodes| - 1]);
      if Matches(name, last.0, last.1) then Put(done, last.0, last.1) else done
  }

  /** Assigning the matches one by one is updating with all of them. */
  lemma {:induction false} AssignMatchesIsPutAll(acc: OMap<string, Node>, name: string, nodes: OMap<string, Node>)
    ensures AssignMatches(acc, name, nodes) == PutAll(acc, MatchingNodes(name, nodes))
  {
    if nodes != [] {
      var init := nodes[..|nodes| - 1];
      var last := nodes[|nodes| - 1];
      AssignMatchesIsPutAll(acc, name, init);
      var es := MatchingNodes(name, init);
      if Matches(name, last.0, last.1) {
        assert MatchingNodes(name, nodes) == es + [(last.0, last.1)];
        PutAllSnoc(acc, es, last.0, last.1);
        assert AssignMatches(acc, name, nodes) == Put(AssignMatches(acc, name, init), last.0, last.1);
      } else {
        assert MatchingNodes(name, nodes) == es;
        assert AssignMatches(acc, name, nodes) == AssignMatches(acc, name, init);
      }
    }
  }

  /**
   * The resolved targets are a sub-dict of the nodes, and a node belongs to it
   * exactly when some target name matches it.
   */
  lemma {:induction false} ResolvedTargetsExact(names: seq<string>, nodes: OMap<string, Node>)
    requires KeysUnique(nodes)
    ensures KeysUnique(ResolvedTargets(names, nodes))
    ensures forall p :: p in ResolvedTargets(names, nodes) ==> p in nodes && MatchesSome(names, p.0, p.1)
    ensures forall p :: p in nodes && MatchesSome(names, p.0, p.1) ==> p in ResolvedTargets(names, nodes)
  {
    if names != [] {
      var init := names[..|names| - 1];
      var t := names[|names| - 1];
      assert names == init + [t];
      ResolvedTargetsExact(init, nodes);
      var acc := ResolvedTargets(init, nodes);
      MatchingNodesExact(t, nodes);
      PutAllFromDict(nodes, acc, MatchingNodes(t, nodes));
      forall p | p in nodes && MatchesSome(names, p.0, p.1)
        ensures p in ResolvedTargets(names, nodes)
      {
        var u :| u in names && Matches(u, p.0, p.1);
        if u != t {
          assert u in init;
          assert MatchesSome(init, p.0, p.1);
        }
      }
      forall p | p in ResolvedTargets(names, nodes)
        ensures p in nodes && MatchesSome(names, p.0, p.1)
      {
        if p in acc {
          var u :| u in init && Matches(u, p.0, p.1);
          assert u in names;
        } else {
          assert t in names;
        }
      }
    }
  }

  /** A node whose name and most derived type are no target name is never a target, whatever its ancestors. */
  lemma AncestorTypesNeverMatch(names: seq<string>, nodes: OMap<string, Node>, nodeName: string, node: Node)
    requires KeysUnique(nodes)
    requires nodeName !in names && node.types[0] !in names
    ensures (nodeName, node) !in ResolvedTargets(names, nodes)
  {
    ResolvedTargetsExact(names, nodes);
  }

  /** The first node, in order, that a name matches. */
  function FirstMatch(name: string, nodes: OMap<string, Node>): (r: Option<(string, Node)>)
    ensures r.None? <==> forall i :: 0 <= i < |nodes| ==> !Matches(name, nodes[i].0, nodes[i].1)
    ensures r.Some? ==> exists i :: 0 <= i < |nodes| && nodes[i] == r.value && Matches(name, r.value.0, r.value.1)
                          && forall j :: 0 <= j < i ==> !Matches(name, nodes[j].0, nodes[j].1)
  {
    if nodes == [] then None
    else if Matches(name, nodes[0].0, nodes[0].1) then Some(nodes[0])
    else
      var r := FirstMatch(name, nodes[1..]);
      assert forall i :: 1 <= i < |nodes| ==> nodes[1..][i - 1] == nodes[i];
      r
  }

  /** The index form of the first match: what a scan that stops at its first hit returns. */
  lemma FirstMatchAt(name: string, nodes: OMap<string, Node>, k: nat)
    requires k < |nodes| && Matches(name, nodes[k].0, nodes[k].1)
    requires forall j :: 0 <= j < k ==> !Matches(name, nodes[j].0, nodes[j].1)
    ensures FirstMatch(name, nodes) == Some(nodes[k])
  {
    var r := FirstMatch(name, nodes);
    var i :| 0 <= i < |nodes| && nodes[i] == r.value && Matches(name, r.value.0, r.value.1)
               && forall j :: 0 <= j < i ==> !Matches(name, nodes[j].0, nodes[j].1);
    if i != k {
      assert false;
    }
  }

  /** The nodes that some name matches, in node order. */
  function NodesMatchingSome(names: seq<string>, nodes: OMap<string, Node>): OMap<string, Node> {
    if nodes == [] then []
    else
      var last := nodes[|nodes| - 1];
      NodesMatchingSome(names, nodes[..|nodes| - 1]) + (if MatchesSome(names, last.0, last.1) then [last] else [])
  }

  /** Some name matches exactly the nodes kept. */
  lemma {:induction false} NodesMatchingSomeExact(names: seq<string>, nodes: OMap<string, Node>)
    ensures forall p :: p in NodesMatchingSome(names, nodes) ==> p in nodes && MatchesSome(names, p.0, p.1)
    ensures forall p :: p in nodes && MatchesSome(names, p.0, p.1) ==> p in NodesMatchingSome(names, nodes)
  {
    if nodes != [] {
      var init := nodes[..|nodes| - 1];
      var last := nodes[|nodes| - 1];
      assert nodes == init + [last];
      NodesMatchingSomeExact(names, init);
    }
  }

  /** Keeping some entries of a dict, in order, gives a dict. */
  lemma {:induction false} NodesMatchingSomeUnique(names: seq<string>, nodes: OMap<string, Node>)
    requires KeysUnique(nodes)
    ensures KeysUnique(NodesMatchingSome(names, nodes))
  {
    if nodes != [] {
      var init := nodes[..|nodes| - 1];
      var last := nodes[|nodes| - 1];
      NodesMatchingSomeUnique(names, init);
      NodesMatchingSomeExact(names, init);
      var rest := NodesMatchingSome(names, init);
      forall i | 0 <= i < |rest| ensures rest[i].0 != last.0 {
        assert rest[i] in init;
        var j :| 0 <= j < |init| && init[j] == rest[i];
        assert nodes[j] == rest[i];
      }
    }
  }

  /**
   * The candidate nodes of a trigger: the first node the filter names, when
   * there is a filter; otherwise every node some policy target matches, when
   * the policy has targets; otherwise every node.
   */
  function TriggerCandidates(filter: Option<string>, nodes: OMap<string, Node>,
                             targetNames: seq<string>): OMap<string, Node>
  {
    match filter
    case Some(f) => (match FirstMatch(f, nodes) case Some(p) => [p] case None => [])
    case None => if targetNames != [] then NodesMatchingSome(targetNames, nodes) else nodes
  }

  /** The node a trigger's target filter designates: the first one its name matches. */
  function FilteredNode(filter: Option<string>, nodes: OMap<string, Node>): Option<(string, Node)> {
    match filter
    case Some(f) => FirstMatch(f, nodes)
    case None => None
  }

  /** The three ways candidates are chosen, and their agreement with the filtered node. */
  lemma TriggerCandidatesCases(filter: Option<string>, nodes: OMap<string, Node>, targetNames: seq<string>)
    requires KeysUnique(nodes)
    ensures var c := TriggerCandidates(filter, nodes, targetNames);
      && KeysUnique(c)
      && (forall p :: p in c ==> p in nodes)
      && (filter.Some? ==>
            && |c| <= 1
            && (c == [] <==> FilteredNode(filter, nodes).None?)
            && (c != [] ==> FilteredNode(filter, nodes) == Some(c[0]) && Matches(filter.value, c[0].0, c[0].1)))
      && (filter.None? && targetNames != [] ==>
            forall p :: p in c <==> p in nodes && MatchesSome(targetNames, p.0, p.1))
      && (filter.None? && targetNames == [] ==> c == nodes)
  {
    if filter.None? && targetNames != [] {
      NodesMatchingSomeUnique(targetNames, nodes);
      NodesMatchingSomeExact(targetNames, nodes);
    }
    if filter.Some? {
      var r := FirstMatch(filter.value, nodes);
      if r.Some? {
        var i :| 0 <= i < |nodes| && nodes[i] == r.value && Matches(filter.value, r.value.0, r.value.1)
                   && forall j :: 0 <= j < i ==> !Matches(filter.value, nodes[j].0, nodes[j].1);
      }
    }
  }

  // ---------------------------------------------------------------------------
  // Trigger actions
  // ---------------------------------------------------------------------------

  /** An interface operation found on a candidate node. */
  datatype Found = Found(interfaceName: string, operationName: string, operation: Operation)

  /** `interface + "." + operation` spells the requested name. */
  predicate Designates(interfaceName: string, operationName: string, name: string) {
    interfaceName + "." + operationName == name
  }

  /** The first operation of one interface that the name designates (the scan breaks there). */
  function FirstOperation(interfaceName: string, ops: OMap<string, Operation>, name: string): Option<Found> {
    if ops == [] then None
    else if Designates(interfaceName, ops[0].0, name) then Some(Found(interfaceName, ops[0].0, ops[0].1))
    else FirstOperation(interfaceName, ops[1..], name)
  }

  /**
   * There is no first operation exactly when none is designated; otherwise it
   * is the designated operation at the lowest index.
   */
  lemma {:induction false} FirstOperationSpec(interfaceName: string, ops: OMap<string, Operation>, name: string)
    ensures var r := FirstOperation(interfaceName, ops, name);
      && (r.None? <==> forall k :: 0 <= k < |ops| ==> !Designates(interfaceName, ops[k].0, name))
      && (r.Some? ==> exists k :: 0 <= k < |ops| && r.value == Found(interfaceName, ops[k].0, ops[k].1)
                         && Designates(interfaceName, ops[k].0, name)
                         && forall q :: 0 <= q < k ==> !Designates(interfaceName, ops[q].0, name))
  {
    if ops != [] && !Designates(interfaceName, ops[0].0, name) {
      FirstOperationSpec(interfaceName, ops[1..], name);
      assert forall k :: 1 <= k < |ops| ==> ops[1..][k - 1] == ops[k];
      var r := FirstOperation(interfaceName, ops[1..], name);
      if r.Some? {
        var k :| 0 <= k < |ops[1..]| && r.value == Found(interfaceName, ops[1..][k].0, ops[1..][k].1)
                 && Designates(interfaceName, ops[1..][k].0, name)
                 && forall q :: 0 <= q < k ==> !Designates(interfaceName, ops[1..][q].0, name);
        assert ops[1..][k] == ops[k + 1];
      }
    }
  }

  /** The index form of the first operation: what the breaking scan records. */
  lemma FirstOperationAt(interfaceName: string, ops: OMap<string, Operation>, name: string, k: nat)
    requires k < |ops| && Designates(interfaceName, ops[k].0, name)
    requires forall q :: 0 <= q < k ==> !Designates(interfaceName, ops[q].0, name)
    ensures FirstOperation(interfaceName, ops, name) == Some(Found(interfaceName, ops[k].0, ops[k].1))
  {
    FirstOperationSpec(interfaceName, ops, name);
    var r := FirstOperation(interfaceName, ops, name);
    var i :| 0 <= i < |ops| && r.value == Found(interfaceName, ops[i].0, ops[i].1)
               && Designates(interfaceName, ops[i].0, name)
               && forall q :: 0 <= q < i ==> !Designates(interfaceName, ops[q].0, name);
    if i != k {
      assert false;
    }
  }

  /** What the scan finds in one node's interfaces, in interface order. */
  function InterfaceFinds(interfaces: OMap<string, Interface>, name: string): seq<Found> {
    if interfaces == [] then []
    else
      var last := interfaces[|interfaces| - 1];
      InterfaceFinds(interfaces[..|interfaces| - 1], name)
        + (match FirstOperation(last.0, last.1.operations, name) case Some(f) => [f] case None => [])
  }

  /** What the scan finds in all candidate nodes, in node order. */
  function NodeFinds(nodes: OMap<string, Node>, name: string): seq<Found> {
    if nodes == [] then []
    else NodeFinds(nodes[..|nodes| - 1], name) + InterfaceFinds(nodes[|nodes| - 1].1.interfaces, name)
  }

  /** Some interface of these has an operation the name designates. */
  predicate InterfacesExpose(interfaces: OMap<string, Interface>, name: string) {
    exists j, k :: 0 <= j < |interfaces| && 0 <= k < |interfaces[j].1.operations|
      && Designates(interfaces[j].0, interfaces[j].1.operations[k].0, name)
  }

  /** Some candidate node has an interface operation the name designates. */
  predicate Exposes(nodes: OMap<string, Node>, name: string) {
    exists i :: 0 <= i < |nodes| && InterfacesExpose(nodes[i].1.interfaces, name)
  }

  /** The operation is one of interface `f.interfaceName` of some candidate node. */
  predicate Offers(nodes: OMap<string, Node>, f: Found) {
    exists i, j :: 0 <= i < |nodes| && 0 <= j < |nodes[i].1.interfaces|
      && nodes[i].1.interfaces[j].0 == f.interfaceName
      && (f.operationName, f.operation) in nodes[i].1.interfaces[j].1.operations
  }

  /** The scan of one node's interfaces finds nothing exactly when none of them exposes the name. */
  lemma {:induction false} InterfaceFindsEmpty(name: string, interfaces: OMap<string, Interface>)
    ensures InterfaceFinds(interfaces, name) == [] <==> !InterfacesExpose(interfaces, name)
  {
    if interfaces != [] {
      var n := |interfaces| - 1;
      var init, last := interfaces[..n], interfaces[n];
      InterfaceFindsEmpty(name, init);
      var here := FirstOperation(last.0, last.1.operations, name);
      FirstOperationSpec(last.0, last.1.operations, name);
      if InterfacesExpose(interfaces, name) && here.None? {
        var j, k :| 0 <= j < |interfaces| && 0 <= k < |interfaces[j].1.operations|
          && Designates(interfaces[j].0, interfaces[j].1.operations[k].0, name);
        assert j < n;
        assert init[j] == interfaces[j];
        assert InterfacesExpose(init, name);
      }
      if InterfacesExpose(init, name) {
        var j, k :| 0 <= j < |init| && 0 <= k < |init[j].1.operations|
          && Designates(init[j].0, init[j].1.operations[k].0, name);
        assert interfaces[j] == init[j];
      }
      if here.Some? {
        var k :| 0 <= k < |last.1.operations| && here.value == Found(last.0, last.1.operations[k].0, last.1.operations[k].1)
          && Designates(last.0, last.1.operations[k].0, name);
        assert Designates(interfaces[n].0, interfaces[n].1.operations[k].0, name);
      }
    }
  }

  /** Everything the scan of one node's interfaces finds is an operation of one of them that the name designates. */
  lemma {:induction false} InterfaceFindsOffered(name: string, interfaces: OMap<string, Interface>)
    ensures forall f :: f in InterfaceFinds(interfaces, name) ==>
              Designates(f.interfaceName, f.operationName, name)
              && exists j :: 0 <= j < |interfaces| && interfaces[j].0 == f.interfaceName
                             && (f.operationName, f.operation) in interfaces[j].1.operations
  {
    if interfaces != [] {
      var n := |interfaces| - 1;
      var init, last := interfaces[..n], interfaces[n];
      InterfaceFindsOffered(name, init);
      var here := FirstOperation(last.0, last.1.operations, name);
      FirstOperationSpec(last.0, last.1.operations, name);
      forall f | f in InterfaceFinds(interfaces, name)
        ensures Designates(f.interfaceName, f.operationName, name)
        ensures exists j :: 0 <= j < |interfaces| && interfaces[j].0 == f.interfaceName
                            && (f.operationName, f.operation) in interfaces[j].1.operations
      {
        if f in InterfaceFinds(init, name) {
          var j :| 0 <= j < |init| && init[j].0 == f.interfaceName
                   && (f.operationName, f.operation) in init[j].1.operations;
          assert interfaces[j] == init[j];
        } else {
          var k :| 0 <= k < |last.1.operations| && f == Found(last.0, last.1.operations[k].0, last.1.operations[k].1)
            && Designates(last.0, last.1.operations[k].0, name);
          assert last.1.operations[k] in last.1.operations;
          assert interfaces[n] == last;
        }
      }
    }
  }

  /** Both facts about the scan of one node's interfaces. */
  lemma InterfaceFindsExact(name: string, interfaces: OMap<string, Interface>)
    ensures InterfaceFinds(interfaces, name) == [] <==> !InterfacesExpose(interfaces, name)
    ensures forall f :: f in InterfaceFinds(interfaces, name) ==>
              Designates(f.interfaceName, f.operationName, name)
              && exists j :: 0 <= j < |interfaces| && interfaces[j].0 == f.interfaceName
                             && (f.operationName, f.operation) in interfaces[j].1.operations
  {
    InterfaceFindsEmpty(name, interfaces);
    InterfaceFindsOffered(name, interfaces);
  }

  /**
   * The scan finds nothing exactly when no candidate node has a designated
   * interface operation, and everything it finds is such an operation.
   */
  lemma {:induction false} NodeFindsExact(nodes: OMap<string, Node>, name: string)
    ensures NodeFinds(nodes, name) == [] <==> !Exposes(nodes, name)
    ensures forall f :: f in NodeFinds(nodes, name) ==>
              Designates(f.interfaceName, f.operationName, name) && Offers(nodes, f)
  {
    if nodes != [] {
      var n := |nodes| - 1;
      var init, last := nodes[..n], nodes[n];
      NodeFindsExact(init, name);
      InterfaceFindsExact(name, last.1.interfaces);
      if Exposes(nodes, name) && InterfaceFinds(last.1.interfaces, name) == [] {
        var i :| 0 <= i < |nodes| && InterfacesExpose(nodes[i].1.interfaces, name);
        assert i < n && init[i] == nodes[i];
      }
      if Exposes(init, name) {
        var i :| 0 <= i < |init| && InterfacesExpose(init[i].1.interfaces, name);
        assert nodes[i] == init[i];
      }
      forall f | f in NodeFinds(nodes, name) ensures Offers(nodes, f) {
        if f in NodeFinds(init, name) {
          var i, j :| 0 <= i < |init| && 0 <= j < |init[i].1.interfaces|
            && init[i].1.interfaces[j].0 == f.interfaceName
            && (f.operationName, f.operation) in init[i].1.interfaces[j].1.operations;
          assert nodes[i] == init[i];
        } else {
          var j :| 0 <= j < |last.1.interfaces| && last.1.interfaces[j].0 == f.interfaceName
                   && (f.operationName, f.operation) in last.1.interfaces[j].1.operations;
          assert nodes[n] == last;
        }
      }
    }
  }

  /**
   * The extra inputs of an action: each raw input wrapped as a present value,
   * evaluated with the input's name, and the result wrapped again.
   */
  function ExtraInputs(inputs: seq<(Y.Data, Y.Data)>, ev: Evaluator): (r: OMap<Y.Data, Value>)
    ensures Keys(r) == Keys(inputs)
  {
    seq(|inputs|, i requires 0 <= i < |inputs| =>
      (inputs[i].0, Value(None, true, Some(ev.eval(Value(None, true, Some(inputs[i].1)), inputs[i].0)))))
  }

  /**
   * The action a `call_operation` name resolves to among the candidate nodes:
   * the LAST designated operation the scan finds (the scan's `break` leaves
   * only the operations loop); none at all aborts. The inputs must be a
   * mapping once something is found.
   */
  function ActionFor(nodes: OMap<string, Node>, name: string, inputs: Y.Data, ev: Evaluator, loc: Y.Loc): Result<Action> {
    var finds := NodeFinds(nodes, name);
    if finds == [] then Err(ParseError(ActionNotFound(name), loc))
    else if !inputs.DMap? then Err(RuntimeError(InputsNotMap(Y.TypeName(inputs))))
    else
      var f := finds[|finds| - 1];
      Ok(Action(f.interfaceName, f.operationName, f.operation, ExtraInputs(inputs.entries, ev)))
  }

  /**
   * Not finding the name is exactly no candidate exposing it; otherwise the
   * outcome is the last find, an operation one of the candidates offers under
   * that name, unless the inputs are not a mapping.
   */
  lemma ActionForSpec(nodes: OMap<string, Node>, name: string, inputs: Y.Data, ev: Evaluator, loc: Y.Loc)
    ensures var r := ActionFor(nodes, name, inputs, ev, loc);
      && (r == Err(ParseError(ActionNotFound(name), loc)) <==> !Exposes(nodes, name))
      && (r.Ok? ==> Designates(r.value.interfaceName, r.value.operationName, name))
      && (r.Ok? ==> Offers(nodes, Found(r.value.interfaceName, r.value.operationName, r.value.operation)))
      && (r.Ok? ==> var finds := NodeFinds(nodes, name);
            finds != [] && finds[|finds| - 1] == Found(r.value.interfaceName, r.value.operationName, r.value.operation))
      && (r.Ok? <==> Exposes(nodes, name) && inputs.DMap?)
      && (r.Ok? ==> r.value.inputs == ExtraInputs(inputs.entries, ev))
      && (r.Err? && Exposes(nodes, name) ==> r == Err(RuntimeError(InputsNotMap(Y.TypeName(inputs)))))
  {
    NodeFindsExact(nodes, name);
  }

  /** A `call_operation` activity: the operation name and the raw inputs to pass. */
  datatype Call = Call(name: string, inputs: Y.Data)

  /**
   * Reads one activity. Only `call_operation` is supported; its value is the
   * bare operation name, or a mapping with `operation` and `inputs`; a name
   * that is missing or empty aborts.
   */
  function ActivityCall(act: Activity, ev: Evaluator, loc: Y.Loc): Result<Call>
  {
    if act == [] then Err(RuntimeError(EmptyActivity))
    else if act[0].0 != "call_operation" then Err(ParseError(UnsupportedActivity(act[0].0), loc))
    else
      assert Keys(act)[0] == "call_operation";
      var callOperation := Get(act, "call_operation").value;
      assert callOperation == act[0].1 by {
        assert IndexOf(act, "call_operation") == 0;
      }
      match callOperation
      case DStr(s) =>
        if s == "" then Err(ParseError(MissingOperationName, loc)) else Ok(Call(s, Y.DMap([])))
      case DMap(es) =>
        var op := Y.Lookup(es, Y.DStr("operation"));
        var inputs := match Y.Lookup(es, Y.DStr("inputs")) case Some(d) => d case None => Y.DNone;
        if op.None? || !Y.Truthy(op.value) then Err(ParseError(MissingOperationName, loc))
        else Ok(Call(StrOf(ev, op.value), inputs))
      case _ => Err(ParseError(InvalidCallOperation(Y.TypeName(callOperation)), loc))
  }

  /**
   * The outcomes of reading an activity: an empty one crashes, a kind other
   * than `call_operation` or a value that is neither a name nor a mapping
   * aborts, and a name that is missing or empty aborts.
   */
  lemma ActivityCallSpec(act: Activity, ev: Evaluator, loc: Y.Loc)
    ensures var r := ActivityCall(act, ev, loc);
      && (act == [] ==> r == Err(RuntimeError(EmptyActivity)))
      && (act != [] && act[0].0 != "call_operation" ==> r == Err(ParseError(UnsupportedActivity(act[0].0), loc)))
      && (act != [] && act[0].0 == "call_operation" && !(act[0].1.DStr? || act[0].1.DMap?) ==>
            r == Err(ParseError(InvalidCallOperation(Y.TypeName(act[0].1)), loc)))
      && (act != [] && act[0].0 == "call_operation" && act[0].1.DStr? ==>
            r == if act[0].1.s == "" then Err(ParseError(MissingOperationName, loc)) else Ok(Call(act[0].1.s, Y.DMap([]))))
      && (act != [] && act[0].0 == "call_operation" && act[0].1.DMap? ==>
            var op := Y.Lookup(act[0].1.entries, Y.DStr("operation"));
            && (r.Ok? <==> op.Some? && Y.Truthy(op.value))
            && (r.Ok? ==> r.value == Call(StrOf(ev, op.value),
                                          match Y.Lookup(act[0].1.entries, Y.DStr("inputs"))
                                          case Some(d) => d case None => Y.DNone))
            && (r.Err? ==> r.error == ParseError(MissingOperationName, loc)))
  {
    if act != [] && act[0].0 == "call_operation" {
      assert Keys(act)[0] == "call_operation";
      assert IndexOf(act, "call_operation") == 0;
    }
  }

  /** The reasons reading an activity or looking up its operation can fail for. */
  predicate ActivityReason(reason: Reason) {
    reason.EmptyActivity? || reason.UnsupportedActivity? || reason.InvalidCallOperation?
    || reason.MissingOperationName? || reason.ActionNotFound? || reason.InputsNotMap?
  }

  /** One activity turned into an action on the trigger's candidate nodes. */
  function Step(act: Activity, filter: Option<string>, nodes: OMap<string, Node>, targetNames: seq<string>,
                ev: Evaluator, loc: Y.Loc): Result<Action>
  {
    var call :- ActivityCall(act, ev, loc);
    ActionFor(TriggerCandidates(filter, nodes, targetNames), call.name, call.inputs, ev, loc)
  }

  /**
   * A step succeeds only on a well-formed activity, with an operation its
   * name designates; reading errors propagate; every failure is one an
   * activity can fail for.
   */
  lemma StepSpec(act: Activity, filter: Option<string>, nodes: OMap<string, Node>, targetNames: seq<string>,
                 ev: Evaluator, loc: Y.Loc)
    ensures var r := Step(act, filter, nodes, targetNames, ev, loc);
      && (r.Ok? ==> ActivityCall(act, ev, loc).Ok?
                    && Designates(r.value.interfaceName, r.value.operationName, ActivityCall(act, ev, loc).value.name))
      && (ActivityCall(act, ev, loc).Err? ==> r == Err(ActivityCall(act, ev, loc).error))
      && (r.Err? ==> ActivityReason(r.error.reason))
  {
    var call := ActivityCall(act, ev, loc);
    if call.Ok? {
      ActionForSpec(TriggerCandidates(filter, nodes, targetNames), call.value.name, call.value.inputs, ev, loc);
    }
  }

  /** `collect_trigger_actions`: the activities in order, the first failure aborting. */
  function Actions(acts: seq<Activity>, filter: Option<string>, nodes: OMap<string, Node>, targetNames: seq<string>,
                   ev: Evaluator, loc: Y.Loc): Result<seq<Action>>
  {
    Collect(acts, StepOn(filter, nodes, targetNames, ev, loc))
  }

  /** `Step` for a fixed trigger, as a function of the activity. */
  function StepOn(filter: Option<string>, nodes: OMap<string, Node>, targetNames: seq<string>,
                  ev: Evaluator, loc: Y.Loc): (f: Activity -> Result<Action>)
    ensures forall act :: f(act) == Step(act, filter, nodes, targetNames, ev, loc)
  {
    act => Step(act, filter, nodes, targetNames, ev, loc)
  }

  /**
   * Every activity contributes exactly one action, in order, and the list
   * fails exactly when some activity fails, with the first failure's error.
   */
  lemma ActionsOutcome(acts: seq<Activity>, filter: Option<string>, nodes: OMap<string, Node>,
                       targetNames: seq<string>, ev: Evaluator, loc: Y.Loc)
    ensures var r := Actions(acts, filter, nodes, targetNames, ev, loc);
      && (r.Ok? <==> forall i :: 0 <= i < |acts| ==> Step(acts[i], filter, nodes, targetNames, ev, loc).Ok?)
      && (r.Ok? ==> |r.value| == |acts|
                    && forall i :: 0 <= i < |acts| ==> Step(acts[i], filter, nodes, targetNames, ev, loc) == Ok(r.value[i]))
      && (r.Err? ==> exists i :: 0 <= i < |acts|
                       && Step(acts[i], filter, nodes, targetNames, ev, loc) == Err(r.error)
                       && forall j :: 0 <= j < i ==> Step(acts[j], filter, nodes, targetNames, ev, loc).Ok?)
  {
    var f := StepOn(filter, nodes, targetNames, ev, loc);
    CollectOk(acts, f);
    if Collect(acts, f).Ok? {
      CollectValues(acts, f);
    } else {
      CollectFirstError(acts, f);
    }
  }

  /** On success, the i-th action's `interface.operation` is the name the i-th activity calls. */
  lemma ActionsDesignateCalls(acts: seq<Activity>, filter: Option<string>, nodes: OMap<string, Node>,
                              targetNames: seq<string>, ev: Evaluator, loc: Y.Loc)
    requires Actions(acts, filter, nodes, targetNames, ev, loc).Ok?
    ensures var r := Actions(acts, filter, nodes, targetNames, ev, loc).value;
      |r| == |acts|
      && forall i :: 0 <= i < |acts| ==>
           (ActivityCall(acts[i], ev, loc).Ok?
            && Designates(r[i].interfaceName, r[i].operationName, ActivityCall(acts[i], ev, loc).value.name))
  {
    ActionsOutcome(acts, filter, nodes, targetNames, ev, loc);
    forall i | 0 <= i < |acts| {
      StepSpec(acts[i], filter, nodes, targetNames, ev, loc);
    }
  }

  // ---------------------------------------------------------------------------
  // Triggers
  // ---------------------------------------------------------------------------

  /** Trigger names defined both by the type chain and by the template. */
  function Duplicates(definitions: OMap<string, TriggerDefinition>, assignments: OMap<string, TriggerDefinition>): set<string> {
    set k | k in Keys(assignments) && k in Keys(definitions)
  }

  /**
   * Inherited definitions with every duplicate popped, then updated with the
   * template's assignments.
   */
  function MergedTriggers(definitions: OMap<string, TriggerDefinition>,
                          assignments: OMap<string, TriggerDefinition>): OMap<string, TriggerDefinition> {
    PutAll(Without(definitions, Duplicates(definitions, assignments)), assignments)
  }

  /**
   * The merge law: the inherited-only triggers in their order, then the
   * template's; the names are the union of both; a name the template assigns
   * has the template's definition, whole.
   */
  lemma MergedTriggersLaw(definitions: OMap<string, TriggerDefinition>, assignments: OMap<string, TriggerDefinition>)
    requires KeysUnique(definitions) && KeysUnique(assignments)
    ensures var m := MergedTriggers(definitions, assignments);
      && m == Without(definitions, Duplicates(definitions, assignments)) + assignments
      && KeysUnique(m)
      && (forall k :: k in Keys(m) <==> k in Keys(definitions) || k in Keys(assignments))
      && (forall k :: k in Keys(assignments) ==> Get(m, k) == Get(assignments, k))
      && (forall k :: k !in Keys(assignments) ==> Get(m, k) == Get(definitions, k))
  {
    var dups := Duplicates(definitions, assignments);
    var w := Without(definitions, dups);
    PopThenUpdate(definitions, assignments, dups);
    KeysConcat(w, assignments);
    forall k ensures Get(w + assignments, k) == if k in Keys(assignments) then Get(assignments, k) else Get(w, k) {
      GetConcat(w, assignments, k);
    }
    forall k | k !in Keys(assignments) ensures Get(w, k) == Get(definitions, k) {
      GetWithout(definitions, dups, k);
    }
  }

  /**
   * A trigger's `target_filter`: absent gives no filter; a given filter
   * without `node` aborts; otherwise the node reference is resolved and the
   * filter is the pair of its name and what it resolves to.
   */
  function TargetFilter(f: Option<EventFilter>, ast: ServiceAst, loc: Y.Loc): (r: Result<Option<(string, Entity)>>)
    ensures f.None? ==> r == Ok(None)
    ensures f.Some? && f.value.node.None? ==> r == Err(ParseError(FilterWithoutNode, loc))
    ensures f.Some? && f.value.node.Some? ==>
              r == match ast.resolve(f.value.node.value)
                   case Ok(e) => Ok(Some((f.value.node.value.data, e)))
                   case Err(e) => Err(e)
  {
    if f.None? then Ok(None)
    else match f.value.node
      case None => Err(ParseError(FilterWithoutNode, loc))
      case Some(ref) =>
        var e :- ast.resolve(ref);
        Ok(Some((ref.data, e)))
  }

  function FilterName(tf: Option<(string, Entity)>): Option<string> {
    match tf
    case Some(p) => Some(p.0)
    case None => None
  }

  /**
   * Builds one trigger: its filter, the check that a filter names one of the
   * policy's targets (made only when the policy has targets), its actions and
   * the node its filter designates.
   */
  function TriggerFor(name: string, definition: TriggerDefinition, ast: ServiceAst, targetNames: seq<string>,
                      nodes: OMap<string, Node>, ev: Evaluator, loc: Y.Loc): Result<Trigger>
  {
    var tf :- TargetFilter(definition.targetFilter, ast, loc);
    if tf.Some? && targetNames != [] && tf.value.0 !in targetNames then
      Err(ParseError(FilterNotInTargets(tf.value.0), loc))
    else
      var actions :- Actions(definition.action, FilterName(tf), nodes, targetNames, ev, loc);
      Ok(Trigger(name, definition.event, FilteredNode(FilterName(tf), nodes), definition.condition, actions))
  }

  /** A filter that names no node aborts the trigger. */
  lemma FilterWithoutNodeAborts(name: string, definition: TriggerDefinition, ast: ServiceAst, targetNames: seq<string>,
                                nodes: OMap<string, Node>, ev: Evaluator, loc: Y.Loc)
    requires definition.targetFilter.Some?
    requires definition.targetFilter.value.node.None?
    ensures TriggerFor(name, definition, ast, targetNames, nodes, ev, loc) == Err(ParseError(FilterWithoutNode, loc))
  {
  }

  /** A filter outside the policy's targets aborts when the policy has targets. */
  lemma FilterOutsideTargetsAborts(name: string, definition: TriggerDefinition, ast: ServiceAst, targetNames: seq<string>,
                                   nodes: OMap<string, Node>, ev: Evaluator, loc: Y.Loc)
    requires definition.targetFilter.Some? && definition.targetFilter.value.node.Some?
    requires ast.resolve(definition.targetFilter.value.node.value).Ok?
    requires targetNames != [] && definition.targetFilter.value.node.value.data !in targetNames
    ensures TriggerFor(name, definition, ast, targetNames, nodes, ev, loc)
            == Err(ParseError(FilterNotInTargets(definition.targetFilter.value.node.value.data), loc))
  {
  }

  /**
   * Without policy targets any resolved filter is accepted: the target check
   * never fires, and a trigger can only fail on one of its activities.
   */
  lemma NoTargetsAcceptsAnyFilter(name: string, definition: TriggerDefinition, ast: ServiceAst,
                                  nodes: OMap<string, Node>, ev: Evaluator, loc: Y.Loc)
    requires TargetFilter(definition.targetFilter, ast, loc).Ok?
    ensures var r := TriggerFor(name, definition, ast, [], nodes, ev, loc);
      r.Err? ==> ActivityReason(r.error.reason)
  {
    var r := TriggerFor(name, definition, ast, [], nodes, ev, loc);
    var tf := TargetFilter(definition.targetFilter, ast, loc);
    if r.Err? {
      ActionsOutcome(definition.action, FilterName(tf.value), nodes, [], ev, loc);
    }
  }

  /**
   * A built trigger records the node its filter designates, and when there
   * is a filter that node is the only candidate its actions were looked up on.
   */
  lemma TriggerFilterAgreesWithCandidates(name: string, definition: TriggerDefinition, ast: ServiceAst,
                                          targetNames: seq<string>, nodes: OMap<string, Node>, ev: Evaluator, loc: Y.Loc)
    requires TriggerFor(name, definition, ast, targetNames, nodes, ev, loc).Ok?
    ensures var tf := TargetFilter(definition.targetFilter, ast, loc).value;
      var t := TriggerFor(name, definition, ast, targetNames, nodes, ev, loc).value;
      && t.name == name && t.event == definition.event && t.condition == definition.condition
      && t.targetFilter == FilteredNode(FilterName(tf), nodes)
      && (tf.Some? ==> TriggerCandidates(FilterName(tf), nodes, targetNames)
                       == match t.targetFilter case Some(p) => [p] case None => [])
      && (tf.Some? && targetNames != [] ==> tf.value.0 in targetNames)
      && Actions(definition.action, FilterName(tf), nodes, targetNames, ev, loc) == Ok(t.action)
  {
  }

  /** `triggers[name] = trigger` for each merged definition in order; the first failure aborts. */
  function TriggersFor(definitions: OMap<string, TriggerDefinition>, ast: ServiceAst, targetNames: seq<string>,
                       nodes: OMap<string, Node>, ev: Evaluator, loc: Y.Loc): Result<OMap<string, Trigger>>
  {
    CollectEntries(definitions, TriggerOn(ast, targetNames, nodes, ev, loc))
  }

  /** `TriggerFor` within one policy, as a function of the trigger's name and definition. */
  function TriggerOn(ast: ServiceAst, targetNames: seq<string>, nodes: OMap<string, Node>, ev: Evaluator, loc: Y.Loc)
    : (f: (string, TriggerDefinition) -> Result<Trigger>)
    ensures forall name, definition :: f(name, definition) == TriggerFor(name, definition, ast, targetNames, nodes, ev, loc)
  {
    (name, definition) => TriggerFor(name, definition, ast, targetNames, nodes, ev, loc)
  }

  /** Built triggers keep the definitions' names and order, each built from its own definition. */
  lemma TriggersForExact(definitions: OMap<string, TriggerDefinition>, ast: ServiceAst,
                         targetNames: seq<string>, nodes: OMap<string, Node>, ev: Evaluator, loc: Y.Loc)
    requires KeysUnique(definitions)
    ensures var r := TriggersFor(definitions, ast, targetNames, nodes, ev, loc);
      && (r.Ok? <==> forall i :: 0 <= i < |definitions| ==>
                       TriggerFor(definitions[i].0, definitions[i].1, ast, targetNames, nodes, ev, loc).Ok?)
      && (r.Ok? ==> Keys(r.value) == Keys(definitions)
                    && forall i :: 0 <= i < |definitions| ==>
                         TriggerFor(definitions[i].0, definitions[i].1, ast, targetNames, nodes, ev, loc) == Ok(r.value[i].1))
  {
    CollectEntriesExact(definitions, TriggerOn(ast, targetNames, nodes, ev, loc));
  }

  /**
   * The trigger merge, end to end: the built triggers are named by the union
   * of inherited and assigned names, and a name the template assigns is built
   * from the template's definition alone.
   */
  lemma TriggersMergeLaw(definitions: OMap<string, TriggerDefinition>, assignments: OMap<string, TriggerDefinition>,
                         ast: ServiceAst, targetNames: seq<string>, nodes: OMap<string, Node>, ev: Evaluator, loc: Y.Loc)
    requires KeysUnique(definitions) && KeysUnique(assignments)
    requires TriggersFor(MergedTriggers(definitions, assignments), ast, targetNames, nodes, ev, loc).Ok?
    ensures var r := TriggersFor(MergedTriggers(definitions, assignments), ast, targetNames, nodes, ev, loc).value;
      && (forall k :: k in Keys(r) <==> k in Keys(definitions) || k in Keys(assignments))
      && (forall i :: 0 <= i < |assignments| ==>
            var t := TriggerFor(assignments[i].0, assignments[i].1, ast, targetNames, nodes, ev, loc);
            t.Ok? && Get(r, assignments[i].0) == Some(t.value))
  {
    var m := MergedTriggers(definitions, assignments);
    MergedTriggersLaw(definitions, assignments);
    TriggersForExact(m, ast, targetNames, nodes, ev, loc);
    var r := TriggersFor(m, ast, targetNames, nodes, ev, loc).value;
    var w := Without(definitions, Duplicates(definitions, assignments));
    assert KeysUnique(r) by {
      forall i, j | 0 <= i < j < |r| ensures r[i].0 != r[j].0 {
        assert Keys(r)[i] == Keys(m)[i] && Keys(r)[j] == Keys(m)[j];
      }
    }
    forall i | 0 <= i < |assignments|
      ensures var t := TriggerFor(assignments[i].0, assignments[i].1, ast, targetNames, nodes, ev, loc);
              t.Ok? && Get(r, assignments[i].0) == Some(t.value)
    {
      var q := |w| + i;
      assert m[q] == assignments[i];
      assert Keys(r)[q] == assignments[i].0;
      GetUnique(r, assignments[i].0, r[q].1);
    }
  }
}
