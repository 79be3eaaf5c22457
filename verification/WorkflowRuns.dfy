/** What every run of a workflow keeps, whatever the tools answer, and when the order of the nodes is irrelevant. */
module WorkflowRuns {
  import opened Text
  import opened JsonValues
  import opened WorkflowModel
  import opened TopologicalOrder
  import opened WorkflowCompiler
  import opened WorkflowExecutor

  // --------------------------------------------------------------- schedules

  /** Node `i` comes after all its dependencies. */
  ghost predicate DependenciesBefore(nodes: seq<CompiledNode>, i: nat)
    requires i < |nodes|
  {
    forall d :: d in nodes[i].dependencies ==> exists j :: 0 <= j < i && nodes[j].id == d
  }

  ghost predicate Scheduled(nodes: seq<CompiledNode>) {
    DistinctIds(nodes) && forall i :: 0 <= i < |nodes| ==> DependenciesBefore(nodes, i)
  }

  lemma ScheduledPrefix(nodes: seq<CompiledNode>, k: nat)
    requires Scheduled(nodes) && k <= |nodes|
    ensures Scheduled(nodes[..k])
  {
    forall i | 0 <= i < k
      ensures DependenciesBefore(nodes[..k], i)
    {
      assert DependenciesBefore(nodes, i);
      forall d | d in nodes[..k][i].dependencies
        ensures exists j :: 0 <= j < i && nodes[..k][j].id == d
      {
        var j :| 0 <= j < i && nodes[j].id == d;
        assert nodes[..k][j].id == d;
      }
    }
  }

  /** The order the compiler chooses is a schedule. */
  lemma CompilationIsScheduled(definition: Definition, workflow: Workflow)
    requires IsCompilation(definition, workflow)
    ensures Scheduled(workflow.nodes)
  {
    var nodes, ids := workflow.nodes, NodeIds(workflow.nodes);
    forall i | 0 <= i < |nodes|
      ensures DependenciesBefore(nodes, i)
    {
      CompiledAfterDependencies(definition, workflow, i);
    }
    forall i, j | 0 <= i < j < |nodes|
      ensures nodes[i].id != nodes[j].id
    {
      assert ids[i] != ids[j];
    }
  }

  lemma CompiledAfterDependencies(definition: Definition, workflow: Workflow, i: nat)
    requires IsCompilation(definition, workflow) && i < |workflow.nodes|
    ensures DependenciesBefore(workflow.nodes, i)
  {
    assert PlacedAfterDependencies(DependencyGraph(definition), NodeIds(workflow.nodes), i);
    CompiledDependencies(definition, workflow.nodes[i]);
    PlacedNodes(DependencyGraph(definition), workflow.nodes, i);
  }

  lemma PlacedNodes(g: Graph, nodes: seq<CompiledNode>, i: nat)
    requires i < |nodes| && PlacedAfterDependencies(g, NodeIds(nodes), i)
    requires g[nodes[i].id] == Elements(nodes[i].dependencies)
    ensures DependenciesBefore(nodes, i)
  {
    var ids := NodeIds(nodes);
    forall d | d in nodes[i].dependencies
      ensures exists j :: 0 <= j < i && nodes[j].id == d
    {
      assert d in Elements(nodes[i].dependencies) && d in Elements(ids[..i]);
      var j :| 0 <= j < i && ids[..i][j] == d;
      assert nodes[j].id == d;
    }
  }

  // ------------------------------------------------------------ settled parts

  lemma {:induction false} RunKeys(nodes: seq<CompiledNode>, inputs: map<string, Value>, world: World)
    ensures Run(nodes, inputs, world).executions.Keys == Elements(NodeIds(nodes))
  {
    if nodes == [] {
    } else {
      var init, last := nodes[..|nodes| - 1], nodes[|nodes| - 1];
      RunKeys(init, inputs, world);
      assert NodeIds(nodes) == NodeIds(init) + [last.id];
    }
  }

  /** What a node did does not change when later nodes run. */
  lemma {:induction false} RunSettles(nodes: seq<CompiledNode>, k: nat, id: string, inputs: map<string, Value>, world: World)
    requires DistinctIds(nodes) && k <= |nodes| && id in Run(nodes[..k], inputs, world).executions
    ensures id in Run(nodes, inputs, world).executions
    ensures Run(nodes, inputs, world).executions[id] == Run(nodes[..k], inputs, world).executions[id]
  {
    if k == |nodes| {
      assert nodes[..k] == nodes;
    } else {
      var init, last := nodes[..|nodes| - 1], nodes[|nodes| - 1];
      assert init[..k] == nodes[..k];
      RunSettles(init, k, id, inputs, world);
      RanEarlier(nodes, k, id, inputs, world);
    }
  }

  lemma RanEarlier(nodes: seq<CompiledNode>, k: nat, id: string, inputs: map<string, Value>, world: World)
    requires DistinctIds(nodes) && k < |nodes| && id in Run(nodes[..k], inputs, world).executions
    ensures id != nodes[|nodes| - 1].id
  {
    RunKeys(nodes[..k], inputs, world);
    var j :| 0 <= j < k && NodeIds(nodes[..k])[j] == id;
    assert nodes[j].id == id;
  }

  /** The final execution of node `i` is what its own step gave. */
  lemma RunAt(nodes: seq<CompiledNode>, i: nat, inputs: map<string, Value>, world: World)
    requires DistinctIds(nodes) && i < |nodes|
    ensures var before := Run(nodes[..i], inputs, world);
            nodes[i].id in Run(nodes, inputs, world).executions
            && Run(nodes, inputs, world).executions[nodes[i].id]
               == Step(before, nodes[i], inputs, world).executions[nodes[i].id]
  {
    assert nodes[..i + 1][..i] == nodes[..i];
    assert Run(nodes[..i + 1], inputs, world) == Step(Run(nodes[..i], inputs, world), nodes[i], inputs, world);
    RunSettles(nodes, i + 1, nodes[i].id, inputs, world);
  }

  /** What an attempted node comes to: it fails before any call exactly if its arguments do not resolve, and it succeeds
      exactly if the tool replies with a content from which all its declared outputs can be selected. */
  ghost predicate IsOutcome(node: CompiledNode, before: State, inputs: map<string, Value>, world: World, execution: Execution) {
    var resolved := Resolve(node.arguments, before.outputs, inputs);
    if resolved.Err? then execution == Failed(None)
    else
      var reply := world(before.attempts, node.server, node.tool, resolved.value);
      if reply.Replied? && execution.Succeeded? then
        && execution.arguments == resolved.value && execution.content == reply.content
        && IsSelection(node.outputs, reply.content, execution.outputs)
        && execution.summary == if reply.text == "" then None else Some(reply.text)
      else
        && execution == Failed(Some(resolved.value))
        && (reply.Replied? ==> forall selected :: !IsSelection(node.outputs, reply.content, selected))
  }

  /** In every run, each node that is not blocked has the outcome of its attempt. */
  lemma AttemptedOutcome(nodes: seq<CompiledNode>, i: nat, inputs: map<string, Value>, world: World)
    requires DistinctIds(nodes) && i < |nodes|
    requires Unsuccessful(nodes[i].dependencies, Run(nodes[..i], inputs, world).executions) == []
    ensures nodes[i].id in Run(nodes, inputs, world).executions
    ensures IsOutcome(nodes[i], Run(nodes[..i], inputs, world), inputs, world, Run(nodes, inputs, world).executions[nodes[i].id])
  {
    RunAt(nodes, i, inputs, world);
    ExecutedOutcome(nodes[i], Run(nodes[..i], inputs, world), inputs, world);
  }

  lemma ExecutedOutcome(node: CompiledNode, before: State, inputs: map<string, Value>, world: World)
    ensures IsOutcome(node, before, inputs, world, ExecuteNode(node, before.outputs, inputs, world, before.attempts))
  {
    var resolved := Resolve(node.arguments, before.outputs, inputs);
    if resolved.Ok? {
      var reply := world(before.attempts, node.server, node.tool, resolved.value);
      if reply.Replied? {
        forall selected
          ensures SelectedOutputs(node.outputs, reply.content) == Some(selected)
             <==> IsSelection(node.outputs, reply.content, selected)
        {
          SelectedIffSelection(node.outputs, reply.content, selected);
        }
      }
    }
  }

  ghost predicate AgreeOn(a: map<string, Execution>, b: map<string, Execution>, ids: seq<string>) {
    forall d :: d in ids ==> d in a && d in b && a[d] == b[d]
  }

  /** When node `i` runs, its dependencies have their final executions. */
  lemma DependenciesSettled(nodes: seq<CompiledNode>, i: nat, inputs: map<string, Value>, world: World)
    requires Scheduled(nodes) && i < |nodes|
    ensures AgreeOn(Run(nodes[..i], inputs, world).executions, Run(nodes, inputs, world).executions, nodes[i].dependencies)
  {
    assert DependenciesBefore(nodes, i);
    RunKeys(nodes[..i], inputs, world);
    forall d | d in nodes[i].dependencies
      ensures d in Run(nodes[..i], inputs, world).executions
    {
      var j :| 0 <= j < i && nodes[j].id == d;
      assert NodeIds(nodes[..i])[j] == d;
    }
    forall d | d in nodes[i].dependencies
      ensures d in Run(nodes, inputs, world).executions
      ensures Run(nodes[..i], inputs, world).executions[d] == Run(nodes, inputs, world).executions[d]
    {
      RunSettles(nodes, i, d, inputs, world);
    }
  }

  lemma {:induction false} UnsuccessfulLocal(ids: seq<string>, a: map<string, Execution>, b: map<string, Execution>)
    requires AgreeOn(a, b, ids)
    ensures Unsuccessful(ids, a) == Unsuccessful(ids, b)
  {
    if ids != [] {
      UnsuccessfulLocal(ids[1..], a, b);
    }
  }

  lemma {:induction false} UnsuccessfulMembers(ids: seq<string>, executions: map<string, Execution>)
    ensures forall d :: d in Unsuccessful(ids, executions) <==> d in ids && !HasSucceeded(executions, d)
  {
    if ids != [] {
      UnsuccessfulMembers(ids[1..], executions);
    }
  }

  /** A node is blocked exactly when one of its own dependencies did not succeed. */
  lemma BlockedByDependency(nodes: seq<CompiledNode>, i: nat, inputs: map<string, Value>, world: World)
    requires Scheduled(nodes) && i < |nodes|
    ensures var executions := Run(nodes, inputs, world).executions;
            nodes[i].id in executions
            && (executions[nodes[i].id].Blocked? <==>
                  exists d :: d in nodes[i].dependencies && !HasSucceeded(executions, d))
            && (executions[nodes[i].id].Blocked? ==>
                  forall d :: d in executions[nodes[i].id].blockedBy <==>
                    d in nodes[i].dependencies && !HasSucceeded(executions, d))
  {
    var executions := Run(nodes, inputs, world).executions;
    RunAt(nodes, i, inputs, world);
    DependenciesSettled(nodes, i, inputs, world);
    UnsuccessfulLocal(nodes[i].dependencies, Run(nodes[..i], inputs, world).executions, executions);
    UnsuccessfulMembers(nodes[i].dependencies, executions);
    var blockedBy := Unsuccessful(nodes[i].dependencies, executions);
    assert blockedBy != [] ==> blockedBy[0] in blockedBy;
  }

  // ------------------------------------------------------ failure propagation

  ghost predicate ChainTo(g: Graph, p: seq<string>, n: string, a: string) {
    IsPath(g, p) && |p| >= 2 && p[0] == n && p[|p| - 1] == a
  }

  /** `a` is a dependency of `n`, or a dependency of a dependency, and so on. */
  ghost predicate StrictAncestor(g: Graph, a: string, n: string) {
    exists p :: ChainTo(g, p, n, a)
  }

  /** In every run a node is blocked exactly when some strict ancestor failed. */
  lemma {:induction false} BlockedIffAncestorFailed(nodes: seq<CompiledNode>, i: nat, inputs: map<string, Value>, world: World)
    requires Scheduled(nodes) && i < |nodes|
    ensures var executions := Run(nodes, inputs, world).executions;
            nodes[i].id in executions
            && (executions[nodes[i].id].Blocked? <==>
                  exists a :: StrictAncestor(GraphOf(nodes), a, nodes[i].id) && a in executions && executions[a].Failed?)
    decreases i
  {
    var executions, g, n := Run(nodes, inputs, world).executions, GraphOf(nodes), nodes[i].id;
    BlockedByDependency(nodes, i, inputs, world);
    if executions[n].Blocked? {
      var d :| d in nodes[i].dependencies && !HasSucceeded(executions, d);
      var a := FailedAbove(nodes, i, d, inputs, world);
    }
    if exists a :: StrictAncestor(g, a, n) && a in executions && executions[a].Failed? {
      var a :| StrictAncestor(g, a, n) && a in executions && executions[a].Failed?;
      var d := FirstStep(nodes, i, a);
      if d != a {
        var j := IndexBefore(nodes, i, d);
        BlockedIffAncestorFailed(nodes, j, inputs, world);
      }
      assert !HasSucceeded(executions, d);
    }
  }

  /** The dependency a chain to an ancestor starts with: the ancestor itself, or one it is above. */
  lemma FirstStep(nodes: seq<CompiledNode>, i: nat, a: string) returns (d: string)
    requires Scheduled(nodes) && i < |nodes| && StrictAncestor(GraphOf(nodes), a, nodes[i].id)
    ensures d in nodes[i].dependencies && (d == a || StrictAncestor(GraphOf(nodes), a, d))
  {
    var g := GraphOf(nodes);
    var p :| ChainTo(g, p, nodes[i].id, a);
    d := p[1];
    NodeInGraph(nodes, i);
    assert p[0 + 1] in g[p[0]];
    if |p| > 2 {
      PathSlice(g, p, 1, |p|);
      assert ChainTo(g, p[1..|p|], d, a);
    }
  }

  lemma IndexBefore(nodes: seq<CompiledNode>, i: nat, d: string) returns (j: nat)
    requires Scheduled(nodes) && i < |nodes| && d in nodes[i].dependencies
    ensures j < i && nodes[j].id == d
  {
    assert DependenciesBefore(nodes, i);
    j :| 0 <= j < i && nodes[j].id == d;
  }

  /** An unsuccessful dependency failed itself or has a failed ancestor. */
  lemma {:induction false} FailedAbove(nodes: seq<CompiledNode>, i: nat, d: string, inputs: map<string, Value>, world: World)
    returns (a: string)
    requires Scheduled(nodes) && i < |nodes| && d in nodes[i].dependencies
    requires !HasSucceeded(Run(nodes, inputs, world).executions, d)
    ensures StrictAncestor(GraphOf(nodes), a, nodes[i].id)
    ensures a in Run(nodes, inputs, world).executions && Run(nodes, inputs, world).executions[a].Failed?
    decreases i
  {
    var executions, g, n := Run(nodes, inputs, world).executions, GraphOf(nodes), nodes[i].id;
    var j := IndexBefore(nodes, i, d);
    NodeInGraph(nodes, i);
    NodeInGraph(nodes, j);
    BlockedByDependency(nodes, j, inputs, world);
    if executions[d].Failed? {
      a := d;
      assert ChainTo(g, [n, d], n, d);
    } else {
      var e :| e in nodes[j].dependencies && !HasSucceeded(executions, e);
      a := FailedAbove(nodes, j, e, inputs, world);
      var p :| ChainTo(g, p, d, a);
      ExtendPath(g, n, p);
      assert ChainTo(g, [n] + p, n, a);
    }
  }

  lemma ExtendPath(g: Graph, n: string, p: seq<string>)
    requires IsPath(g, p) && n in g && p[0] in g[n]
    ensures IsPath(g, [n] + p)
  {
    var q := [n] + p;
    forall k | 0 <= k < |q| - 1
      ensures q[k + 1] in g[q[k]]
    {
      if k > 0 {
        assert p[(k - 1) + 1] in g[p[k - 1]];
      }
    }
  }

  /** The workflow succeeds exactly when no node fails: a blocked node never is the only unsuccessful one. */
  lemma SucceededIffNoneFailed(nodes: seq<CompiledNode>, inputs: map<string, Value>, world: World)
    requires Scheduled(nodes)
    ensures var executions := Run(nodes, inputs, world).executions;
            (forall i :: 0 <= i < |nodes| ==> HasSucceeded(executions, nodes[i].id))
            <==> (forall n :: n in executions ==> !executions[n].Failed?)
  {
    var executions := Run(nodes, inputs, world).executions;
    RunKeys(nodes, inputs, world);
    if forall i :: 0 <= i < |nodes| ==> HasSucceeded(executions, nodes[i].id) {
      forall n | n in executions
        ensures !executions[n].Failed?
      {
        var i :| 0 <= i < |nodes| && NodeIds(nodes)[i] == n;
        assert HasSucceeded(executions, nodes[i].id);
      }
    }
    if forall n :: n in executions ==> !executions[n].Failed? {
      forall i | 0 <= i < |nodes|
        ensures HasSucceeded(executions, nodes[i].id)
      {
        BlockedIffAncestorFailed(nodes, i, inputs, world);
      }
    }
  }

  // ------------------------------------------------------------------- calls

  /** Call `c` was made by a node that is not blocked, with the recorded arguments, after its dependencies succeeded. */
  ghost predicate CallIsOrderly(nodes: seq<CompiledNode>, state: State, c: nat)
    requires c < |state.calls|
  {
    exists i :: 0 <= i < |nodes| && CallIsBy(nodes[i], state, c)
  }

  ghost predicate CallIsBy(node: CompiledNode, state: State, c: nat)
    requires c < |state.calls|
  {
    && state.calls[c].node == node.id && state.calls[c].server == node.server && state.calls[c].tool == node.tool
    && node.id in state.executions && CalledWith(state.executions[node.id], state.calls[c].arguments)
    && forall d :: d in node.dependencies ==>
         HasSucceeded(state.executions, d) && CalledBefore(state.calls, d, c)
  }

  ghost predicate CalledWith(execution: Execution, arguments: Value) {
    match execution
    case Succeeded(used, _, _, _) => used == arguments
    case Failed(attempted) => attempted == Some(arguments)
    case Blocked(_) => false
  }

  ghost predicate CalledBefore(calls: seq<Call>, id: string, c: nat) {
    exists b :: 0 <= b < c && b < |calls| && calls[b].node == id
  }

  /** No node is called twice, and every call is orderly. */
  ghost predicate OrderlyCalls(nodes: seq<CompiledNode>, state: State) {
    && (forall b, c :: 0 <= b < c < |state.calls| ==> state.calls[b].node != state.calls[c].node)
    && (forall c :: 0 <= c < |state.calls| ==> CallIsOrderly(nodes, state, c))
    && (forall n :: HasSucceeded(state.executions, n) ==> CalledBefore(state.calls, n, |state.calls|))
  }

  /** In every run each node is called at most once, and only after all its dependencies were called and succeeded. */
  lemma {:induction false} RunCallsOrderly(nodes: seq<CompiledNode>, inputs: map<string, Value>, world: World)
    requires Scheduled(nodes)
    ensures OrderlyCalls(nodes, Run(nodes, inputs, world))
  {
    if nodes != [] {
      var init := nodes[..|nodes| - 1];
      ScheduledPrefix(nodes, |nodes| - 1);
      RunCallsOrderly(init, inputs, world);
      RunKeys(init, inputs, world);
      LastIsNew(nodes);
      StepKeepsOrder(init, Run(init, inputs, world), nodes[|nodes| - 1], inputs, world);
      assert init + [nodes[|nodes| - 1]] == nodes;
    }
  }

  lemma LastIsNew(nodes: seq<CompiledNode>)
    requires DistinctIds(nodes) && nodes != []
    ensures nodes[|nodes| - 1].id !in Elements(NodeIds(nodes[..|nodes| - 1]))
  {
  }

  lemma StepKeepsOrder(nodes: seq<CompiledNode>, state: State, node: CompiledNode, inputs: map<string, Value>, world: World)
    requires OrderlyCalls(nodes, state) && node.id !in state.executions
    ensures OrderlyCalls(nodes + [node], Step(state, node, inputs, world))
  {
    var after := Step(state, node, inputs, world);
    forall c | 0 <= c < |state.calls|
      ensures CallIsOrderly(nodes + [node], after, c) && state.calls[c].node != node.id
    {
      KeepCall(nodes, state, node, inputs, world, c);
    }
    if |after.calls| > |state.calls| {
      NewCall(nodes, state, node, inputs, world);
    }
    forall n | HasSucceeded(after.executions, n)
      ensures CalledBefore(after.calls, n, |after.calls|)
    {
      SucceededWasCalled(nodes, state, node, inputs, world, n);
    }
  }

  lemma SucceededWasCalled(nodes: seq<CompiledNode>, state: State, node: CompiledNode, inputs: map<string, Value>,
                           world: World, n: string)
    requires OrderlyCalls(nodes, state) && HasSucceeded(Step(state, node, inputs, world).executions, n)
    ensures var calls := Step(state, node, inputs, world).calls; CalledBefore(calls, n, |calls|)
  {
    var after := Step(state, node, inputs, world);
    if n == node.id {
      assert after.calls[|state.calls|].node == n;
    } else {
      assert HasSucceeded(state.executions, n);
      var b :| 0 <= b < |state.calls| && state.calls[b].node == n;
      assert after.calls[b].node == n;
    }
  }

  lemma NewCall(nodes: seq<CompiledNode>, state: State, node: CompiledNode, inputs: map<string, Value>, world: World)
    requires OrderlyCalls(nodes, state) && node.id !in state.executions
    requires |Step(state, node, inputs, world).calls| > |state.calls|
    ensures CallIsOrderly(nodes + [node], Step(state, node, inputs, world), |state.calls|)
  {
    var after, c := Step(state, node, inputs, world), |state.calls|;
    UnsuccessfulMembers(node.dependencies, state.executions);
    assert (nodes + [node])[|nodes|] == node;
    forall d | d in node.dependencies
      ensures HasSucceeded(after.executions, d) && CalledBefore(after.calls, d, c)
    {
      assert d !in Unsuccessful(node.dependencies, state.executions);
      var b :| 0 <= b < c && state.calls[b].node == d;
      assert after.calls[b].node == d;
    }
    assert CallIsBy(node, after, c);
  }

  lemma KeepCall(nodes: seq<CompiledNode>, state: State, node: CompiledNode, inputs: map<string, Value>, world: World, c: nat)
    requires OrderlyCalls(nodes, state) && node.id !in state.executions && c < |state.calls|
    ensures c < |Step(state, node, inputs, world).calls|
    ensures CallIsOrderly(nodes + [node], Step(state, node, inputs, world), c) && state.calls[c].node != node.id
  {
    var after := Step(state, node, inputs, world);
    assert CallIsOrderly(nodes, state, c);
    var i :| 0 <= i < |nodes| && CallIsBy(nodes[i], state, c);
    assert after.calls[c] == state.calls[c];
    forall d | d in nodes[i].dependencies
      ensures HasSucceeded(after.executions, d) && CalledBefore(after.calls, d, c)
    {
      assert HasSucceeded(state.executions, d);
      var b :| 0 <= b < c && b < |state.calls| && state.calls[b].node == d;
      assert after.calls[b].node == d;
    }
    assert (nodes + [node])[i] == nodes[i];
    assert CallIsBy((nodes + [node])[i], after, c);
  }

  ghost predicate HasCalled(state: State, id: string) {
    CalledBefore(state.calls, id, |state.calls|)
  }

  lemma StepCalls(state: State, node: CompiledNode, id: string, inputs: map<string, Value>, world: World)
    ensures id != node.id ==> (HasCalled(Step(state, node, inputs, world), id) <==> HasCalled(state, id))
    ensures HasCalled(Step(state, node, inputs, world), node.id)
       <==> HasCalled(state, node.id) || (Unsuccessful(node.dependencies, state.executions) == [] && Reaches(state, node, inputs, world))
  {
    var after := Step(state, node, inputs, world);
    if HasCalled(state, id) {
      var b :| 0 <= b < |state.calls| && state.calls[b].node == id;
      assert after.calls[b].node == id;
    }
    if |after.calls| > |state.calls| {
      assert after.calls[|state.calls|].node == node.id;
    }
    if HasCalled(state, node.id) {
      var b :| 0 <= b < |state.calls| && state.calls[b].node == node.id;
      assert after.calls[b].node == node.id;
    }
  }

  /** The arguments resolve, and there is a client for the server. */
  ghost predicate Reaches(state: State, node: CompiledNode, inputs: map<string, Value>, world: World) {
    var resolved := Resolve(node.arguments, state.outputs, inputs);
    resolved.Ok? && !world(state.attempts, node.server, node.tool, resolved.value).NoClient?
  }

  /** A node calls its tool exactly if no dependency blocks it, its arguments resolve and its server has a client. */
  lemma {:induction false} CalledIffReached(nodes: seq<CompiledNode>, i: nat, inputs: map<string, Value>, world: World)
    requires DistinctIds(nodes) && i < |nodes|
    ensures var before := Run(nodes[..i], inputs, world);
            HasCalled(Run(nodes, inputs, world), nodes[i].id)
            <==> Unsuccessful(nodes[i].dependencies, before.executions) == [] && Reaches(before, nodes[i], inputs, world)
  {
    var init, last := nodes[..|nodes| - 1], nodes[|nodes| - 1];
    StepCalls(Run(init, inputs, world), last, nodes[i].id, inputs, world);
    if i < |init| {
      assert init[..i] == nodes[..i];
      CalledIffReached(init, i, inputs, world);
    } else {
      NeverCalled(init, last.id, inputs, world);
    }
  }

  lemma {:induction false} NeverCalled(nodes: seq<CompiledNode>, id: string, inputs: map<string, Value>, world: World)
    requires forall i :: 0 <= i < |nodes| ==> nodes[i].id != id
    ensures !HasCalled(Run(nodes, inputs, world), id)
  {
    if nodes != [] {
      NeverCalled(nodes[..|nodes| - 1], id, inputs, world);
      StepCalls(Run(nodes[..|nodes| - 1], inputs, world), nodes[|nodes| - 1], id, inputs, world);
    }
  }

  // -------------------------------------------------------------- confluence

  /** A tool: what it answers depends on the call alone. */
  type Tool = (string, string, Value) -> Reply

  function Repeatable(tool: Tool): World {
    (attempts: nat, server: string, name: string, arguments: Value) => tool(server, name, arguments)
  }

  function SourceReferences(source: map<string, Value>): set<string> {
    if TextField(source, "kind") == Some("workflow-input") || TextField(source, "nodeId").None? then {}
    else {TextField(source, "nodeId").value}
  }

  /** The nodes whose outputs resolving a value looks up. */
  function References(value: Value): set<string> {
    if IsBinding(value) then SourceReferences(value.fields["source"].fields)
    else
      match value
      case List(items) => set i, n | 0 <= i < |items| && n in References(items[i]) :: n
      case Record(fields) => set k, n | k in fields && n in References(fields[k]) :: n
      case _ => {}
  }

  ghost predicate SameOutputs(a: map<string, map<string, Value>>, b: map<string, map<string, Value>>, ids: set<string>) {
    forall n :: n in ids ==> (n in a <==> n in b) && (n in a ==> a[n] == b[n])
  }

  lemma {:induction false} ResolveLocal(value: Value, a: map<string, map<string, Value>>, b: map<string, map<string, Value>>,
                                        inputs: map<string, Value>)
    requires SameOutputs(a, b, References(value))
    ensures Resolve(value, a, inputs) == Resolve(value, b, inputs)
    decreases value
  {
    if !IsBinding(value) {
      match value
      case List(_) => ResolveItemsLocal(value, 0, a, b, inputs);
      case Record(fields) => ResolveFieldsLocal(value, Ascending(fields.Keys), 0, a, b, inputs);
      case _ =>
    }
  }

  lemma {:induction false} ResolveItemsLocal(value: Value, start: nat, a: map<string, map<string, Value>>,
                                             b: map<string, map<string, Value>>, inputs: map<string, Value>)
    requires value.List? && start <= |value.items| && SameOutputs(a, b, References(value))
    ensures ResolveItems(value, start, a, inputs) == ResolveItems(value, start, b, inputs)
    decreases value, |value.items| - start
  {
    if start < |value.items| {
      assert References(value.items[start]) <= References(value);
      ResolveLocal(value.items[start], a, b, inputs);
      ResolveItemsLocal(value, start + 1, a, b, inputs);
    }
  }

  lemma {:induction false} ResolveFieldsLocal(value: Value, keys: seq<string>, start: nat, a: map<string, map<string, Value>>,
                                              b: map<string, map<string, Value>>, inputs: map<string, Value>)
    requires value.Record? && !IsBinding(value) && Elements(keys) <= value.fields.Keys && start <= |keys|
    requires SameOutputs(a, b, References(value))
    ensures ResolveFields(value, keys, start, a, inputs) == ResolveFields(value, keys, start, b, inputs)
    decreases value, |keys| - start
  {
    if start < |keys| {
      ElementAt(keys, start, value.fields.Keys);
      FieldReferences(value, keys[start], a, b);
      ResolveLocal(value.fields[keys[start]], a, b, inputs);
      ResolveFieldsLocal(value, keys, start + 1, a, b, inputs);
      ResolveFieldsStep(value, keys, start, a, b, inputs);
    }
  }

  lemma FieldReferences(value: Value, k: string, a: map<string, map<string, Value>>, b: map<string, map<string, Value>>)
    requires value.Record? && !IsBinding(value) && k in value.fields && SameOutputs(a, b, References(value))
    ensures SameOutputs(a, b, References(value.fields[k]))
  {
    assert References(value.fields[k]) <= References(value);
  }

  lemma ResolveFieldsStep(value: Value, keys: seq<string>, start: nat, a: map<string, map<string, Value>>,
                          b: map<string, map<string, Value>>, inputs: map<string, Value>)
    requires value.Record? && Elements(keys) <= value.fields.Keys && start < |keys| && keys[start] in value.fields
    requires Resolve(value.fields[keys[start]], a, inputs) == Resolve(value.fields[keys[start]], b, inputs)
    requires ResolveFields(value, keys, start + 1, a, inputs) == ResolveFields(value, keys, start + 1, b, inputs)
    ensures ResolveFields(value, keys, start, a, inputs) == ResolveFields(value, keys, start, b, inputs)
  {
  }

  /** The outputs later nodes can read. */
  ghost function OutputsOf(executions: map<string, Execution>): map<string, map<string, Value>> {
    map n | n in executions && executions[n].Succeeded? :: executions[n].outputs
  }

  /** What a node has to be, given what the others are. */
  ghost function Equation(node: CompiledNode, executions: map<string, Execution>, inputs: map<string, Value>, tool: Tool): Execution {
    var blockedBy := Unsuccessful(node.dependencies, executions);
    if blockedBy != [] then Blocked(blockedBy)
    else ExecuteNode(node, OutputsOf(executions), inputs, Repeatable(tool), 0)
  }

  /** One execution for each node, each as its equation demands. */
  ghost predicate Solves(nodes: set<CompiledNode>, executions: map<string, Execution>, inputs: map<string, Value>, tool: Tool) {
    && (forall node :: node in nodes ==> node.id in executions && executions[node.id] == Equation(node, executions, inputs, tool))
    && (forall n :: n in executions ==> exists node :: node in nodes && node.id == n)
  }

  // ------------------------------------------------ what a node may look up

  /** Arguments read only what is no node at all, or an ancestor of the node itself. */
  ghost predicate ReadsOnlyAncestors(nodes: seq<CompiledNode>, node: CompiledNode)
    requires DistinctIds(nodes)
  {
    forall n :: n in References(node.arguments) && n in GraphOf(nodes) ==> StrictAncestor(GraphOf(nodes), n, node.id)
  }

  ghost predicate AllReadOnlyAncestors(nodes: seq<CompiledNode>)
    requires DistinctIds(nodes)
  {
    forall i :: 0 <= i < |nodes| ==> ReadsOnlyAncestors(nodes, nodes[i])
  }

  /** In a schedule every ancestor comes earlier. */
  lemma {:induction false} AncestorBefore(nodes: seq<CompiledNode>, i: nat, a: string) returns (j: nat)
    requires Scheduled(nodes) && i < |nodes| && StrictAncestor(GraphOf(nodes), a, nodes[i].id)
    ensures j < i && nodes[j].id == a
    decreases i
  {
    var d := FirstStep(nodes, i, a);
    j := IndexBefore(nodes, i, d);
    if d != a {
      j := AncestorBefore(nodes, j, a);
    }
  }

  /** The graph does not depend on how its nodes are listed. */
  lemma SameNodesSameGraph(a: seq<CompiledNode>, b: seq<CompiledNode>)
    requires DistinctIds(a) && DistinctIds(b) && Elements(a) == Elements(b)
    ensures GraphOf(a) == GraphOf(b)
  {
    GraphRepresents(a);
    forall i | 0 <= i < |a|
      ensures a[i].id in GraphOf(b) && GraphOf(b)[a[i].id] == Elements(a[i].dependencies)
    {
      assert a[i] in Elements(b);
      var j :| 0 <= j < |b| && b[j] == a[i];
      NodeInGraph(b, j);
    }
    forall n | n in GraphOf(b)
      ensures exists i :: 0 <= i < |a| && a[i].id == n
    {
      var j :| 0 <= j < |b| && b[j].id == n;
      assert b[j] in Elements(a);
    }
    RepresentedGraphIsUnique(GraphOf(a), GraphOf(b), a);
  }

  /** Two tables of executions show a node the same dependencies and the same outputs to read. */
  ghost predicate LooksAlike(node: CompiledNode, a: map<string, Execution>, b: map<string, Execution>) {
    && AgreeOn(a, b, node.dependencies)
    && forall n :: n in References(node.arguments) ==> (n in a <==> n in b) && (n in a ==> a[n] == b[n])
  }

  lemma EquationLocal(node: CompiledNode, a: map<string, Execution>, b: map<string, Execution>,
                      inputs: map<string, Value>, tool: Tool)
    requires LooksAlike(node, a, b)
    ensures Equation(node, a, inputs, tool) == Equation(node, b, inputs, tool)
  {
    UnsuccessfulLocal(node.dependencies, a, b);
    ResolveLocal(node.arguments, OutputsOf(a), OutputsOf(b), inputs);
  }

  /** The outputs at hand are always those of the nodes that succeeded. */
  lemma {:induction false} RunOutputs(nodes: seq<CompiledNode>, inputs: map<string, Value>, world: World)
    requires DistinctIds(nodes)
    ensures Run(nodes, inputs, world).outputs == OutputsOf(Run(nodes, inputs, world).executions)
  {
    if nodes == [] {
    } else {
      var init := nodes[..|nodes| - 1];
      RunOutputs(init, inputs, world);
      RunKeys(init, inputs, world);
      LastIsNew(nodes);
      StepOutputs(Run(init, inputs, world), nodes[|nodes| - 1], inputs, world);
    }
  }

  lemma StepOutputs(state: State, node: CompiledNode, inputs: map<string, Value>, world: World)
    requires state.outputs == OutputsOf(state.executions) && node.id !in state.executions
    ensures Step(state, node, inputs, world).outputs == OutputsOf(Step(state, node, inputs, world).executions)
  {
  }

  /** When node `i` runs, what it looks up is as it will be in the end. */
  lemma LookupsSettled(nodes: seq<CompiledNode>, i: nat, inputs: map<string, Value>, world: World)
    requires Scheduled(nodes) && i < |nodes| && ReadsOnlyAncestors(nodes, nodes[i])
    ensures LooksAlike(nodes[i], Run(nodes[..i], inputs, world).executions, Run(nodes, inputs, world).executions)
  {
    var before, after := Run(nodes[..i], inputs, world).executions, Run(nodes, inputs, world).executions;
    DependenciesSettled(nodes, i, inputs, world);
    RunKeys(nodes[..i], inputs, world);
    RunKeys(nodes, inputs, world);
    forall n | n in References(nodes[i].arguments)
      ensures (n in before <==> n in after) && (n in before ==> before[n] == after[n])
    {
      if n in after {
        var k :| 0 <= k < |nodes| && NodeIds(nodes)[k] == n;
        NodeInGraph(nodes, k);
        var j := AncestorBefore(nodes, i, n);
        assert NodeIds(nodes[..i])[j] == n;
      }
      if n in before {
        RunSettles(nodes, i, n, inputs, world);
      }
    }
  }

  /** A run solves the equations of its nodes. */
  lemma RunSolves(nodes: seq<CompiledNode>, inputs: map<string, Value>, tool: Tool)
    requires Scheduled(nodes) && AllReadOnlyAncestors(nodes)
    ensures Solves(Elements(nodes), Run(nodes, inputs, Repeatable(tool)).executions, inputs, tool)
  {
    var world := Repeatable(tool);
    var executions := Run(nodes, inputs, world).executions;
    forall i | 0 <= i < |nodes|
      ensures nodes[i].id in executions && executions[nodes[i].id] == Equation(nodes[i], executions, inputs, tool)
    {
      RunAt(nodes, i, inputs, world);
      RunOutputs(nodes[..i], inputs, world);
      StepSolves(nodes[i], Run(nodes[..i], inputs, world), inputs, tool);
      LookupsSettled(nodes, i, inputs, world);
      EquationLocal(nodes[i], Run(nodes[..i], inputs, world).executions, executions, inputs, tool);
    }
    RunKeys(nodes, inputs, world);
    forall n | n in executions
      ensures exists node :: node in Elements(nodes) && node.id == n
    {
      var i :| 0 <= i < |nodes| && NodeIds(nodes)[i] == n;
      assert nodes[i] in Elements(nodes);
    }
  }

  lemma StepSolves(node: CompiledNode, state: State, inputs: map<string, Value>, tool: Tool)
    requires state.outputs == OutputsOf(state.executions)
    ensures Step(state, node, inputs, Repeatable(tool)).executions[node.id]
         == Equation(node, state.executions, inputs, tool)
  {
  }

  /** The equations have one solution: each node's execution is forced by those of its ancestors. */
  lemma {:induction false} SolutionIsForced(nodes: seq<CompiledNode>, i: nat, a: map<string, Execution>, b: map<string, Execution>,
                                            inputs: map<string, Value>, tool: Tool)
    requires Scheduled(nodes) && AllReadOnlyAncestors(nodes)
    requires Solves(Elements(nodes), a, inputs, tool) && Solves(Elements(nodes), b, inputs, tool)
    requires i < |nodes|
    ensures nodes[i].id in a && nodes[i].id in b && a[nodes[i].id] == b[nodes[i].id]
    decreases i
  {
    assert nodes[i] in Elements(nodes);
    forall d | d in nodes[i].dependencies
      ensures d in a && d in b && a[d] == b[d]
    {
      var j := IndexBefore(nodes, i, d);
      SolutionIsForced(nodes, j, a, b, inputs, tool);
    }
    SameNodesSameKeys(Elements(nodes), a, b, inputs, tool);
    forall n | n in References(nodes[i].arguments) && n in a
      ensures n in b && a[n] == b[n]
    {
      SolvedIsNode(nodes, a, n, inputs, tool);
      assert ReadsOnlyAncestors(nodes, nodes[i]);
      var j := AncestorBefore(nodes, i, n);
      SolutionIsForced(nodes, j, a, b, inputs, tool);
    }
    EquationLocal(nodes[i], a, b, inputs, tool);
  }

  lemma SolvedIsNode(nodes: seq<CompiledNode>, executions: map<string, Execution>, n: string,
                     inputs: map<string, Value>, tool: Tool)
    requires DistinctIds(nodes) && Solves(Elements(nodes), executions, inputs, tool) && n in executions
    ensures n in GraphOf(nodes)
  {
    var node :| node in Elements(nodes) && node.id == n;
    var k :| 0 <= k < |nodes| && nodes[k] == node;
    NodeInGraph(nodes, k);
  }

  /** Two solutions are equal. */
  lemma SameSolution(nodes: seq<CompiledNode>, a: map<string, Execution>, b: map<string, Execution>,
                     inputs: map<string, Value>, tool: Tool)
    requires Scheduled(nodes) && AllReadOnlyAncestors(nodes)
    requires Solves(Elements(nodes), a, inputs, tool) && Solves(Elements(nodes), b, inputs, tool)
    ensures a == b
  {
    SameNodesSameKeys(Elements(nodes), a, b, inputs, tool);
    forall n | n in a
      ensures n in b && a[n] == b[n]
    {
      var node :| node in Elements(nodes) && node.id == n;
      var i :| 0 <= i < |nodes| && nodes[i] == node;
      SolutionIsForced(nodes, i, a, b, inputs, tool);
    }
  }

  lemma SameNodesReadAlike(first: seq<CompiledNode>, second: seq<CompiledNode>)
    requires DistinctIds(first) && DistinctIds(second) && Elements(first) == Elements(second)
    requires AllReadOnlyAncestors(first)
    ensures AllReadOnlyAncestors(second)
  {
    SameNodesSameGraph(first, second);
    forall i | 0 <= i < |second|
      ensures ReadsOnlyAncestors(second, second[i])
    {
      assert second[i] in Elements(first);
      var j :| 0 <= j < |first| && first[j] == second[i];
      assert ReadsOnlyAncestors(first, first[j]);
    }
  }

  /** Confluence: two schedules of the same nodes give every node the same execution. */
  lemma RunsAgree(first: seq<CompiledNode>, second: seq<CompiledNode>, inputs: map<string, Value>, tool: Tool)
    requires Scheduled(first) && Scheduled(second) && Elements(first) == Elements(second)
    requires AllReadOnlyAncestors(first)
    ensures Run(first, inputs, Repeatable(tool)).executions == Run(second, inputs, Repeatable(tool)).executions
  {
    SameNodesReadAlike(first, second);
    RunSolves(first, inputs, tool);
    RunSolves(second, inputs, tool);
    SameSolution(first, Run(first, inputs, Repeatable(tool)).executions, Run(second, inputs, Repeatable(tool)).executions,
                 inputs, tool);
  }

  lemma SameNodesSameKeys(nodes: set<CompiledNode>, a: map<string, Execution>, b: map<string, Execution>,
                          inputs: map<string, Value>, tool: Tool)
    requires Solves(nodes, a, inputs, tool) && Solves(nodes, b, inputs, tool)
    ensures a.Keys == b.Keys
  {
    forall n
      ensures n in a <==> n in b
    {
      if n in a {
        var node :| node in nodes && node.id == n;
      }
      if n in b {
        var node :| node in nodes && node.id == n;
      }
    }
  }
}
