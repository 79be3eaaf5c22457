/** Running a compiled workflow: binding resolution, output selection, blocking. */
module WorkflowExecutor {
  import opened Text
  import opened JsonValues
  import opened WorkflowModel
  import opened TopologicalOrder
  import opened ResultPaths

  // ----------------------------------------------------------- tool calls

  /** One recorded tool call. */
  datatype Call = Call(node: string, server: string, tool: string, arguments: Value)

  /** What an attempt to call a tool gives: no client for the server, an exception, or a result. */
  datatype Reply = NoClient | Thrown | Replied(text: string, content: Value)

  /** The outside world. The number is how many attempts came before, so any answers are possible. */
  type World = (nat, string, string, Value) -> Reply

  datatype Execution =
    | Succeeded(arguments: Value, outputs: map<string, Value>, content: Value, summary: Option<string>)
    | Failed(attempted: Option<Value>)
    | Blocked(blockedBy: seq<string>)

  datatype State = State(
    executions: map<string, Execution>,
    outputs: map<string, map<string, Value>>,
    calls: seq<Call>,
    attempts: nat)

  const START := State(map[], map[], [], 0)

  // --------------------------------------------------- selecting outputs

  predicate IsQuantity(value: Value) {
    && value.Record?
    && "value" in value.fields && value.fields["value"].Number?
    && "unit" in value.fields && value.fields["unit"].Str? && !IsBlank(value.fields["unit"].text)
  }

  predicate HasType(value: Value, kind: OutputType) {
    match kind
    case UnknownOutput => true
    case ArrayOutput => value.List?
    case ObjectOutput => value.Record?
    case BooleanOutput => value.Bool?
    case NumberOutput => value.Number?
    case StringOutput => value.Str? && !IsBlank(value.text)
    case ArtifactUriOutput => value.Str? && !IsBlank(value.text)
    case QuantityOutput => IsQuantity(value)
  }

  /** The types that a value fits, by what the value is. */
  function TypesOf(value: Value): set<OutputType> {
    {UnknownOutput} + match value
    case List(_) => {ArrayOutput}
    case Record(_) => if IsQuantity(value) then {ObjectOutput, QuantityOutput} else {ObjectOutput}
    case Bool(_) => {BooleanOutput}
    case Number(_) => {NumberOutput}
    case Str(text) => if Trim(text) != "" then {StringOutput, ArtifactUriOutput} else {}
    case _ => {}
  }

  lemma TypeFits(value: Value, kind: OutputType)
    ensures HasType(value, kind) <==> kind in TypesOf(value)
  {
    if value.Str? { BlankIffTrimmed(value.text); }
  }

  /** The selected value of one declared output, if it is there and fits its declaration. */
  function SelectOutput(definition: OutputDefinition, content: Value): Option<Value> {
    var value := ReadPath(content, Split(definition.select, '.'));
    if value.None? || !HasType(value.value, definition.kind) then None
    else if definition.minItems.Some? && value.value.List? && |value.value.items| < definition.minItems.value then None
    else value
  }

  /** The path of the declaration leads to the value, which has the declared type and, if it is a list, enough items. */
  ghost predicate IsOutput(definition: OutputDefinition, content: Value, value: Value) {
    && LeadsTo(content, Split(definition.select, '.'), value) && HasType(value, definition.kind)
    && (value.List? && definition.minItems.Some? ==> |value.items| >= definition.minItems.value)
  }

  lemma SelectIffOutput(definition: OutputDefinition, content: Value)
    ensures forall value :: SelectOutput(definition, content) == Some(value) <==> IsOutput(definition, content, value)
  {
    ReadIffEveryLead(content, Split(definition.select, '.'));
  }

  /** One value for each declared output, each what its declaration selects. */
  ghost predicate IsSelection(outputs: map<string, OutputDefinition>, content: Value, selected: map<string, Value>) {
    selected.Keys == outputs.Keys && forall name :: name in outputs ==> IsOutput(outputs[name], content, selected[name])
  }

  /** All declared outputs, or nothing if one of them cannot be selected. */
  ghost function SelectedOutputs(outputs: map<string, OutputDefinition>, content: Value): Option<map<string, Value>> {
    if forall name :: name in outputs ==> SelectOutput(outputs[name], content).Some?
    then Some(map name | name in outputs :: SelectOutput(outputs[name], content).value)
    else None
  }

  lemma SelectedIffSelection(outputs: map<string, OutputDefinition>, content: Value, selected: map<string, Value>)
    ensures SelectedOutputs(outputs, content) == Some(selected) <==> IsSelection(outputs, content, selected)
  {
    if SelectedOutputs(outputs, content) == Some(selected) {
      forall name | name in outputs
        ensures IsOutput(outputs[name], content, selected[name])
      {
        assert SelectOutput(outputs[name], content).Some?;
        SelectIffOutput(outputs[name], content);
      }
    }
    if IsSelection(outputs, content, selected) {
      SelectionIsSelected(outputs, content, selected);
    }
  }

  lemma SelectsOutput(definition: OutputDefinition, content: Value, value: Value)
    requires IsOutput(definition, content, value)
    ensures SelectOutput(definition, content) == Some(value)
  {
    SelectIffOutput(definition, content);
  }

  lemma SelectionIsSelected(outputs: map<string, OutputDefinition>, content: Value, selected: map<string, Value>)
    requires IsSelection(outputs, content, selected)
    ensures SelectedOutputs(outputs, content) == Some(selected)
  {
    forall name | name in selected
      ensures IsSelected(outputs, content, name, selected[name])
    {
      SelectsOutput(outputs[name], content, selected[name]);
    }
    SelectedAll(outputs, content, selected);
  }

  lemma SelectedAll(outputs: map<string, OutputDefinition>, content: Value, selected: map<string, Value>)
    requires selected.Keys == outputs.Keys
    requires forall name :: name in selected ==> IsSelected(outputs, content, name, selected[name])
    ensures SelectedOutputs(outputs, content) == Some(selected)
  {
    assert forall name :: name in outputs ==> name in selected && IsSelected(outputs, content, name, selected[name]);
    assert SelectedOutputs(outputs, content).value == selected;
  }

  method SelectOutputs(outputs: map<string, OutputDefinition>, content: Value) returns (r: Option<map<string, Value>>)
    ensures r == SelectedOutputs(outputs, content)
    ensures forall selected :: r == Some(selected) <==> IsSelection(outputs, content, selected)
  {
    forall selected
      ensures SelectedOutputs(outputs, content) == Some(selected) <==> IsSelection(outputs, content, selected)
    {
      SelectedIffSelection(outputs, content, selected);
    }
    var names := Ascending(outputs.Keys);
    var selected: map<string, Value> := map[];
    for i := 0 to |names|
      invariant SelectedFirst(outputs, content, names, i, selected)
    {
      assert names[i] in Elements(names);
      var value := SelectOutput(outputs[names[i]], content);
      if value.None? {
        assert SelectedOutputs(outputs, content).None?;
        return None;
      }
      SelectedNext(outputs, content, names, i, selected, value.value);
      selected := selected[names[i] := value.value];
    }
    AllSelected(outputs, content, names, selected);
    r := Some(selected);
  }

  ghost predicate SelectedFirst(outputs: map<string, OutputDefinition>, content: Value, names: seq<string>, count: nat,
                                selected: map<string, Value>)
    requires count <= |names|
  {
    && (forall j :: 0 <= j < count ==> names[j] in selected)
    && forall name :: name in selected ==> IsSelected(outputs, content, name, selected[name])
  }

  ghost predicate IsSelected(outputs: map<string, OutputDefinition>, content: Value, name: string, value: Value) {
    name in outputs && SelectOutput(outputs[name], content) == Some(value)
  }

  lemma SelectedNext(outputs: map<string, OutputDefinition>, content: Value, names: seq<string>, i: nat,
                     selected: map<string, Value>, value: Value)
    requires i < |names| && SelectedFirst(outputs, content, names, i, selected)
    requires IsSelected(outputs, content, names[i], value)
    ensures SelectedFirst(outputs, content, names, i + 1, selected[names[i] := value])
  {
  }

  lemma AllSelected(outputs: map<string, OutputDefinition>, content: Value, names: seq<string>, selected: map<string, Value>)
    requires Elements(names) == outputs.Keys && SelectedFirst(outputs, content, names, |names|, selected)
    ensures SelectedOutputs(outputs, content) == Some(selected)
  {
    forall name | name in outputs
      ensures name in selected
    {
      assert name in Elements(names);
    }
    forall name | name in selected
      ensures name in outputs && IsSelected(outputs, content, name, selected[name])
    {
    }
    SelectedAll(outputs, content, selected);
  }

  // -------------------------------------------------- resolving arguments

  datatype ResolveError = NoOutputs | MissingPath

  /** The executor's test for a compiled binding; an authored record can pass it too. */
  predicate IsBinding(value: Value) {
    && value.Record?
    && "kind" in value.fields && value.fields["kind"] == Str("binding")
    && "expression" in value.fields && value.fields["expression"].Str?
    && "source" in value.fields && value.fields["source"].Record?
  }

  /** The text of a field, if it is there and is a text. */
  function TextField(fields: map<string, Value>, key: string): Option<string> {
    if key in fields && fields[key].Str? then Some(fields[key].text) else None
  }

  function FieldOr<T>(fields: map<string, T>, key: Option<string>, absent: T): T {
    if key.Some? && key.value in fields then fields[key.value] else absent
  }

  /** The path of a source record; `None` where it is not a list of texts. */
  function PathOf(source: map<string, Value>): Option<seq<string>> {
    if "path" in source && source["path"].List? && (forall v :: v in source["path"].items ==> v.Str?)
    then Some(seq(|source["path"].items|, i requires 0 <= i < |source["path"].items| => source["path"].items[i].text))
    else None
  }

  function ResolveBinding(source: map<string, Value>, outputs: map<string, map<string, Value>>, inputs: map<string, Value>)
    : Result<Value, ResolveError>
  {
    if TextField(source, "kind") == Some("workflow-input") then
      Ok(FieldOr(inputs, TextField(source, "input"), Undefined))
    else
      var node := TextField(source, "nodeId");
      if node.None? || node.value !in outputs then Err(NoOutputs)
      else
        var selected := FieldOr(outputs[node.value], TextField(source, "output"), Undefined);
        var path := PathOf(source);
        var value := if path.None? then None else ReadPath(selected, path.value);
        if value.None? then Err(MissingPath) else Ok(value.value)
  }

  function Resolve(value: Value, outputs: map<string, map<string, Value>>, inputs: map<string, Value>)
    : Result<Value, ResolveError>
    decreases value
  {
    if IsBinding(value) then ResolveBinding(value.fields["source"].fields, outputs, inputs)
    else
      match value
      case List(items) =>
        var resolved := ResolveItems(value, 0, outputs, inputs);
        if resolved.Err? then Err(resolved.error) else Ok(List(resolved.value))
      case Record(fields) =>
        var resolved := ResolveFields(value, Ascending(fields.Keys), 0, outputs, inputs);
        if resolved.Err? then Err(resolved.error) else Ok(Record(resolved.value))
      case _ => Ok(value)
  }

  function ResolveItems(value: Value, start: nat, outputs: map<string, map<string, Value>>, inputs: map<string, Value>)
    : (r: Result<seq<Value>, ResolveError>)
    requires value.List? && start <= |value.items|
    decreases value, |value.items| - start + 1
  {
    if start == |value.items| then Ok([])
    else
      var head := Resolve(value.items[start], outputs, inputs);
      if head.Err? then Err(head.error)
      else
        var tail := ResolveItems(value, start + 1, outputs, inputs);
        if tail.Err? then tail else Ok([head.value] + tail.value)
  }

  function ResolveFields(value: Value, keys: seq<string>, start: nat,
                         outputs: map<string, map<string, Value>>, inputs: map<string, Value>)
    : (r: Result<map<string, Value>, ResolveError>)
    requires value.Record? && Elements(keys) <= value.fields.Keys && start <= |keys|
    decreases value, |keys| - start + 1
  {
    if start == |keys| then Ok(map[])
    else
      assert keys[start] in Elements(keys);
      var head := Resolve(value.fields[keys[start]], outputs, inputs);
      if head.Err? then Err(head.error)
      else
        var tail := ResolveFields(value, keys, start + 1, outputs, inputs);
        if tail.Err? then tail else Ok(tail.value[keys[start] := head.value])
  }

  // ------------------------------------------------------------- one node

  predicate HasSucceeded(executions: map<string, Execution>, id: string) {
    id in executions && executions[id].Succeeded?
  }

  /** Dependencies without a successful execution, in the order the node lists them. */
  function Unsuccessful(dependencies: seq<string>, executions: map<string, Execution>): seq<string> {
    if dependencies == [] then []
    else
      var rest := Unsuccessful(dependencies[1..], executions);
      if HasSucceeded(executions, dependencies[0]) then rest
      else [dependencies[0]] + rest
  }

  /** What running one node gives, when `attempts` were made before. */
  ghost function ExecuteNode(node: CompiledNode, outputs: map<string, map<string, Value>>, inputs: map<string, Value>,
                             world: World, attempts: nat): Execution
  {
    var arguments := Resolve(node.arguments, outputs, inputs);
    if arguments.Err? then Failed(None)
    else
      var reply := world(attempts, node.server, node.tool, arguments.value);
      if !reply.Replied? then Failed(Some(arguments.value))
      else
        var selected := SelectedOutputs(node.outputs, reply.content);
        if selected.None? then Failed(Some(arguments.value))
        else Succeeded(arguments.value, selected.value, reply.content, if reply.text == "" then None else Some(reply.text))
  }

  /** The call running one node makes, if any. */
  ghost function CallOf(node: CompiledNode, outputs: map<string, map<string, Value>>, inputs: map<string, Value>,
                        world: World, attempts: nat): seq<Call>
  {
    var arguments := Resolve(node.arguments, outputs, inputs);
    if arguments.Err? || world(attempts, node.server, node.tool, arguments.value).NoClient? then []
    else [Call(node.id, node.server, node.tool, arguments.value)]
  }

  ghost function Step(state: State, node: CompiledNode, inputs: map<string, Value>, world: World): State {
    var blockedBy := Unsuccessful(node.dependencies, state.executions);
    if blockedBy != [] then state.(executions := state.executions[node.id := Blocked(blockedBy)])
    else
      var execution := ExecuteNode(node, state.outputs, inputs, world, state.attempts);
      State(
        state.executions[node.id := execution],
        if execution.Succeeded? then state.outputs[node.id := execution.outputs] else state.outputs,
        state.calls + CallOf(node, state.outputs, inputs, world, state.attempts),
        state.attempts + 1)
  }

  /** The state after the nodes, run one after the other. */
  ghost function Run(nodes: seq<CompiledNode>, inputs: map<string, Value>, world: World): State {
    if nodes == [] then START
    else Step(Run(nodes[..|nodes| - 1], inputs, world), nodes[|nodes| - 1], inputs, world)
  }

  // ------------------------------------------------------------- the loop

  datatype Outcome = InvalidInputs | Completed(succeeded: bool, state: State)

  predicate InputsFit(workflow: Workflow, inputs: map<string, Value>) {
    inputs.Keys == workflow.inputs.Keys
    && forall name :: name in workflow.inputs ==> HasType(inputs[name], workflow.inputs[name])
  }

  method CallNode(node: CompiledNode, state: State, inputs: map<string, Value>, world: World) returns (state': State)
    requires Unsuccessful(node.dependencies, state.executions) == []
    ensures state' == Step(state, node, inputs, world)
  {
    var arguments := Resolve(node.arguments, state.outputs, inputs);
    var execution: Execution;
    var outputs, calls := state.outputs, state.calls;
    if arguments.Err? {
      execution := Failed(None);
    } else {
      execution := Failed(Some(arguments.value));
      var reply := world(state.attempts, node.server, node.tool, arguments.value);
      if !reply.NoClient? {
        calls := calls + [Call(node.id, node.server, node.tool, arguments.value)];
      }
      if reply.Replied? {
        var selected := SelectOutputs(node.outputs, reply.content);
        if selected.Some? {
          execution := Succeeded(arguments.value, selected.value, reply.content,
                                 if reply.text == "" then None else Some(reply.text));
          outputs := outputs[node.id := selected.value];
        }
      }
    }
    state' := State(state.executions[node.id := execution], outputs, calls, state.attempts + 1);
  }

  method Execute(workflow: Workflow, inputs: map<string, Value>, world: World) returns (r: Outcome)
    requires DistinctIds(workflow.nodes)
    ensures r.InvalidInputs? <==> !InputsFit(workflow, inputs)
    ensures r.Completed? ==> r.state == Run(workflow.nodes, inputs, world)
    ensures r.Completed? ==> (r.succeeded <==>
      forall i :: 0 <= i < |workflow.nodes| ==> HasSucceeded(r.state.executions, workflow.nodes[i].id))
  {
    if !InputsFit(workflow, inputs) {
      return InvalidInputs;
    }
    var nodes := workflow.nodes;
    var state := START;
    for i := 0 to |nodes|
      invariant state == Run(nodes[..i], inputs, world)
    {
      assert nodes[..i + 1][..i] == nodes[..i];
      var blockedBy := Unsuccessful(nodes[i].dependencies, state.executions);
      if |blockedBy| > 0 {
        state := state.(executions := state.executions[nodes[i].id := Blocked(blockedBy)]);
      } else {
        state := CallNode(nodes[i], state, inputs, world);
      }
    }
    assert nodes[..|nodes|] == nodes;
    var succeeded := EverySucceeded(nodes, state.executions);
    r := Completed(succeeded, state);
  }

  method EverySucceeded(nodes: seq<CompiledNode>, executions: map<string, Execution>) returns (all: bool)
    ensures all <==> forall i :: 0 <= i < |nodes| ==> HasSucceeded(executions, nodes[i].id)
  {
    for i := 0 to |nodes|
      invariant forall k :: 0 <= k < i ==> HasSucceeded(executions, nodes[k].id)
    {
      if !HasSucceeded(executions, nodes[i].id) {
        return false;
      }
    }
    all := true;
  }
}
