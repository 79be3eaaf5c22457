/** The workflow compiler: argument values, inferred dependencies, and the compiled order. */
module WorkflowCompiler {
  import opened Text
  import opened JsonValues
  import opened WorkflowModel
  import opened TopologicalOrder
  import Bindings

  // ----------------------------------------------- compiled binding records

  function TypeName(kind: OutputType): string {
    match kind
    case ArrayOutput => "array"
    case ArtifactUriOutput => "artifact-uri"
    case BooleanOutput => "boolean"
    case NumberOutput => "number"
    case ObjectOutput => "object"
    case QuantityOutput => "quantity"
    case StringOutput => "string"
    case UnknownOutput => "unknown"
  }

  function BindingRecord(expression: string, source: Value): Value {
    Record(map["kind" := Str("binding"), "expression" := Str(expression), "source" := source])
  }

  function InputSource(input: string, kind: OutputType): Value {
    Record(map["kind" := Str("workflow-input"), "input" := Str(input), "type" := Str(TypeName(kind))])
  }

  function OutputSource(node: string, output: string, path: seq<string>, kind: OutputType): Value {
    Record(map[
      "kind" := Str("node-output"),
      "nodeId" := Str(node),
      "output" := Str(output),
      "path" := List(seq(|path|, i requires 0 <= i < |path| => Str(path[i]))),
      "type" := Str(TypeName(kind))])
  }

  // -------------------------------------------------------- argument values

  function CompileText(text: string, definition: Definition): Result<Value, WorkflowError> {
    match Bindings.Read(text)
    case Plain => Ok(Str(text))
    case Malformed => Err(Validation)
    case Binding(Input(name)) =>
      if name !in definition.inputs then Err(MissingReference)
      else Ok(BindingRecord(text, InputSource(name, definition.inputs[name])))
    case Binding(Output(node, output, path)) =>
      if node !in definition.nodes || output !in definition.nodes[node].outputs then Err(MissingReference)
      else Ok(BindingRecord(text, OutputSource(node, output, path, definition.nodes[node].outputs[output].kind)))
  }

  function CompileValue(value: Value, definition: Definition): Result<Value, WorkflowError>
    decreases value
  {
    match value
    case Null => Ok(value)
    case Bool(_) => Ok(value)
    case Number(_) => Ok(value)
    case NonFinite => Err(Validation)
    case Undefined => Err(Validation)
    case Str(text) => CompileText(text, definition)
    case List(items) =>
      var compiled := CompileItems(value, 0, definition);
      if compiled.Err? then Err(compiled.error) else Ok(List(compiled.value))
    case Record(fields) =>
      var compiled := CompileFields(value, Ascending(fields.Keys), 0, definition);
      if compiled.Err? then Err(compiled.error) else Ok(Record(compiled.value))
  }

  /** The items from `start` on, or the error of the first one that does not compile. */
  function CompileItems(value: Value, start: nat, definition: Definition): (r: Result<seq<Value>, WorkflowError>)
    requires value.List? && start <= |value.items|
    ensures r.Ok? ==> |r.value| == |value.items| - start
    decreases value, |value.items| - start + 1
  {
    if start == |value.items| then Ok([])
    else
      var head := CompileValue(value.items[start], definition);
      if head.Err? then Err(head.error)
      else
        var tail := CompileItems(value, start + 1, definition);
        if tail.Err? then tail else Ok([head.value] + tail.value)
  }

  /** The fields named by `keys` from `start` on, visited in that order. */
  function CompileFields(value: Value, keys: seq<string>, start: nat, definition: Definition)
    : (r: Result<map<string, Value>, WorkflowError>)
    requires value.Record? && Elements(keys) <= value.fields.Keys && start <= |keys|
    ensures r.Ok? ==> r.value.Keys == Elements(keys[start..])
    decreases value, |keys| - start + 1
  {
    if start == |keys| then Ok(map[])
    else
      assert keys[start] in Elements(keys) && keys[start..] == [keys[start]] + keys[start + 1..];
      var head := CompileValue(value.fields[keys[start]], definition);
      if head.Err? then Err(head.error)
      else
        var tail := CompileFields(value, keys, start + 1, definition);
        if tail.Err? then tail else Ok(tail.value[keys[start] := head.value])
  }

  /** The nodes that binding texts at any depth of an authored value name. */
  function NamedNodes(value: Value): set<string> {
    match value
    case Str(text) => NodesOf(Bindings.Read(text))
    case List(items) => set i, n | 0 <= i < |items| && n in NamedNodes(items[i]) :: n
    case Record(fields) => set k, n | k in fields && n in NamedNodes(fields[k]) :: n
    case _ => {}
  }

  function NodesOf(reading: Bindings.Reading): set<string> {
    if reading.Binding? && reading.source.Output? then {reading.source.node} else {}
  }

  /** The set the compiler collects inferred dependencies in while it walks the arguments. */
  class Inferred {
    var ids: set<string>

    constructor ()
      ensures ids == {}
    {
      ids := {};
    }

    /** Compiles a value and adds the nodes its bindings name. */
    method Compile(value: Value, definition: Definition) returns (r: Result<Value, WorkflowError>)
      modifies this
      ensures r == CompileValue(value, definition)
      ensures r.Ok? ==> ids == old(ids) + NamedNodes(value)
      decreases value
    {
      match value
      case Str(text) =>
        r := CompileString(value, definition);
      case List(_) =>
        var compiled := CompileList(value, definition);
        r := if compiled.Err? then Err(compiled.error) else Ok(List(compiled.value));
      case Record(_) =>
        var compiled := CompileRecord(value, definition);
        r := if compiled.Err? then Err(compiled.error) else Ok(Record(compiled.value));
      case _ =>
        r := CompileValue(value, definition);
    }

    /** A text: a binding, or itself. */
    method CompileString(value: Value, definition: Definition) returns (r: Result<Value, WorkflowError>)
      requires value.Str?
      modifies this
      ensures r == CompileValue(value, definition)
      ensures r.Ok? ==> ids == old(ids) + NamedNodes(value)
      decreases value, 0
    {
      r := CompileText(value.text, definition);
      ids := ids + NodesOf(Bindings.Read(value.text));
    }

    method CompileList(value: Value, definition: Definition) returns (r: Result<seq<Value>, WorkflowError>)
      requires value.List?
      modifies this
      ensures r == CompileItems(value, 0, definition)
      ensures r.Ok? ==> ids == old(ids) + NamedNodes(value)
      decreases value, 0
    {
      var done: seq<Value> := [];
      var i := 0;
      BeforeNothing(CompileItems(value, 0, definition));
      while i < |value.items|
        invariant 0 <= i <= |value.items|
        invariant CompileItems(value, 0, definition) == Before(done, CompileItems(value, i, definition))
        invariant ids == old(ids) + NamedBefore(value, i)
      {
        var item := Compile(value.items[i], definition);
        if item.Err? {
          return Err(item.error);
        }
        BeforeNext(done, item.value, CompileItems(value, i + 1, definition));
        NamedBeforeNext(value, i);
        done := done + [item.value];
        i := i + 1;
      }
      assert done + [] == done;
      assert NamedBefore(value, i) == NamedNodes(value);
      r := Ok(done);
    }

    method CompileRecord(value: Value, definition: Definition) returns (r: Result<map<string, Value>, WorkflowError>)
      requires value.Record?
      modifies this
      ensures r == CompileFields(value, Ascending(value.fields.Keys), 0, definition)
      ensures r.Ok? ==> ids == old(ids) + NamedNodes(value)
      decreases value, 2
    {
      var keys := Ascending(value.fields.Keys);
      r := CompileKeys(value, keys, definition);
    }

    /** One field: its compiled value joins those before it. */
    method CompileKey(value: Value, keys: seq<string>, i: nat, done: map<string, Value>, definition: Definition,
                      ghost before: set<string>)
      returns (r: Result<map<string, Value>, WorkflowError>)
      requires value.Record? && AreKeys(value, keys) && i < |keys| && IsBetween(value, keys, i, done, before, ids, definition)
      modifies this
      ensures r.Err? ==> r == CompileFields(value, keys, 0, definition)
      ensures r.Ok? ==> IsBetween(value, keys, i + 1, r.value, before, ids, definition)
      decreases value, 0
    {
      KeyAt(value, keys, i);
      NamedUnderNext(value, keys, i);
      FieldStep(value, keys, i, done, definition);
      var field := Compile(value.fields[keys[i]], definition);
      r := if field.Err? then Err(field.error) else Ok(done[keys[i] := field.value]);
      assert ids == old(ids) + NamedNodes(value.fields[keys[i]]) ==> ids == before + NamedUnder(value, keys, i + 1);
    }

    method CompileKeys(value: Value, keys: seq<string>, definition: Definition)
      returns (r: Result<map<string, Value>, WorkflowError>)
      requires value.Record? && AreKeys(value, keys)
      modifies this
      ensures r == CompileFields(value, keys, 0, definition)
      ensures r.Ok? ==> ids == old(ids) + NamedNodes(value)
      decreases value, 1
    {
      var done: map<string, Value> := map[];
      var i := 0;
      ghost var before := ids;
      AtFirst(value, keys, ids, definition);
      while i < |keys|
        invariant 0 <= i <= |keys|
        invariant IsBetween(value, keys, i, done, before, ids, definition)
      {
        r := CompileKey(value, keys, i, done, definition, before);
        if r.Err? {
          return;
        }
        done := r.value;
        i := i + 1;
      }
      AtLast(value, keys, done, before, ids, definition);
      r := Ok(done);
    }
  }

  /** With `i` fields compiled: what remains decides the record, and their nodes have been added. */
  ghost predicate IsBetween(value: Value, keys: seq<string>, i: nat, done: map<string, Value>, before: set<string>,
                            ids: set<string>, definition: Definition)
    requires value.Record? && AreKeys(value, keys) && i <= |keys|
  {
    && CompileFields(value, keys, 0, definition) == Under(done, CompileFields(value, keys, i, definition))
    && ids == before + NamedUnder(value, keys, i)
  }

  lemma AtFirst(value: Value, keys: seq<string>, ids: set<string>, definition: Definition)
    requires value.Record? && AreKeys(value, keys)
    ensures IsBetween(value, keys, 0, map[], ids, ids, definition)
  {
    UnderNothing(CompileFields(value, keys, 0, definition));
    assert NamedUnder(value, keys, 0) == {};
  }

  lemma AtLast(value: Value, keys: seq<string>, done: map<string, Value>, before: set<string>, ids: set<string>,
               definition: Definition)
    requires value.Record? && AreKeys(value, keys) && IsBetween(value, keys, |keys|, done, before, ids, definition)
    ensures CompileFields(value, keys, 0, definition) == Ok(done) && ids == before + NamedNodes(value)
  {
    NamedUnderAll(value, keys);
    UnderNothing(Ok(done));
  }

  /** What one more field does to the fields compiled so far. */
  lemma FieldStep(value: Value, keys: seq<string>, i: nat, done: map<string, Value>, definition: Definition)
    requires value.Record? && i < |keys| && Elements(keys) <= value.fields.Keys
    requires keys[i] in value.fields && keys[i] !in keys[i + 1..]
    ensures var field := CompileValue(value.fields[keys[i]], definition);
            Under(done, CompileFields(value, keys, i, definition))
            == if field.Err? then Err(field.error)
               else Under(done[keys[i] := field.value], CompileFields(value, keys, i + 1, definition))
  {
    var field := CompileValue(value.fields[keys[i]], definition);
    if field.Ok? {
      UnderNext(done, keys[i], field.value, CompileFields(value, keys, i + 1, definition), keys[i + 1..]);
    }
  }

  ghost predicate AreKeys(value: Value, keys: seq<string>)
    requires value.Record?
  {
    StrictlySorted(keys) && Elements(keys) == value.fields.Keys
  }

  ghost function NamedBefore(value: Value, i: nat): set<string>
    requires value.List? && i <= |value.items|
  {
    set j, n | 0 <= j < i && n in NamedNodes(value.items[j]) :: n
  }

  lemma NamedBeforeNext(value: Value, i: nat)
    requires value.List? && i < |value.items|
    ensures NamedBefore(value, i + 1) == NamedBefore(value, i) + NamedNodes(value.items[i])
  {
  }

  ghost function NamedUnder(value: Value, keys: seq<string>, i: nat): set<string>
    requires value.Record? && i <= |keys|
  {
    set j, n | 0 <= j < i && keys[j] in value.fields && n in NamedNodes(value.fields[keys[j]]) :: n
  }

  lemma NamedUnderAll(value: Value, keys: seq<string>)
    requires value.Record? && AreKeys(value, keys)
    ensures NamedUnder(value, keys, |keys|) == NamedNodes(value)
  {
    forall n | n in NamedNodes(value)
      ensures n in NamedUnder(value, keys, |keys|)
    {
      var k :| k in value.fields && n in NamedNodes(value.fields[k]);
      assert k in Elements(keys);
      var j :| 0 <= j < |keys| && keys[j] == k;
    }
  }

  lemma NamedUnderNext(value: Value, keys: seq<string>, i: nat)
    requires value.Record? && i < |keys| && keys[i] in value.fields
    ensures NamedUnder(value, keys, i + 1) == NamedUnder(value, keys, i) + NamedNodes(value.fields[keys[i]])
  {
  }

  lemma KeyAt(value: Value, keys: seq<string>, i: nat)
    requires value.Record? && AreKeys(value, keys) && i < |keys|
    ensures keys[i] in value.fields && keys[i] !in keys[i + 1..]
  {
    assert keys[i] in Elements(keys);
    if keys[i] in keys[i + 1..] {
      var j :| 0 <= j < |keys[i + 1..]| && keys[i + 1..][j] == keys[i];
      SortedIsDistinct(keys, i, i + 1 + j);
    }
  }

  ghost function Before(done: seq<Value>, rest: Result<seq<Value>, WorkflowError>): Result<seq<Value>, WorkflowError> {
    if rest.Err? then rest else Ok(done + rest.value)
  }

  ghost function Under(done: map<string, Value>, rest: Result<map<string, Value>, WorkflowError>)
    : Result<map<string, Value>, WorkflowError>
  {
    if rest.Err? then rest else Ok(done + rest.value)
  }

  lemma UnderNext(done: map<string, Value>, key: string, value: Value,
                  rest: Result<map<string, Value>, WorkflowError>, keys: seq<string>)
    requires rest.Ok? ==> rest.value.Keys == Elements(keys)
    requires key !in keys
    ensures rest.Ok? ==> done + rest.value[key := value] == done[key := value] + rest.value
  {
  }

  lemma UnderNothing(rest: Result<map<string, Value>, WorkflowError>)
    ensures Under(map[], rest) == rest
    ensures rest.Ok? ==> Under(rest.value, Ok(map[])) == rest
  {
    if rest.Ok? {
      assert map[] + rest.value == rest.value && rest.value + map[] == rest.value;
    }
  }

  lemma BeforeNothing(rest: Result<seq<Value>, WorkflowError>)
    ensures Before([], rest) == rest
  {
    if rest.Ok? {
      assert [] + rest.value == rest.value;
    }
  }

  lemma BeforeNext(done: seq<Value>, item: Value, rest: Result<seq<Value>, WorkflowError>)
    ensures rest.Ok? ==> done + ([item] + rest.value) == done + [item] + rest.value
  {
  }

  // ------------------------------------------------------------- the nodes

  function CompileNode(id: string, definition: Definition): Result<CompiledNode, WorkflowError>
    requires id in definition.nodes
  {
    var node := definition.nodes[id];
    var needed := Elements(node.needs);
    if !(needed <= definition.nodes.Keys) then Err(MissingReference)
    else
      var arguments := CompileValue(Record(node.arguments), definition);
      if arguments.Err? then Err(arguments.error)
      else
        var named := NamedNodes(Record(node.arguments));
        Ok(CompiledNode(id, node.server, node.tool, arguments.value, node.outputs,
                        Ascending(needed), Ascending(named), Ascending(needed + named)))
  }

  /** What each authored node depends on: the nodes it needs and the nodes its bindings name. */
  ghost function DependencyGraph(definition: Definition): Graph {
    map id | id in definition.nodes
      :: Elements(definition.nodes[id].needs) + NamedNodes(Record(definition.nodes[id].arguments))
  }

  /** The error of the first node, from `start` on, that does not compile. */
  function FirstFailure(definition: Definition, ids: seq<string>, start: nat): Option<WorkflowError>
    requires start <= |ids|
  {
    FirstSome(ids, start, (id: string) => FailureOf(id, definition))
  }

  function FailureOf(id: string, definition: Definition): Option<WorkflowError> {
    if id !in definition.nodes then None
    else
      var node := CompileNode(id, definition);
      if node.Err? then Some(node.error) else None
  }

  /** The compiled nodes, in the least dependency order of the authored graph. */
  ghost predicate IsCompilation(definition: Definition, workflow: Workflow) {
    && workflow.inputs == definition.inputs
    && IsLexLeastOrder(DependencyGraph(definition), NodeIds(workflow.nodes))
    && forall i :: 0 <= i < |workflow.nodes| ==> IsCompiled(definition, workflow.nodes[i])
  }

  ghost predicate IsCompiled(definition: Definition, node: CompiledNode) {
    node.id in definition.nodes && CompileNode(node.id, definition) == Ok(node)
  }

  function NodeIds(nodes: seq<CompiledNode>): (ids: seq<string>)
    ensures |ids| == |nodes| && forall i :: 0 <= i < |nodes| ==> ids[i] == nodes[i].id
  {
    seq(|nodes|, i requires 0 <= i < |nodes| => nodes[i].id)
  }

  /** Compiling a value checks that every node it names exists. */
  lemma {:induction false} NamedNodesExist(value: Value, definition: Definition)
    requires CompileValue(value, definition).Ok?
    ensures NamedNodes(value) <= definition.nodes.Keys
    decreases value
  {
    match value
    case Str(_) =>
    case List(items) =>
      forall i | 0 <= i < |items|
        ensures NamedNodes(items[i]) <= definition.nodes.Keys
      {
        ItemCompiles(value, 0, i, definition);
        NamedNodesExist(items[i], definition);
      }
    case Record(fields) =>
      var keys := Ascending(fields.Keys);
      forall k | k in fields
        ensures NamedNodes(fields[k]) <= definition.nodes.Keys
      {
        assert k in Elements(keys);
        var j :| 0 <= j < |keys| && keys[j] == k;
        FieldCompiles(value, keys, 0, j, definition);
        NamedNodesExist(fields[k], definition);
      }
    case _ =>
  }

  lemma {:induction false} ItemCompiles(value: Value, start: nat, i: nat, definition: Definition)
    requires value.List? && start <= i < |value.items|
    requires CompileItems(value, start, definition).Ok?
    ensures CompileValue(value.items[i], definition) == Ok(CompileItems(value, start, definition).value[i - start])
    decreases i - start
  {
    if start < i {
      ItemCompiles(value, start + 1, i, definition);
    }
  }

  lemma {:induction false} FieldCompiles(value: Value, keys: seq<string>, start: nat, i: nat, definition: Definition)
    requires value.Record? && StrictlySorted(keys) && Elements(keys) <= value.fields.Keys && start <= i < |keys|
    requires CompileFields(value, keys, start, definition).Ok?
    ensures keys[i] in value.fields && keys[i] in CompileFields(value, keys, start, definition).value
    ensures CompileValue(value.fields[keys[i]], definition)
         == Ok(CompileFields(value, keys, start, definition).value[keys[i]])
    decreases i - start
  {
    assert keys[i] in Elements(keys) && keys[i] in keys[start..];
    if start < i {
      FieldCompiles(value, keys, start + 1, i, definition);
      SortedIsDistinct(keys, start, i);
    }
  }

  // --------------------------------------- what a compiled node is made of

  /** The text stands somewhere in the value, at any depth. */
  ghost predicate HasText(value: Value, text: string) {
    match value
    case Str(t) => t == text
    case List(items) => exists i :: 0 <= i < |items| && HasText(items[i], text)
    case Record(fields) => exists k :: k in fields && HasText(fields[k], text)
    case _ => false
  }

  /** The output pattern matches the text with this node, and the input pattern does not match it. */
  ghost predicate RefersTo(text: string, node: string) {
    && (exists output, path :: Bindings.MatchesOutput(text, node, output, path))
    && forall name :: !Bindings.InputPattern(text, name)
  }

  ghost predicate Mentions(value: Value, node: string) {
    exists text :: HasText(value, text) && RefersTo(text, node)
  }

  lemma ReadsAsReference(text: string, node: string)
    ensures node in NodesOf(Bindings.Read(text)) <==> RefersTo(text, node)
  {
    if node in NodesOf(Bindings.Read(text)) {
      var Output(_, output, path) := Bindings.Read(text).source;
      Bindings.OutputIffPattern(text, node, output, path);
    }
    if RefersTo(text, node) {
      var output, path :| Bindings.MatchesOutput(text, node, output, path);
      Bindings.OutputIffPattern(text, node, output, path);
    }
  }

  /** The nodes collected are those that a text at some depth refers to. */
  lemma {:induction false} NamedIffMentioned(value: Value, node: string)
    ensures node in NamedNodes(value) <==> Mentions(value, node)
    decreases value
  {
    match value
    case Str(text) =>
      ReadsAsReference(text, node);
      assert HasText(value, text);
    case List(items) =>
      forall i | 0 <= i < |items|
        ensures node in NamedNodes(items[i]) <==> Mentions(items[i], node)
      {
        NamedIffMentioned(items[i], node);
      }
      ItemMentions(value, node);
    case Record(fields) =>
      forall k | k in fields
        ensures node in NamedNodes(fields[k]) <==> Mentions(fields[k], node)
      {
        NamedIffMentioned(fields[k], node);
      }
      FieldMentions(value, node);
    case _ =>
  }

  lemma ItemMentions(value: Value, node: string)
    requires value.List?
    ensures Mentions(value, node) <==> exists i :: 0 <= i < |value.items| && Mentions(value.items[i], node)
  {
    if Mentions(value, node) {
      var text :| HasText(value, text) && RefersTo(text, node);
      var i :| 0 <= i < |value.items| && HasText(value.items[i], text);
      assert Mentions(value.items[i], node);
    }
    if i :| 0 <= i < |value.items| && Mentions(value.items[i], node) {
      var text :| HasText(value.items[i], text) && RefersTo(text, node);
      assert HasText(value, text);
    }
  }

  lemma FieldMentions(value: Value, node: string)
    requires value.Record?
    ensures Mentions(value, node) <==> exists k :: k in value.fields && Mentions(value.fields[k], node)
  {
    if Mentions(value, node) {
      var text :| HasText(value, text) && RefersTo(text, node);
      var k :| k in value.fields && HasText(value.fields[k], text);
      assert Mentions(value.fields[k], node);
    }
    if k :| k in value.fields && Mentions(value.fields[k], node) {
      var text :| HasText(value.fields[k], text) && RefersTo(text, node);
      assert HasText(value, text);
    }
  }

  /** Explicit dependencies are the authored needs, inferred ones the nodes that texts refer to; the rest is copied. */
  ghost predicate CarriesAuthored(definition: Definition, node: CompiledNode) {
    && node.id in definition.nodes
    && var authored := definition.nodes[node.id];
    && node.server == authored.server && node.tool == authored.tool && node.outputs == authored.outputs
    && StrictlySorted(node.explicitDependencies) && Elements(node.explicitDependencies) == Elements(authored.needs)
    && StrictlySorted(node.inferredDependencies)
    && (forall n :: n in node.inferredDependencies <==> Mentions(Record(authored.arguments), n))
    && StrictlySorted(node.dependencies)
    && forall n :: n in node.dependencies <==> n in authored.needs || Mentions(Record(authored.arguments), n)
  }

  lemma CompiledCarriesAuthored(definition: Definition, node: CompiledNode)
    requires IsCompiled(definition, node)
    ensures CarriesAuthored(definition, node)
  {
    var authored := definition.nodes[node.id];
    var arguments := Record(authored.arguments);
    forall n
      ensures n in node.explicitDependencies <==> n in authored.needs
      ensures n in node.inferredDependencies <==> Mentions(arguments, n)
      ensures n in node.dependencies <==> n in authored.needs || Mentions(arguments, n)
    {
      NamedIffMentioned(arguments, n);
      CompiledLists(definition, node, n);
    }
    assert Elements(node.explicitDependencies) == Elements(authored.needs);
  }

  lemma CompiledLists(definition: Definition, node: CompiledNode, n: string)
    requires IsCompiled(definition, node)
    ensures var authored := definition.nodes[node.id];
            && (n in node.explicitDependencies <==> n in authored.needs)
            && (n in node.inferredDependencies <==> n in NamedNodes(Record(authored.arguments)))
            && (n in node.dependencies <==> n in authored.needs || n in NamedNodes(Record(authored.arguments)))
  {
    assert n in node.explicitDependencies <==> n in Elements(node.explicitDependencies);
    assert n in node.inferredDependencies <==> n in Elements(node.inferredDependencies);
    assert n in node.dependencies <==> n in Elements(node.dependencies);
  }

  lemma CompilationCarriesAuthored(definition: Definition, nodes: seq<CompiledNode>)
    requires forall i :: 0 <= i < |nodes| ==> IsCompiled(definition, nodes[i])
    ensures forall i :: 0 <= i < |nodes| ==> CarriesAuthored(definition, nodes[i])
  {
    forall i | 0 <= i < |nodes|
      ensures CarriesAuthored(definition, nodes[i])
    {
      CompiledCarriesAuthored(definition, nodes[i]);
    }
  }

  /** Compiles every node in id order, then orders them. */
  method CompileWorkflow(definition: Definition) returns (r: Result<Workflow, WorkflowError>)
    ensures FirstFailure(definition, Ascending(definition.nodes.Keys), 0).Some? ==>
              r == Err(FirstFailure(definition, Ascending(definition.nodes.Keys), 0).value)
    ensures FirstFailure(definition, Ascending(definition.nodes.Keys), 0).None? ==>
              (r.Ok? <==> !HasCycle(DependencyGraph(definition)))
    ensures r.Ok? ==> IsCompilation(definition, r.value)
    ensures r.Ok? ==> forall i :: 0 <= i < |r.value.nodes| ==> CarriesAuthored(definition, r.value.nodes[i])
    ensures r.Err? && r.error.Cycle? ==> StrictlySorted(r.error.ids)
    ensures r.Err? && r.error.Cycle? ==>
              forall n :: n in r.error.ids <==> n in definition.nodes && ReachesCycle(DependencyGraph(definition), n)
  {
    var ids := Ascending(definition.nodes.Keys);
    var nodes := CompileAll(definition, ids);
    if nodes.Err? {
      return Err(nodes.error);
    }
    CompiledGraph(definition, ids, nodes.value);
    var order := Order(nodes.value);
    if order.Err? {
      return Err(Cycle(order.error));
    }
    var sorted := Arrange(definition, ids, nodes.value, order.value);
    ArrangedIds(definition, order.value, sorted);
    CompilationCarriesAuthored(definition, sorted);
    r := Ok(Workflow(definition.inputs, sorted));
  }

  lemma ArrangedIds(definition: Definition, order: seq<string>, sorted: seq<CompiledNode>)
    requires |sorted| == |order| && CompiledPrefix(definition, order, sorted)
    ensures NodeIds(sorted) == order
    ensures forall i :: 0 <= i < |sorted| ==> IsCompiled(definition, sorted[i])
  {
    forall i | 0 <= i < |sorted|
      ensures NodeIds(sorted)[i] == order[i] && IsCompiled(definition, sorted[i])
    {
      assert CompiledAt(definition, order, sorted, i);
    }
  }

  /** `nodes` are the compiled nodes of the first `ids`. */
  ghost predicate CompiledPrefix(definition: Definition, ids: seq<string>, nodes: seq<CompiledNode>) {
    |nodes| <= |ids| && forall j :: 0 <= j < |nodes| ==> CompiledAt(definition, ids, nodes, j)
  }

  ghost predicate CompiledAt(definition: Definition, ids: seq<string>, nodes: seq<CompiledNode>, j: nat)
    requires j < |nodes| <= |ids|
  {
    nodes[j].id == ids[j] && IsCompiled(definition, nodes[j])
  }

  lemma CompiledNext(definition: Definition, ids: seq<string>, nodes: seq<CompiledNode>, node: CompiledNode)
    requires CompiledPrefix(definition, ids, nodes) && |nodes| < |ids|
    requires node.id == ids[|nodes|] && IsCompiled(definition, node)
    ensures CompiledPrefix(definition, ids, nodes + [node])
  {
    var longer := nodes + [node];
    forall j | 0 <= j < |longer|
      ensures CompiledAt(definition, ids, longer, j)
    {
      assert j < |nodes| ==> CompiledAt(definition, ids, nodes, j);
    }
  }

  method CompileAll(definition: Definition, ids: seq<string>) returns (r: Result<seq<CompiledNode>, WorkflowError>)
    requires Elements(ids) <= definition.nodes.Keys
    ensures r.Err? ==> FirstFailure(definition, ids, 0) == Some(r.error) && !r.error.Cycle?
    ensures r.Ok? ==> FirstFailure(definition, ids, 0) == None
    ensures r.Ok? ==> |r.value| == |ids| && CompiledPrefix(definition, ids, r.value)
  {
    var nodes: seq<CompiledNode> := [];
    for i := 0 to |ids|
      invariant |nodes| == i && CompiledPrefix(definition, ids, nodes)
      invariant FirstFailure(definition, ids, 0) == FirstFailure(definition, ids, i)
    {
      assert ids[i] in Elements(ids);
      var node := CompileOne(ids[i], definition);
      if node.Err? {
        return Err(node.error);
      }
      CompiledNext(definition, ids, nodes, node.value);
      nodes := nodes + [node.value];
    }
    r := Ok(nodes);
  }

  /** `requireNode` for every explicit dependency. */
  method NeedsExist(needed: seq<string>, definition: Definition) returns (exist: bool)
    ensures exist <==> Elements(needed) <= definition.nodes.Keys
  {
    for i := 0 to |needed|
      invariant forall j :: 0 <= j < i ==> needed[j] in definition.nodes
    {
      if needed[i] !in definition.nodes {
        assert needed[i] in Elements(needed);
        return false;
      }
    }
    exist := true;
  }

  /** One node: explicit dependencies are checked first, then the arguments are walked. */
  method CompileOne(id: string, definition: Definition) returns (r: Result<CompiledNode, WorkflowError>)
    requires id in definition.nodes
    ensures r == CompileNode(id, definition)
    ensures r.Ok? ==> CarriesAuthored(definition, r.value)
    ensures r.Err? ==> !r.error.Cycle?
  {
    var node := definition.nodes[id];
    var needed := Ascending(Elements(node.needs));
    var exist := NeedsExist(needed, definition);
    if !exist {
      return Err(MissingReference);
    }
    NoCycleYet(Record(node.arguments), definition);
    var inferred := new Inferred();
    var arguments := inferred.Compile(Record(node.arguments), definition);
    if arguments.Err? {
      return Err(arguments.error);
    }
    ghost var named := NamedNodes(Record(node.arguments));
    assert inferred.ids == named;
    assert Elements(needed) + inferred.ids == Elements(node.needs) + named;
    r := Ok(CompiledNode(id, node.server, node.tool, arguments.value, node.outputs,
                         needed, Ascending(inferred.ids), Ascending(Elements(needed) + inferred.ids)));
    CompiledCarriesAuthored(definition, r.value);
  }

  /** Only the ordering step reports cycles. */
  lemma {:induction false} NoCycleYet(value: Value, definition: Definition)
    ensures CompileValue(value, definition).Err? ==> !CompileValue(value, definition).error.Cycle?
    decreases value
  {
    match value
    case List(items) =>
      NoCycleInItems(value, 0, definition);
    case Record(fields) =>
      NoCycleInFields(value, Ascending(fields.Keys), 0, definition);
    case _ =>
  }

  lemma {:induction false} NoCycleInItems(value: Value, start: nat, definition: Definition)
    requires value.List? && start <= |value.items|
    ensures CompileItems(value, start, definition).Err? ==> !CompileItems(value, start, definition).error.Cycle?
    decreases value, |value.items| - start
  {
    if start < |value.items| {
      NoCycleYet(value.items[start], definition);
      NoCycleInItems(value, start + 1, definition);
    }
  }

  lemma {:induction false} NoCycleInFields(value: Value, keys: seq<string>, start: nat, definition: Definition)
    requires value.Record? && Elements(keys) <= value.fields.Keys && start <= |keys|
    ensures CompileFields(value, keys, start, definition).Err? ==>
              !CompileFields(value, keys, start, definition).error.Cycle?
    decreases value, |keys| - start
  {
    if start < |keys| {
      assert keys[start] in Elements(keys);
      NoCycleYet(value.fields[keys[start]], definition);
      NoCycleInFields(value, keys, start + 1, definition);
    }
  }

  /** A compiled node depends on exactly what its authored node names. */
  lemma CompiledDependencies(definition: Definition, node: CompiledNode)
    requires IsCompiled(definition, node)
    ensures StrictlySorted(node.dependencies)
    ensures Elements(node.dependencies) == DependencyGraph(definition)[node.id]
    ensures Elements(node.dependencies) <= definition.nodes.Keys
  {
    NamedNodesExist(Record(definition.nodes[node.id].arguments), definition);
  }

  /** The compiled nodes carry the authored dependency graph. */
  lemma CompiledGraph(definition: Definition, ids: seq<string>, nodes: seq<CompiledNode>)
    requires StrictlySorted(ids) && Elements(ids) == definition.nodes.Keys
    requires |nodes| == |ids| && CompiledPrefix(definition, ids, nodes)
    ensures DistinctIds(nodes) && GraphOf(nodes) == DependencyGraph(definition) && Closed(GraphOf(nodes))
    ensures forall i :: 0 <= i < |nodes| ==> StrictlySorted(nodes[i].dependencies)
  {
    PrefixDistinct(definition, ids, nodes);
    forall i | 0 <= i < |nodes|
      ensures EntryAgrees(definition, nodes[i])
    {
      assert CompiledAt(definition, ids, nodes, i);
      CompiledDependencies(definition, nodes[i]);
    }
    SameIds(definition, ids, nodes);
    RepresentsAuthored(definition, nodes);
    GraphRepresents(nodes);
    RepresentedGraphIsUnique(GraphOf(nodes), DependencyGraph(definition), nodes);
  }

  ghost predicate EntryAgrees(definition: Definition, node: CompiledNode) {
    && node.id in definition.nodes
    && Elements(node.dependencies) == DependencyGraph(definition)[node.id]
    && Elements(node.dependencies) <= definition.nodes.Keys
    && StrictlySorted(node.dependencies)
  }

  lemma RepresentsAuthored(definition: Definition, nodes: seq<CompiledNode>)
    requires forall i :: 0 <= i < |nodes| ==> EntryAgrees(definition, nodes[i])
    requires forall n :: n in definition.nodes ==> exists i :: 0 <= i < |nodes| && nodes[i].id == n
    ensures Represents(DependencyGraph(definition), nodes) && Closed(DependencyGraph(definition))
    ensures forall i :: 0 <= i < |nodes| ==> StrictlySorted(nodes[i].dependencies)
  {
    var h := DependencyGraph(definition);
    assert h.Keys == definition.nodes.Keys;
    forall i | 0 <= i < |nodes|
      ensures nodes[i].id in h && h[nodes[i].id] == Elements(nodes[i].dependencies)
      ensures StrictlySorted(nodes[i].dependencies)
    {
      assert EntryAgrees(definition, nodes[i]);
    }
    forall n | n in h
      ensures h[n] <= h.Keys
    {
      var i :| 0 <= i < |nodes| && nodes[i].id == n;
      assert EntryAgrees(definition, nodes[i]);
    }
  }

  lemma PrefixDistinct(definition: Definition, ids: seq<string>, nodes: seq<CompiledNode>)
    requires StrictlySorted(ids) && CompiledPrefix(definition, ids, nodes)
    ensures DistinctIds(nodes)
  {
    forall i, j | 0 <= i < j < |nodes|
      ensures nodes[i].id != nodes[j].id
    {
      assert CompiledAt(definition, ids, nodes, i) && CompiledAt(definition, ids, nodes, j);
      SortedIsDistinct(ids, i, j);
    }
  }

  lemma SameIds(definition: Definition, ids: seq<string>, nodes: seq<CompiledNode>)
    requires Elements(ids) == definition.nodes.Keys
    requires |nodes| == |ids| && CompiledPrefix(definition, ids, nodes)
    ensures forall n :: n in definition.nodes ==> exists i :: 0 <= i < |nodes| && nodes[i].id == n
  {
    forall n | n in definition.nodes
      ensures exists i :: 0 <= i < |nodes| && nodes[i].id == n
    {
      assert n in Elements(ids);
      var j :| 0 <= j < |ids| && ids[j] == n;
      assert CompiledAt(definition, ids, nodes, j);
    }
  }

  function ById(nodes: seq<CompiledNode>): (byId: map<string, CompiledNode>)
    requires DistinctIds(nodes)
    ensures forall j :: 0 <= j < |nodes| ==> nodes[j].id in byId && byId[nodes[j].id] == nodes[j]
  {
    map j | 0 <= j < |nodes| :: nodes[j].id := nodes[j]
  }

  /** `orderedIds.map((id) => compiledById.get(id)!)` */
  method Arrange(definition: Definition, ghost ids: seq<string>, nodes: seq<CompiledNode>, order: seq<string>)
    returns (sorted: seq<CompiledNode>)
    requires DistinctIds(nodes) && |nodes| == |ids| && CompiledPrefix(definition, ids, nodes)
    requires Elements(order) == Elements(ids)
    ensures |sorted| == |order| && CompiledPrefix(definition, order, sorted)
  {
    var byId := ById(nodes);
    sorted := [];
    for i := 0 to |order|
      invariant |sorted| == i && CompiledPrefix(definition, order, sorted)
    {
      assert order[i] in Elements(ids);
      ghost var j :| 0 <= j < |ids| && ids[j] == order[i];
      assert CompiledAt(definition, ids, nodes, j);
      CompiledNext(definition, order, sorted, byId[order[i]]);
      sorted := sorted + [byId[order[i]]];
    }
  }
}
