/** What authored records of the compiled shape do to a run. */
module ForgedBindings {
  import opened Text
  import opened JsonValues
  import opened WorkflowModel
  import opened TopologicalOrder
  import opened ResultPaths
  import opened WorkflowCompiler
  import opened WorkflowExecutor
  import opened WorkflowRuns
  import opened WorkflowAgreement
  import Bindings

  /** A record that is no binding as authored, because its source is a text, still becomes one:
      it names no node, yet resolving it always fails for want of outputs. */
  lemma TextSourceNeverResolves(value: Value, definition: Definition, outputs: Outputs, inputs: map<string, Value>)
    requires Forged(value) && value.fields["source"].Str? && CompileValue(value, definition).Ok?
    ensures !IsBinding(value)
    ensures Resolve(CompileValue(value, definition).value, outputs, inputs) == Err(NoOutputs)
  {
    MistakenIffForged(value, definition);
    CompiledFields(value, definition);
    var source := value.fields["source"];
    TextSourceIsRecord(source.text, definition, outputs, inputs);
    assert CompileValue(source, definition) == CompileText(source.text, definition);
  }

  lemma TextSourceIsRecord(text: string, definition: Definition, outputs: Outputs, inputs: map<string, Value>)
    requires Bindings.Read(text).Binding? && CompileText(text, definition).Ok?
    ensures CompileText(text, definition).value.Record?
    ensures ResolveBinding(CompileText(text, definition).value.fields, outputs, inputs) == Err(NoOutputs)
  {
    TextSourceFields(text, definition);
  }

  /** A node whose arguments are a forged reference to another node, without depending on it. */
  ghost predicate ReadsWithoutDepending(reader: CompiledNode, read: CompiledNode) {
    && reader.id != read.id && reader.dependencies == [] && read.dependencies == []
    && exists expression, output, kind ::
         reader.arguments == BindingRecord(expression, OutputSource(read.id, output, [], kind))
  }

  /** Then both orders of the two nodes are schedules, and they agree on the reader exactly when the other node
      does not succeed: the reader resolves its arguments only if it happens to run second. */
  lemma ForgedReferenceDependsOnOrder(reader: CompiledNode, read: CompiledNode, inputs: map<string, Value>, tool: Tool)
    requires ReadsWithoutDepending(reader, read)
    ensures Scheduled([read, reader]) && Scheduled([reader, read])
    ensures var second := Run([read, reader], inputs, Repeatable(tool)).executions;
            var first := Run([reader, read], inputs, Repeatable(tool)).executions;
            && reader.id in first && reader.id in second && read.id in second
            && first[reader.id] == Failed(None)
            && (first[reader.id] == second[reader.id] <==> !second[read.id].Succeeded?)
  {
    var world := Repeatable(tool);
    RunOfTwo(read, reader, inputs, world);
    RunOfTwo(reader, read, inputs, world);
    ForgedStep(reader, read, START, inputs, world);
    ForgedStep(reader, read, Step(START, read, inputs, world), inputs, world);
  }

  lemma RunOfTwo(a: CompiledNode, b: CompiledNode, inputs: map<string, Value>, world: World)
    requires a.id != b.id && a.dependencies == [] && b.dependencies == []
    ensures Scheduled([a, b])
    ensures var first, both := Step(START, a, inputs, world), Run([a, b], inputs, world);
            && both == Step(first, b, inputs, world)
            && a.id in both.executions && b.id in both.executions && both.executions[a.id] == first.executions[a.id]
            && (a.id in first.outputs <==> first.executions[a.id].Succeeded?)
  {
    TwoSteps(a, b, inputs, world);
    TwoAreScheduled(a, b);
    var first := Step(START, a, inputs, world);
    StepRecords(START, a, inputs, world);
    StepRecords(first, b, inputs, world);
  }

  lemma TwoSteps(a: CompiledNode, b: CompiledNode, inputs: map<string, Value>, world: World)
    ensures Run([a, b], inputs, world) == Step(Step(START, a, inputs, world), b, inputs, world)
  {
    RunAppend([], a, inputs, world);
    RunAppend([a], b, inputs, world);
    assert [] + [a] == [a] && [a] + [b] == [a, b];
  }

  lemma TwoAreScheduled(a: CompiledNode, b: CompiledNode)
    requires a.id != b.id && a.dependencies == [] && b.dependencies == []
    ensures Scheduled([a, b])
  {
  }

  /** A step records one execution, and outputs exactly if the node succeeded. */
  lemma StepRecords(state: State, node: CompiledNode, inputs: map<string, Value>, world: World)
    requires node.id !in state.outputs
    ensures var after := Step(state, node, inputs, world);
            && after.executions.Keys == state.executions.Keys + {node.id}
            && (forall id :: id in state.executions && id != node.id ==> after.executions[id] == state.executions[id])
            && (node.id in after.outputs <==> after.executions[node.id].Succeeded?)
            && after.outputs.Keys <= state.outputs.Keys + {node.id}
  {
  }

  lemma ForgedStep(reader: CompiledNode, read: CompiledNode, state: State, inputs: map<string, Value>, world: World)
    requires ReadsWithoutDepending(reader, read)
    ensures Step(state, reader, inputs, world).executions[reader.id] == Failed(None) <==> read.id !in state.outputs
  {
    var expression, output, kind :|
      reader.arguments == BindingRecord(expression, OutputSource(read.id, output, [], kind));
    assert IsBinding(reader.arguments);
    SourceFields(read.id, output, [], kind);
  }

  lemma RunAppend(nodes: seq<CompiledNode>, node: CompiledNode, inputs: map<string, Value>, world: World)
    ensures Run(nodes + [node], inputs, world) == Step(Run(nodes, inputs, world), node, inputs, world)
  {
    assert (nodes + [node])[..|nodes|] == nodes;
  }

  // ------------------------------------------------ such records compile

  /** No text at any depth contains a dollar sign, and every part is a value the compiler accepts. */
  predicate HasNoDollar(value: Value) {
    match value
    case NonFinite => false
    case Undefined => false
    case Str(text) => '$' !in text
    case List(items) => forall i :: 0 <= i < |items| ==> HasNoDollar(items[i])
    case Record(fields) => forall k :: k in fields ==> HasNoDollar(fields[k])
    case _ => true
  }

  /** Such a value compiles to itself and names no node. */
  lemma {:induction false} CompilesToItself(value: Value, definition: Definition)
    requires HasNoDollar(value)
    ensures CompileValue(value, definition) == Ok(value) && NamedNodes(value) == {}
    decreases value
  {
    NoDollarCompiles(value, definition);
    CompilesIff(value, definition);
    assert Compiles(value, definition);
    match value
    case Str(text) => Bindings.PlainWithoutDollar(text);
    case List(items) =>
      forall i | 0 <= i < |items|
        ensures IsItsOwn(items[i], definition)
      {
        CompilesToItself(items[i], definition);
      }
      OwnItems(value, definition);
    case Record(fields) =>
      forall k | k in fields
        ensures IsItsOwn(fields[k], definition)
      {
        CompilesToItself(fields[k], definition);
      }
      OwnFields(value, definition);
    case _ =>
  }

  ghost predicate IsItsOwn(value: Value, definition: Definition) {
    CompileValue(value, definition) == Ok(value) && NamedNodes(value) == {}
  }

  lemma OwnItems(value: Value, definition: Definition)
    requires value.List? && CompileValue(value, definition).Ok?
    requires forall i :: 0 <= i < |value.items| ==> IsItsOwn(value.items[i], definition)
    ensures CompileValue(value, definition) == Ok(value) && NamedNodes(value) == {}
  {
    CompiledItems(value, definition);
    var compiled := CompileValue(value, definition).value;
    forall i | 0 <= i < |value.items|
      ensures compiled.items[i] == value.items[i] && NamedNodes(value.items[i]) == {}
    {
      assert IsItsOwn(value.items[i], definition);
    }
    assert compiled.items == value.items;
  }

  lemma OwnFields(value: Value, definition: Definition)
    requires value.Record? && CompileValue(value, definition).Ok?
    requires forall k :: k in value.fields ==> IsItsOwn(value.fields[k], definition)
    ensures CompileValue(value, definition) == Ok(value) && NamedNodes(value) == {}
  {
    CompiledFields(value, definition);
    var compiled := CompileValue(value, definition).value;
    forall k | k in value.fields
      ensures compiled.fields[k] == value.fields[k] && NamedNodes(value.fields[k]) == {}
    {
      assert IsItsOwn(value.fields[k], definition);
    }
    assert compiled.fields == value.fields;
  }

  lemma {:induction false} NoDollarCompiles(value: Value, definition: Definition)
    requires HasNoDollar(value)
    ensures IsCompilable(value, definition)
    decreases value
  {
    match value
    case Str(text) => Bindings.PlainWithoutDollar(text);
    case List(items) =>
      forall i | 0 <= i < |items|
        ensures IsCompilable(items[i], definition)
      {
        NoDollarCompiles(items[i], definition);
      }
    case Record(fields) =>
      forall k | k in fields
        ensures IsCompilable(fields[k], definition)
      {
        NoDollarCompiles(fields[k], definition);
      }
    case _ =>
  }

  /** A record with a binding text as its source, as an author may write it. */
  function TextSource(source: Bindings.Source): Value {
    BindingRecord("x", Str(Bindings.Render(source)))
  }

  /** Whatever the text refers to, as long as it is declared, the record is forged and compiles. */
  lemma TextSourceIsForged(source: Bindings.Source, definition: Definition)
    requires Bindings.WellFormed(source) && !Bindings.Shadowed(source)
    requires RefersToDeclared(Bindings.Render(source), definition)
    ensures Forged(TextSource(source)) && CompileValue(TextSource(source), definition).Ok?
  {
    Bindings.RenderThenRead(source);
    TextSourceHasShape(Bindings.Render(source));
    Bindings.PlainWithoutDollar("x");
    Bindings.PlainWithoutDollar("binding");
    RecordCompilable("x", Str(Bindings.Render(source)), definition);
    CompilesIff(TextSource(source), definition);
    assert Compiles(TextSource(source), definition);
  }

  lemma TextSourceHasShape(text: string)
    requires Bindings.Read(text).Binding?
    ensures Forged(BindingRecord("x", Str(text)))
  {
    Bindings.PlainWithoutDollar("x");
  }

  lemma RecordCompilable(expression: string, source: Value, definition: Definition)
    requires RefersToDeclared("binding", definition) && RefersToDeclared(expression, definition)
    requires IsCompilable(source, definition)
    ensures IsCompilable(BindingRecord(expression, source), definition)
  {
    var fields := BindingRecord(expression, source).fields;
    assert fields.Keys == {"kind", "expression", "source"};
  }

  const ANY_OUTPUT := map["o" := OutputDefinition("o", UnknownOutput, None)]

  const REFERENCE := BindingRecord("x", OutputSource("aa", "o", [], UnknownOutput))

  /** Two nodes that need nothing; the arguments of `bb` are written as the compiled reference to `aa`. */
  const FORGING := Definition(map[], map[
    "aa" := NodeDefinition("server", "tool", [], map[], ANY_OUTPUT),
    "bb" := NodeDefinition("server", "tool", [], REFERENCE.fields, ANY_OUTPUT)])

  function Independent(id: string, arguments: Value): CompiledNode {
    CompiledNode(id, "server", "tool", arguments, ANY_OUTPUT, [], [], [])
  }

  const READ := Independent("aa", Record(map[]))

  const READER := Independent("bb", REFERENCE)

  /** The compiler accepts it, and compiles a node that reads another one without depending on it. */
  lemma ForgedReferenceCompiles()
    ensures IsCompilation(FORGING, Workflow(map[], [READ, READER]))
    ensures ReadsWithoutDepending(READER, READ)
  {
    ReadCompiles();
    ReaderCompiles();
    ForgingOrder();
    BothCompiled(FORGING, READ, READER);
    ReaderReads();
  }

  lemma ForgingOrder()
    ensures IsLexLeastOrder(DependencyGraph(FORGING), ["aa", "bb"])
  {
    ReadCompiles();
    ReaderCompiles();
    ForgingNodes();
    IndependentOrder(DependencyGraph(FORGING));
  }

  lemma ForgingNodes()
    ensures DependencyGraph(FORGING).Keys == {"aa", "bb"}
  {
    assert FORGING.nodes.Keys == {"aa", "bb"};
  }

  lemma ReaderReads()
    ensures ReadsWithoutDepending(READER, READ)
  {
    assert READER.arguments == BindingRecord("x", OutputSource(READ.id, "o", [], UnknownOutput));
  }

  lemma BothCompiled(definition: Definition, a: CompiledNode, b: CompiledNode)
    requires IsCompiled(definition, a) && IsCompiled(definition, b)
    requires IsLexLeastOrder(DependencyGraph(definition), [a.id, b.id])
    ensures IsCompilation(definition, Workflow(definition.inputs, [a, b]))
  {
    var nodes := [a, b];
    TwoIds(a, b);
    forall i | 0 <= i < |nodes|
      ensures IsCompiled(definition, nodes[i])
    {
      assert nodes[i] == if i == 0 then a else b;
    }
  }

  lemma TwoIds(a: CompiledNode, b: CompiledNode)
    ensures NodeIds([a, b]) == [a.id, b.id]
  {
  }

  /** A node without needs whose arguments are free of dollar signs compiles as it is. */
  lemma CompilesIndependent(id: string, definition: Definition)
    requires id in definition.nodes && definition.nodes[id].needs == []
    requires HasNoDollar(Record(definition.nodes[id].arguments))
    ensures var node := definition.nodes[id];
            CompileNode(id, definition)
            == Ok(CompiledNode(id, node.server, node.tool, Record(node.arguments), node.outputs, [], [], []))
    ensures DependencyGraph(definition)[id] == {}
  {
    CompilesToItself(Record(definition.nodes[id].arguments), definition);
    NothingAscending();
    assert Elements<string>([]) + {} == {};
  }

  lemma ReadCompiles()
    ensures IsCompiled(FORGING, READ) && DependencyGraph(FORGING)["aa"] == {}
  {
    assert FORGING.nodes["aa"] == NodeDefinition("server", "tool", [], map[], ANY_OUTPUT);
    CompilesIndependent("aa", FORGING);
  }

  lemma ReaderCompiles()
    ensures IsCompiled(FORGING, READER) && DependencyGraph(FORGING)["bb"] == {}
  {
    assert FORGING.nodes["bb"] == NodeDefinition("server", "tool", [], REFERENCE.fields, ANY_OUTPUT);
    ReferenceHasNoDollar();
    assert Record(REFERENCE.fields) == REFERENCE;
    CompilesIndependent("bb", FORGING);
  }

  lemma NothingAscending()
    ensures Elements<string>([]) == {} && Ascending({}) == []
  {
    SortedIsUnique(Ascending({}), []);
  }

  lemma ReferenceHasNoDollar()
    ensures HasNoDollar(REFERENCE)
  {
    SourceHasNoDollar();
    assert REFERENCE.fields.Keys == {"kind", "expression", "source"};
  }

  lemma SourceHasNoDollar()
    ensures HasNoDollar(OutputSource("aa", "o", [], UnknownOutput))
  {
    var fields := OutputSource("aa", "o", [], UnknownOutput).fields;
    assert fields["path"] == List([]);
    assert fields.Keys == {"kind", "nodeId", "output", "path", "type"};
  }

  lemma IndependentOrder(g: Graph)
    requires g.Keys == {"aa", "bb"} && g["aa"] == {} && g["bb"] == {}
    ensures IsLexLeastOrder(g, ["aa", "bb"])
  {
    var order := ["aa", "bb"];
    assert order[..0] == [] && order[..1] == ["aa"];
    assert Less("aa", "bb");
    assert Available(g, Elements(order[..0])) == {"aa", "bb"} && Available(g, Elements(order[..1])) == {"bb"};
    assert ChosenLeast(g, order, 0) && ChosenLeast(g, order, 1);
    assert PlacedAfterDependencies(g, order, 0) && PlacedAfterDependencies(g, order, 1);
    assert Elements(order) == g.Keys;
    forall other | IsTopological(g, other)
      ensures LexAtMost(order, other)
    {
      GreedyIsLexLeast(g, order, other);
    }
  }

  /** So two dependency orders of one compiled workflow disagree as soon as the tool answers with the output. */
  lemma CompiledRunsDisagree(inputs: map<string, Value>, tool: Tool)
    requires var reply := tool("server", "tool", Record(map[]));
             reply.Replied? && reply.content.Record? && "o" in reply.content.fields
             && reply.content.fields["o"] != Undefined
    ensures IsCompilation(FORGING, Workflow(map[], [READ, READER])) && Scheduled([READER, READ])
    ensures Run([READER, READ], inputs, Repeatable(tool)).executions
         != Run([READ, READER], inputs, Repeatable(tool)).executions
  {
    ForgedReferenceCompiles();
    ForgedReferenceDependsOnOrder(READER, READ, inputs, tool);
    ReadSucceeds(inputs, tool);
    RunOfTwo(READ, READER, inputs, Repeatable(tool));
  }

  lemma ReadSucceeds(inputs: map<string, Value>, tool: Tool)
    requires var reply := tool("server", "tool", Record(map[]));
             reply.Replied? && reply.content.Record? && "o" in reply.content.fields
             && reply.content.fields["o"] != Undefined
    ensures Step(START, READ, inputs, Repeatable(tool)).executions["aa"].Succeeded?
  {
    NothingAscending();
    var content := tool("server", "tool", Record(map[])).content;
    SplitPlain("o", '.');
    assert ReadPath(content, ["o"]) == Some(content.fields["o"]);
    assert SelectOutput(ANY_OUTPUT["o"], content) == Some(content.fields["o"]);
    assert ANY_OUTPUT.Keys == {"o"};
    assert Resolve(Record(map[]), START.outputs, inputs) == Ok(Record(map[]));
  }
}
