/** The compiler and the executor agree on what authored arguments mean. */
module WorkflowAgreement {
  import opened Text
  import opened JsonValues
  import opened WorkflowModel
  import opened TopologicalOrder
  import opened ResultPaths
  import opened WorkflowCompiler
  import opened WorkflowExecutor
  import opened WorkflowRuns
  import Bindings

  type Outputs = map<string, map<string, Value>>

  // ------------------------------------------------------- authored meaning

  /** What an authored text stands for once outputs and inputs are known. */
  function DenoteText(text: string, outputs: Outputs, inputs: map<string, Value>): Result<Value, ResolveError> {
    match Bindings.Read(text)
    case Plain => Ok(Str(text))
    case Malformed => Ok(Str(text))
    case Binding(Input(name)) => Ok(FieldOr(inputs, Some(name), Undefined))
    case Binding(Output(node, output, path)) =>
      if node !in outputs then Err(NoOutputs)
      else
        var value := ReadPath(FieldOr(outputs[node], Some(output), Undefined), path);
        if value.None? then Err(MissingPath) else Ok(value.value)
  }

  /** The authored value with every binding text replaced by what it stands for. */
  function Denote(value: Value, outputs: Outputs, inputs: map<string, Value>): Result<Value, ResolveError>
    decreases value
  {
    match value
    case Str(text) => DenoteText(text, outputs, inputs)
    case List(items) =>
      var denoted := DenoteItems(value, 0, outputs, inputs);
      if denoted.Err? then Err(denoted.error) else Ok(List(denoted.value))
    case Record(fields) =>
      var denoted := DenoteFields(value, Ascending(fields.Keys), 0, outputs, inputs);
      if denoted.Err? then Err(denoted.error) else Ok(Record(denoted.value))
    case _ => Ok(value)
  }

  function DenoteItems(value: Value, start: nat, outputs: Outputs, inputs: map<string, Value>): Result<seq<Value>, ResolveError>
    requires value.List? && start <= |value.items|
    decreases value, |value.items| - start + 1
  {
    if start == |value.items| then Ok([])
    else
      var head := Denote(value.items[start], outputs, inputs);
      if head.Err? then Err(head.error)
      else
        var tail := DenoteItems(value, start + 1, outputs, inputs);
        if tail.Err? then tail else Ok([head.value] + tail.value)
  }

  function DenoteFields(value: Value, keys: seq<string>, start: nat, outputs: Outputs, inputs: map<string, Value>)
    : Result<map<string, Value>, ResolveError>
    requires value.Record? && Elements(keys) <= value.fields.Keys && start <= |keys|
    decreases value, |keys| - start + 1
  {
    if start == |keys| then Ok(map[])
    else
      assert keys[start] in Elements(keys);
      var head := Denote(value.fields[keys[start]], outputs, inputs);
      if head.Err? then Err(head.error)
      else
        var tail := DenoteFields(value, keys, start + 1, outputs, inputs);
        if tail.Err? then tail else Ok(tail.value[keys[start] := head.value])
  }

  // --------------------------------------------------------- forged records

  /** An authored record whose compiled form the executor takes for a compiled binding. */
  predicate Forged(value: Value) {
    && value.Record?
    && "kind" in value.fields && value.fields["kind"] == Str("binding")
    && "expression" in value.fields && value.fields["expression"].Str?
    && Bindings.Read(value.fields["expression"].text).Plain?
    && "source" in value.fields
    && (value.fields["source"].Record?
        || (value.fields["source"].Str? && Bindings.Read(value.fields["source"].text).Binding?))
  }

  /** No record at any depth is forged. */
  predicate Unforged(value: Value) {
    match value
    case List(items) => forall i :: 0 <= i < |items| ==> Unforged(items[i])
    case Record(fields) => !Forged(value) && forall k :: k in fields ==> Unforged(fields[k])
    case _ => true
  }

  /** A compiled record has the compiled fields. */
  lemma CompiledFields(value: Value, definition: Definition)
    requires value.Record? && CompileValue(value, definition).Ok?
    ensures CompileValue(value, definition).value.Record?
    ensures CompileValue(value, definition).value.fields.Keys == value.fields.Keys
    ensures forall k :: k in value.fields ==>
              CompileValue(value.fields[k], definition) == Ok(CompileValue(value, definition).value.fields[k])
  {
    var keys := Ascending(value.fields.Keys);
    assert keys[0..] == keys;
    forall k | k in value.fields
      ensures CompileValue(value.fields[k], definition) == Ok(CompileValue(value, definition).value.fields[k])
    {
      assert k in Elements(keys);
      var j :| 0 <= j < |keys| && keys[j] == k;
      FieldCompiles(value, keys, 0, j, definition);
    }
  }

  lemma CompiledItems(value: Value, definition: Definition)
    requires value.List? && CompileValue(value, definition).Ok?
    ensures CompileValue(value, definition).value.List?
    ensures |CompileValue(value, definition).value.items| == |value.items|
    ensures forall i :: 0 <= i < |value.items| ==>
              CompileValue(value.items[i], definition) == Ok(CompileValue(value, definition).value.items[i])
  {
    forall i | 0 <= i < |value.items|
      ensures CompileValue(value.items[i], definition) == Ok(CompileValue(value, definition).value.items[i])
    {
      ItemCompiles(value, 0, i, definition);
    }
  }

  lemma CompiledText(value: Value, definition: Definition)
    requires CompileValue(value, definition).Ok?
    ensures CompileValue(value, definition).value.Str? <==> value.Str? && Bindings.Read(value.text).Plain?
    ensures CompileValue(value, definition).value.Str? ==> CompileValue(value, definition).value == value
    ensures CompileValue(value, definition).value.Record? <==>
              value.Record? || (value.Str? && Bindings.Read(value.text).Binding?)
  {
  }

  /** The executor mistakes exactly the forged records for bindings. */
  lemma MistakenIffForged(value: Value, definition: Definition)
    requires value.Record? && CompileValue(value, definition).Ok?
    ensures IsBinding(CompileValue(value, definition).value) <==> Forged(value)
  {
    CompiledFields(value, definition);
    var fields, compiled := value.fields, CompileValue(value, definition).value.fields;
    if "kind" in fields && "expression" in fields && "source" in fields {
      assert CompileValue(fields["kind"], definition) == Ok(compiled["kind"]);
      assert CompileValue(fields["expression"], definition) == Ok(compiled["expression"]);
      assert CompileValue(fields["source"], definition) == Ok(compiled["source"]);
      KindIsPlain(fields["kind"], definition);
      CompiledText(fields["expression"], definition);
      CompiledText(fields["source"], definition);
    }
  }

  lemma KindIsPlain(value: Value, definition: Definition)
    requires CompileValue(value, definition).Ok?
    ensures CompileValue(value, definition).value == Str("binding") <==> value == Str("binding")
  {
    CompiledText(value, definition);
    Bindings.PlainWithoutDollar("binding");
  }

  // ------------------------------------------------------ meaning preserved

  /** A compiled binding text resolves to what the text stands for. */
  lemma TextMeaning(text: string, definition: Definition, outputs: Outputs, inputs: map<string, Value>)
    requires CompileText(text, definition).Ok?
    ensures Resolve(CompileText(text, definition).value, outputs, inputs) == DenoteText(text, outputs, inputs)
  {
    match Bindings.Read(text)
    case Binding(Input(name)) =>
      var source := InputSource(name, definition.inputs[name]);
      assert IsBinding(BindingRecord(text, source));
      assert TextField(source.fields, "kind") == Some("workflow-input");
      assert TextField(source.fields, "input") == Some(name);
    case Binding(Output(node, output, path)) =>
      var source := OutputSource(node, output, path, definition.nodes[node].outputs[output].kind);
      assert IsBinding(BindingRecord(text, source));
      SourceFields(node, output, path, definition.nodes[node].outputs[output].kind);
    case _ =>
  }

  lemma SourceFields(node: string, output: string, path: seq<string>, kind: OutputType)
    ensures var source := OutputSource(node, output, path, kind).fields;
            TextField(source, "kind") == Some("node-output") && TextField(source, "nodeId") == Some(node)
            && TextField(source, "output") == Some(output) && PathOf(source) == Some(path)
  {
    var source := OutputSource(node, output, path, kind).fields;
    assert source["path"].List? && |source["path"].items| == |path|;
    forall v | v in source["path"].items
      ensures v.Str?
    {
    }
    assert PathOf(source).value == path;
  }

  /** Compiling and then resolving gives the meaning of the authored value. */
  lemma {:induction false} MeaningPreserved(value: Value, definition: Definition, outputs: Outputs, inputs: map<string, Value>)
    requires CompileValue(value, definition).Ok? && Unforged(value)
    ensures Resolve(CompileValue(value, definition).value, outputs, inputs) == Denote(value, outputs, inputs)
    decreases value
  {
    var compiled := CompileValue(value, definition).value;
    match value
    case Str(text) => TextMeaning(text, definition, outputs, inputs);
    case List(items) =>
      CompiledItems(value, definition);
      forall i | 0 <= i < |items|
        ensures ItemMeans(compiled, value, i, outputs, inputs)
      {
        MeaningPreserved(items[i], definition, outputs, inputs);
      }
      ItemsMeaning(value, compiled, 0, outputs, inputs);
    case Record(fields) =>
      CompiledFields(value, definition);
      MistakenIffForged(value, definition);
      forall k | k in fields
        ensures FieldMeans(compiled, value, k, outputs, inputs)
      {
        MeaningPreserved(fields[k], definition, outputs, inputs);
      }
      FieldsMeaning(value, compiled, Ascending(fields.Keys), 0, outputs, inputs);
    case _ =>
  }

  ghost predicate ItemMeans(compiled: Value, value: Value, i: nat, outputs: Outputs, inputs: map<string, Value>)
    requires value.List? && compiled.List? && i < |value.items| && i < |compiled.items|
  {
    Resolve(compiled.items[i], outputs, inputs) == Denote(value.items[i], outputs, inputs)
  }

  ghost predicate FieldMeans(compiled: Value, value: Value, k: string, outputs: Outputs, inputs: map<string, Value>)
    requires value.Record? && compiled.Record? && k in value.fields && k in compiled.fields
  {
    Resolve(compiled.fields[k], outputs, inputs) == Denote(value.fields[k], outputs, inputs)
  }

  lemma {:induction false} ItemsMeaning(value: Value, compiled: Value, start: nat, outputs: Outputs, inputs: map<string, Value>)
    requires value.List? && compiled.List? && |compiled.items| == |value.items| && start <= |value.items|
    requires forall i :: 0 <= i < |value.items| ==> ItemMeans(compiled, value, i, outputs, inputs)
    ensures ResolveItems(compiled, start, outputs, inputs) == DenoteItems(value, start, outputs, inputs)
    decreases |value.items| - start
  {
    if start < |value.items| {
      assert ItemMeans(compiled, value, start, outputs, inputs);
      ItemsMeaning(value, compiled, start + 1, outputs, inputs);
    }
  }

  ghost predicate FieldsMean(compiled: Value, value: Value, outputs: Outputs, inputs: map<string, Value>) {
    && value.Record? && compiled.Record? && compiled.fields.Keys == value.fields.Keys
    && forall k {:trigger FieldMeans(compiled, value, k, outputs, inputs)} :: k in value.fields ==>
         FieldMeans(compiled, value, k, outputs, inputs)
  }

  lemma {:induction false} FieldsMeaning(value: Value, compiled: Value, keys: seq<string>, start: nat,
                                         outputs: Outputs, inputs: map<string, Value>)
    requires FieldsMean(compiled, value, outputs, inputs)
    requires Elements(keys) <= value.fields.Keys && start <= |keys|
    ensures ResolveFields(compiled, keys, start, outputs, inputs) == DenoteFields(value, keys, start, outputs, inputs)
    decreases |keys| - start
  {
    if start < |keys| {
      FieldsMeaning(value, compiled, keys, start + 1, outputs, inputs);
      FieldsMeaningStep(value, compiled, keys, start, outputs, inputs);
    }
  }

  lemma FieldsMeaningStep(value: Value, compiled: Value, keys: seq<string>, start: nat,
                          outputs: Outputs, inputs: map<string, Value>)
    requires FieldsMean(compiled, value, outputs, inputs)
    requires Elements(keys) <= value.fields.Keys && start < |keys|
    requires ResolveFields(compiled, keys, start + 1, outputs, inputs) == DenoteFields(value, keys, start + 1, outputs, inputs)
    ensures ResolveFields(compiled, keys, start, outputs, inputs) == DenoteFields(value, keys, start, outputs, inputs)
  {
    ElementAt(keys, start, value.fields.Keys);
    assert FieldMeans(compiled, value, keys[start], outputs, inputs);
  }

  /** The text of a field that the compiler leaves a text. */
  function PlainField(fields: map<string, Value>, key: string): Option<string> {
    if TextField(fields, key).Some? && Bindings.Read(fields[key].text).Plain? then TextField(fields, key) else None
  }

  /** The node that the source of a forged record sends the executor to. */
  function SourceNodes(source: Value): set<string> {
    if source.Record? && PlainField(source.fields, "kind") != Some("workflow-input") && PlainField(source.fields, "nodeId").Some?
    then {PlainField(source.fields, "nodeId").value}
    else {}
  }

  /** The nodes whose outputs the executor looks up for an authored value, forged records included. */
  function LookedUp(value: Value): set<string> {
    if Forged(value) then SourceNodes(value.fields["source"])
    else
      match value
      case Str(text) => NodesOf(Bindings.Read(text))
      case List(items) => set i, n | 0 <= i < |items| && n in LookedUp(items[i]) :: n
      case Record(fields) => set k, n | k in fields && n in LookedUp(fields[k]) :: n
      case _ => {}
  }

  /** Whatever was authored, the executor looks up exactly these nodes for the compiled value. */
  lemma {:induction false} LookedUpIsReferenced(value: Value, definition: Definition)
    requires CompileValue(value, definition).Ok?
    ensures References(CompileValue(value, definition).value) == LookedUp(value)
    decreases value
  {
    var compiled := CompileValue(value, definition).value;
    match value
    case Str(text) => TextReferences(text, definition);
    case List(items) =>
      CompiledItems(value, definition);
      forall i | 0 <= i < |items|
        ensures References(compiled.items[i]) == LookedUp(items[i])
      {
        LookedUpIsReferenced(items[i], definition);
      }
    case Record(fields) =>
      CompiledFields(value, definition);
      MistakenIffForged(value, definition);
      if Forged(value) {
        ForgedReferences(value, definition);
      } else {
        forall k | k in fields
          ensures References(compiled.fields[k]) == LookedUp(fields[k])
        {
          LookedUpIsReferenced(fields[k], definition);
        }
      }
    case _ =>
  }

  lemma ForgedReferences(value: Value, definition: Definition)
    requires Forged(value) && CompileValue(value, definition).Ok?
    ensures References(CompileValue(value, definition).value) == SourceNodes(value.fields["source"])
  {
    CompiledFields(value, definition);
    MistakenIffForged(value, definition);
    var source := value.fields["source"];
    assert CompileValue(source, definition) == Ok(CompileValue(value, definition).value.fields["source"]);
    CompiledSource(source, definition);
  }

  lemma CompiledSource(source: Value, definition: Definition)
    requires source.Record? || (source.Str? && Bindings.Read(source.text).Binding?)
    requires CompileValue(source, definition).Ok?
    ensures CompileValue(source, definition).value.Record?
    ensures SourceReferences(CompileValue(source, definition).value.fields) == SourceNodes(source)
  {
    if source.Record? {
      CompiledTextField(source, "kind", definition);
      CompiledTextField(source, "nodeId", definition);
    } else {
      TextSourceFields(source.text, definition);
      assert CompileValue(source, definition) == CompileText(source.text, definition);
    }
  }

  /** A field of a record holds the same text after compiling if that text is plain, and no text otherwise. */
  lemma CompiledTextField(value: Value, key: string, definition: Definition)
    requires value.Record? && CompileValue(value, definition).Ok?
    ensures CompileValue(value, definition).value.Record?
    ensures TextField(CompileValue(value, definition).value.fields, key) == PlainField(value.fields, key)
  {
    CompiledFields(value, definition);
    if key in value.fields {
      CompiledText(value.fields[key], definition);
    }
  }

  /** The record that a binding text becomes is no source of a binding: it names no node. */
  lemma TextSourceFields(text: string, definition: Definition)
    requires Bindings.Read(text).Binding? && CompileText(text, definition).Ok?
    ensures CompileText(text, definition).value.Record?
    ensures var fields := CompileText(text, definition).value.fields;
            TextField(fields, "kind") == Some("binding") && TextField(fields, "nodeId") == None
  {
    assert CompileText(text, definition).value.fields.Keys == {"kind", "expression", "source"};
  }

  /** Without forged records the nodes looked up are those the compiler inferred. */
  lemma {:induction false} UnforgedLooksUpNamed(value: Value)
    requires Unforged(value)
    ensures LookedUp(value) == NamedNodes(value)
    decreases value
  {
    match value
    case List(items) =>
      forall i | 0 <= i < |items|
        ensures LookedUp(items[i]) == NamedNodes(items[i])
      {
        UnforgedLooksUpNamed(items[i]);
      }
    case Record(fields) =>
      forall k | k in fields
        ensures LookedUp(fields[k]) == NamedNodes(fields[k])
      {
        UnforgedLooksUpNamed(fields[k]);
      }
    case _ =>
  }

  /** The executor looks up exactly the nodes the compiler inferred. */
  lemma InferredIsReferenced(value: Value, definition: Definition)
    requires CompileValue(value, definition).Ok? && Unforged(value)
    ensures References(CompileValue(value, definition).value) == NamedNodes(value)
  {
    LookedUpIsReferenced(value, definition);
    UnforgedLooksUpNamed(value);
  }

  lemma TextReferences(text: string, definition: Definition)
    requires CompileText(text, definition).Ok?
    ensures References(CompileText(text, definition).value) == NodesOf(Bindings.Read(text))
  {
    match Bindings.Read(text)
    case Binding(Input(name)) =>
      var source := InputSource(name, definition.inputs[name]);
      assert IsBinding(BindingRecord(text, source));
      assert TextField(source.fields, "kind") == Some("workflow-input");
    case Binding(Output(node, output, path)) =>
      var source := OutputSource(node, output, path, definition.nodes[node].outputs[output].kind);
      assert IsBinding(BindingRecord(text, source));
      SourceFields(node, output, path, definition.nodes[node].outputs[output].kind);
    case _ =>
  }

  /** No plain text of a compiled value still contains `${`: what the executor leaves alone needed no resolving. */
  lemma {:induction false} NoLeftOverBinding(value: Value, definition: Definition)
    requires CompileValue(value, definition).Ok?
    ensures NoMarker(CompileValue(value, definition).value)
    decreases value
  {
    match value
    case Str(text) =>
      if Bindings.Read(text).Binding? {
        assert IsBinding(CompileText(text, definition).value);
      }
    case List(items) =>
      CompiledItems(value, definition);
      forall i | 0 <= i < |items|
        ensures NoMarker(CompileValue(value, definition).value.items[i])
      {
        NoLeftOverBinding(items[i], definition);
      }
    case Record(fields) =>
      CompiledFields(value, definition);
      forall k | k in fields
        ensures NoMarker(CompileValue(value, definition).value.fields[k])
      {
        NoLeftOverBinding(fields[k], definition);
      }
    case _ =>
  }

  /** Outside compiled bindings, no text contains the marker that opens a binding. */
  predicate NoMarker(value: Value) {
    IsBinding(value)
    || match value
       case Str(text) => !Contains(text, "${")
       case List(items) => forall i :: 0 <= i < |items| ==> NoMarker(items[i])
       case Record(fields) => forall k :: k in fields ==> NoMarker(fields[k])
       case _ => true
  }

  // --------------------------------------------- when arguments compile

  /** The text is plain, or it names a declared input or a declared output of an authored node. */
  predicate RefersToDeclared(text: string, definition: Definition) {
    match Bindings.Read(text)
    case Plain => true
    case Malformed => false
    case Binding(Input(name)) => name in definition.inputs
    case Binding(Output(node, output, _)) => node in definition.nodes && output in definition.nodes[node].outputs
  }

  /** At every depth, texts refer to what is declared, numbers are finite and fields are there. */
  predicate IsCompilable(value: Value, definition: Definition) {
    match value
    case NonFinite => false
    case Undefined => false
    case Str(text) => RefersToDeclared(text, definition)
    case List(items) => forall i :: 0 <= i < |items| ==> IsCompilable(items[i], definition)
    case Record(fields) => forall k :: k in fields ==> IsCompilable(fields[k], definition)
    case _ => true
  }

  predicate Compiles(value: Value, definition: Definition) {
    CompileValue(value, definition).Ok?
  }

  /** Arguments compile exactly when every part of them does, wherever it stands. */
  lemma {:induction false} CompilesIff(value: Value, definition: Definition)
    ensures Compiles(value, definition) <==> IsCompilable(value, definition)
    decreases value
  {
    match value
    case List(items) =>
      forall i | 0 <= i < |items|
        ensures Compiles(items[i], definition) <==> IsCompilable(items[i], definition)
      {
        CompilesIff(items[i], definition);
      }
      ItemsCompileIff(value, 0, definition);
    case Record(fields) =>
      forall k | k in fields
        ensures Compiles(fields[k], definition) <==> IsCompilable(fields[k], definition)
      {
        CompilesIff(fields[k], definition);
      }
      RecordCompilesIff(value, definition);
    case _ =>
  }

  lemma {:induction false} ItemsCompileIff(value: Value, start: nat, definition: Definition)
    requires value.List? && start <= |value.items|
    ensures CompileItems(value, start, definition).Ok?
            <==> forall i :: start <= i < |value.items| ==> Compiles(value.items[i], definition)
    decreases |value.items| - start
  {
    if start < |value.items| {
      ItemsCompileIff(value, start + 1, definition);
      assert Compiles(value.items[start], definition) <==> CompileValue(value.items[start], definition).Ok?;
    }
  }

  lemma {:induction false} FieldsCompileIff(value: Value, keys: seq<string>, start: nat, definition: Definition)
    requires value.Record? && Elements(keys) <= value.fields.Keys && start <= |keys|
    ensures CompileFields(value, keys, start, definition).Ok?
            <==> forall i :: start <= i < |keys| ==> FieldCompilesAt(value, keys, i, definition)
    decreases |keys| - start
  {
    if start < |keys| {
      assert keys[start] in Elements(keys);
      FieldsCompileIff(value, keys, start + 1, definition);
      assert FieldCompilesAt(value, keys, start, definition) <==> Compiles(value.fields[keys[start]], definition);
    }
  }

  predicate FieldCompilesAt(value: Value, keys: seq<string>, i: nat, definition: Definition)
    requires value.Record? && i < |keys|
  {
    keys[i] in value.fields && Compiles(value.fields[keys[i]], definition)
  }

  lemma RecordCompilesIff(value: Value, definition: Definition)
    requires value.Record?
    ensures Compiles(value, definition) <==> forall k :: k in value.fields ==> Compiles(value.fields[k], definition)
  {
    var keys := Ascending(value.fields.Keys);
    FieldsCompileIff(value, keys, 0, definition);
    EveryKeyIff(value, keys, definition);
    assert Compiles(value, definition) <==> CompileFields(value, keys, 0, definition).Ok?;
  }

  lemma EveryKeyIff(value: Value, keys: seq<string>, definition: Definition)
    requires value.Record? && Elements(keys) == value.fields.Keys
    ensures (forall i :: 0 <= i < |keys| ==> FieldCompilesAt(value, keys, i, definition))
            <==> forall k :: k in value.fields ==> Compiles(value.fields[k], definition)
  {
    if forall i :: 0 <= i < |keys| ==> FieldCompilesAt(value, keys, i, definition) {
      forall k | k in value.fields
        ensures Compiles(value.fields[k], definition)
      {
        assert k in Elements(keys);
        var i :| 0 <= i < |keys| && keys[i] == k;
        assert FieldCompilesAt(value, keys, i, definition);
      }
    }
    if forall k :: k in value.fields ==> Compiles(value.fields[k], definition) {
      forall i | 0 <= i < |keys|
        ensures FieldCompilesAt(value, keys, i, definition)
      {
        assert keys[i] in Elements(keys);
      }
    }
  }

  // -------------------------------------------------- when arguments resolve

  /** A binding into the inside of an output whose nested path is not there. */
  predicate NestedReadFails(text: string, outputs: Outputs) {
    var reading := Bindings.Read(text);
    && reading.Binding? && reading.source.Output? && reading.source.path != []
    && reading.source.node in outputs && reading.source.output in outputs[reading.source.node]
    && ReadPath(outputs[reading.source.node][reading.source.output], reading.source.path).None?
  }

  /** Such a binding occurs at some depth of the value. */
  predicate SomeNestedReadFails(value: Value, outputs: Outputs) {
    match value
    case Str(text) => NestedReadFails(text, outputs)
    case List(items) => exists i :: 0 <= i < |items| && SomeNestedReadFails(items[i], outputs)
    case Record(fields) => exists k :: k in fields && SomeNestedReadFails(fields[k], outputs)
    case _ => false
  }

  /** Every output a value reads is there. */
  predicate OutputsReady(value: Value, outputs: Outputs) {
    match value
    case Str(text) =>
      var reading := Bindings.Read(text);
      reading.Binding? && reading.source.Output? ==>
        reading.source.node in outputs && reading.source.output in outputs[reading.source.node]
    case List(items) => forall i :: 0 <= i < |items| ==> OutputsReady(items[i], outputs)
    case Record(fields) => forall k :: k in fields ==> OutputsReady(fields[k], outputs)
    case _ => true
  }

  /** With the outputs it reads in place, an argument fails exactly on a missing nested path. */
  lemma {:induction false} FailsOnlyOnNestedRead(value: Value, outputs: Outputs, inputs: map<string, Value>)
    requires OutputsReady(value, outputs)
    ensures Denote(value, outputs, inputs).Err? <==> SomeNestedReadFails(value, outputs)
    ensures Denote(value, outputs, inputs).Err? ==> Denote(value, outputs, inputs).error == MissingPath
    decreases value
  {
    match value
    case List(items) =>
      forall i | 0 <= i < |items|
        ensures FailsAsItShould(items[i], outputs, inputs)
      {
        FailsOnlyOnNestedRead(items[i], outputs, inputs);
      }
      ItemsFail(value, 0, outputs, inputs);
    case Record(fields) =>
      forall k | k in fields
        ensures FailsAsItShould(fields[k], outputs, inputs)
      {
        FailsOnlyOnNestedRead(fields[k], outputs, inputs);
      }
      FieldsFail(value, Ascending(fields.Keys), 0, outputs, inputs);
      KeysCover(value, outputs);
    case _ =>
  }

  ghost predicate FailsAsItShould(value: Value, outputs: Outputs, inputs: map<string, Value>) {
    var denoted := Denote(value, outputs, inputs);
    (denoted.Err? <==> SomeNestedReadFails(value, outputs)) && (denoted.Err? ==> denoted.error == MissingPath)
  }

  lemma KeysCover(value: Value, outputs: Outputs)
    requires value.Record?
    ensures SomeNestedReadFails(value, outputs) <==> FieldReadFails(value, Ascending(value.fields.Keys), 0, outputs)
  {
    var keys := Ascending(value.fields.Keys);
    forall k | k in value.fields
      ensures exists i :: 0 <= i < |keys| && keys[i] == k
    {
      assert k in Elements(keys);
    }
    forall i | 0 <= i < |keys|
      ensures keys[i] in value.fields
    {
      assert keys[i] in Elements(keys);
    }
  }

  predicate ItemReadFails(value: Value, start: nat, outputs: Outputs)
    requires value.List?
  {
    exists i :: start <= i < |value.items| && SomeNestedReadFails(value.items[i], outputs)
  }

  predicate FieldReadFails(value: Value, keys: seq<string>, start: nat, outputs: Outputs)
    requires value.Record?
  {
    exists i :: start <= i < |keys| && keys[i] in value.fields && SomeNestedReadFails(value.fields[keys[i]], outputs)
  }

  lemma {:induction false} ItemsFail(value: Value, start: nat, outputs: Outputs, inputs: map<string, Value>)
    requires value.List? && start <= |value.items|
    requires forall i :: 0 <= i < |value.items| ==> FailsAsItShould(value.items[i], outputs, inputs)
    ensures DenoteItems(value, start, outputs, inputs).Err? <==> ItemReadFails(value, start, outputs)
    ensures DenoteItems(value, start, outputs, inputs).Err? ==> DenoteItems(value, start, outputs, inputs).error == MissingPath
    decreases |value.items| - start
  {
    if start < |value.items| {
      assert FailsAsItShould(value.items[start], outputs, inputs);
      ItemsFail(value, start + 1, outputs, inputs);
    }
  }

  lemma {:induction false} FieldsFail(value: Value, keys: seq<string>, start: nat, outputs: Outputs, inputs: map<string, Value>)
    requires value.Record? && Elements(keys) <= value.fields.Keys && start <= |keys|
    requires forall k :: k in value.fields ==> FailsAsItShould(value.fields[k], outputs, inputs)
    ensures DenoteFields(value, keys, start, outputs, inputs).Err? <==> FieldReadFails(value, keys, start, outputs)
    ensures DenoteFields(value, keys, start, outputs, inputs).Err? ==>
              DenoteFields(value, keys, start, outputs, inputs).error == MissingPath
    decreases |keys| - start
  {
    if start < |keys| {
      ElementAt(keys, start, value.fields.Keys);
      assert FailsAsItShould(value.fields[keys[start]], outputs, inputs);
      FieldsFail(value, keys, start + 1, outputs, inputs);
      FieldsFailStep(value, keys, start, outputs, inputs);
    }
  }

  lemma FieldsFailStep(value: Value, keys: seq<string>, start: nat, outputs: Outputs, inputs: map<string, Value>)
    requires value.Record? && Elements(keys) <= value.fields.Keys && start < |keys| && keys[start] in value.fields
    requires FailsAsItShould(value.fields[keys[start]], outputs, inputs)
    ensures var here, rest := DenoteFields(value, keys, start, outputs, inputs),
                              DenoteFields(value, keys, start + 1, outputs, inputs);
            && (here.Err? <==> SomeNestedReadFails(value.fields[keys[start]], outputs) || rest.Err?)
            && (here.Err? ==> here.error == MissingPath || here == rest)
  {
  }

  ghost predicate NodeReady(n: string, definition: Definition, outputs: Outputs) {
    n in definition.nodes && n in outputs && outputs[n].Keys == definition.nodes[n].outputs.Keys
  }

  /** Once the nodes a compiled value names have succeeded, every output it reads is in place. */
  lemma {:induction false} CompiledOutputsReady(value: Value, definition: Definition, outputs: Outputs)
    requires CompileValue(value, definition).Ok?
    requires forall n :: n in NamedNodes(value) ==> NodeReady(n, definition, outputs)
    ensures OutputsReady(value, outputs)
    decreases value
  {
    match value
    case Str(text) =>
      var reading := Bindings.Read(text);
      if reading.Binding? && reading.source.Output? {
        assert NodeReady(reading.source.node, definition, outputs);
      }
    case List(items) =>
      CompiledItems(value, definition);
      forall i | 0 <= i < |items|
        ensures OutputsReady(items[i], outputs)
      {
        CompiledOutputsReady(items[i], definition, outputs);
      }
    case Record(fields) =>
      CompiledFields(value, definition);
      forall k | k in fields
        ensures OutputsReady(fields[k], outputs)
      {
        CompiledOutputsReady(fields[k], definition, outputs);
      }
    case _ =>
  }

  // ------------------------------------------------ compiled workflows, run

  ghost predicate UnforgedNodes(definition: Definition) {
    forall id :: id in definition.nodes ==> Unforged(Record(definition.nodes[id].arguments))
  }

  /** What the executor looks up for a node is no node of the workflow, or an ancestor of this one. */
  ghost predicate LooksUpAncestors(definition: Definition, id: string)
    requires id in definition.nodes
  {
    forall n :: n in LookedUp(Record(definition.nodes[id].arguments)) && n in definition.nodes ==>
      StrictAncestor(DependencyGraph(definition), n, id)
  }

  ghost predicate AllLookUpAncestors(definition: Definition) {
    forall id :: id in definition.nodes ==> LooksUpAncestors(definition, id)
  }

  /** Where nothing is forged, only direct dependencies are looked up. */
  lemma UnforgedLooksUpAncestors(definition: Definition, id: string)
    requires id in definition.nodes && Unforged(Record(definition.nodes[id].arguments))
    ensures LooksUpAncestors(definition, id)
  {
    UnforgedLooksUpNamed(Record(definition.nodes[id].arguments));
    var g := DependencyGraph(definition);
    forall n | n in LookedUp(Record(definition.nodes[id].arguments)) && n in definition.nodes
      ensures StrictAncestor(g, n, id)
    {
      assert ChainTo(g, [id, n], id, n);
    }
  }

  /** The compiled nodes in their order carry the authored graph. */
  lemma CompilationGraph(definition: Definition, workflow: Workflow)
    requires IsCompilation(definition, workflow)
    ensures DistinctIds(workflow.nodes) && GraphOf(workflow.nodes) == DependencyGraph(definition)
  {
    var nodes := workflow.nodes;
    CompilationIsScheduled(definition, workflow);
    forall i | 0 <= i < |nodes|
      ensures EntryAgrees(definition, nodes[i])
    {
      CompiledDependencies(definition, nodes[i]);
    }
    forall n | n in definition.nodes
      ensures exists i :: 0 <= i < |nodes| && nodes[i].id == n
    {
      assert n in Elements(NodeIds(nodes));
      var i :| 0 <= i < |nodes| && NodeIds(nodes)[i] == n;
    }
    RepresentsAuthored(definition, nodes);
    GraphRepresents(nodes);
    RepresentedGraphIsUnique(GraphOf(nodes), DependencyGraph(definition), nodes);
  }

  /** Any dependency order of a compiled workflow's nodes gives each node the same execution as the compiled order,
      as long as forged records look up nothing but ancestors. */
  lemma CompiledRunsAgree(definition: Definition, workflow: Workflow, reordered: seq<CompiledNode>,
                          inputs: map<string, Value>, tool: Tool)
    requires AllLookUpAncestors(definition) && IsCompilation(definition, workflow)
    requires Scheduled(reordered) && Elements(reordered) == Elements(workflow.nodes)
    ensures Run(reordered, inputs, Repeatable(tool)).executions == Run(workflow.nodes, inputs, Repeatable(tool)).executions
  {
    CompilationIsScheduled(definition, workflow);
    CompilationGraph(definition, workflow);
    forall i | 0 <= i < |workflow.nodes|
      ensures ReadsOnlyAncestors(workflow.nodes, workflow.nodes[i])
    {
      var node := workflow.nodes[i];
      assert IsCompiled(definition, node) && LooksUpAncestors(definition, node.id);
      LookedUpIsReferenced(Record(definition.nodes[node.id].arguments), definition);
    }
    RunsAgree(workflow.nodes, reordered, inputs, tool);
  }

  /** A succeeded node has exactly its declared outputs. */
  lemma SucceededOutputs(nodes: seq<CompiledNode>, i: nat, inputs: map<string, Value>, world: World)
    requires DistinctIds(nodes) && i < |nodes| && HasSucceeded(Run(nodes, inputs, world).executions, nodes[i].id)
    ensures Run(nodes, inputs, world).executions[nodes[i].id].outputs.Keys == nodes[i].outputs.Keys
  {
    RunAt(nodes, i, inputs, world);
  }

  /** In every run of a compiled workflow, an attempted node's arguments resolve to their authored meaning,
      and resolving them fails exactly on a missing nested path. */
  lemma AttemptedArgumentsResolve(definition: Definition, workflow: Workflow, i: nat, inputs: map<string, Value>, world: World)
    requires UnforgedNodes(definition) && IsCompilation(definition, workflow) && i < |workflow.nodes|
    requires var before := Run(workflow.nodes[..i], inputs, world);
             Unsuccessful(workflow.nodes[i].dependencies, before.executions) == []
    ensures var before, node := Run(workflow.nodes[..i], inputs, world), workflow.nodes[i];
            var authored := Record(definition.nodes[node.id].arguments);
            var resolved := Resolve(node.arguments, before.outputs, inputs);
            && resolved == Denote(authored, before.outputs, inputs)
            && (resolved.Err? <==> SomeNestedReadFails(authored, before.outputs))
            && resolved != Err(NoOutputs)
  {
    var nodes, node := workflow.nodes, workflow.nodes[i];
    var before := Run(nodes[..i], inputs, world);
    var authored := Record(definition.nodes[node.id].arguments);
    MeaningPreserved(authored, definition, before.outputs, inputs);
    CompilationIsScheduled(definition, workflow);
    ReadyWhenAttempted(definition, workflow, i, inputs, world);
    FailsOnlyOnNestedRead(authored, before.outputs, inputs);
  }

  lemma ReadyWhenAttempted(definition: Definition, workflow: Workflow, i: nat, inputs: map<string, Value>, world: World)
    requires IsCompilation(definition, workflow) && Scheduled(workflow.nodes) && i < |workflow.nodes|
    requires Unsuccessful(workflow.nodes[i].dependencies, Run(workflow.nodes[..i], inputs, world).executions) == []
    ensures OutputsReady(Record(definition.nodes[workflow.nodes[i].id].arguments),
                         Run(workflow.nodes[..i], inputs, world).outputs)
  {
    var nodes, node := workflow.nodes, workflow.nodes[i];
    CompiledDependencies(definition, node);
    forall n | n in NamedNodes(Record(definition.nodes[node.id].arguments))
      ensures NodeReady(n, definition, Run(nodes[..i], inputs, world).outputs)
    {
      assert n in Elements(node.dependencies);
      DependencyReady(definition, workflow, i, n, inputs, world);
    }
    CompiledOutputsReady(Record(definition.nodes[node.id].arguments), definition, Run(nodes[..i], inputs, world).outputs);
  }

  lemma DependencyReady(definition: Definition, workflow: Workflow, i: nat, n: string, inputs: map<string, Value>, world: World)
    requires IsCompilation(definition, workflow) && Scheduled(workflow.nodes) && i < |workflow.nodes|
    requires Unsuccessful(workflow.nodes[i].dependencies, Run(workflow.nodes[..i], inputs, world).executions) == []
    requires n in workflow.nodes[i].dependencies
    ensures NodeReady(n, definition, Run(workflow.nodes[..i], inputs, world).outputs)
  {
    var prefix := workflow.nodes[..i];
    UnsuccessfulMembers(workflow.nodes[i].dependencies, Run(prefix, inputs, world).executions);
    assert n !in Unsuccessful(workflow.nodes[i].dependencies, Run(prefix, inputs, world).executions);
    ScheduledPrefix(workflow.nodes, i);
    RunOutputs(prefix, inputs, world);
    var j := IndexBefore(workflow.nodes, i, n);
    assert prefix[j] == workflow.nodes[j];
    SucceededOutputs(prefix, j, inputs, world);
    assert IsCompiled(definition, workflow.nodes[j]);
  }
}
