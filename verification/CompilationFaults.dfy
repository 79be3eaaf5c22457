/** What a text compiles to, in terms of the patterns, and the fault that a definition is refused for. */
module CompilationFaults {
  import opened Text
  import opened JsonValues
  import opened WorkflowModel
  import opened WorkflowCompiler
  import Bindings

  // ------------------------------------------------------------- type names

  function TypeNamed(name: string): Option<OutputType> {
    if name == "array" then Some(ArrayOutput)
    else if name == "artifact-uri" then Some(ArtifactUriOutput)
    else if name == "boolean" then Some(BooleanOutput)
    else if name == "number" then Some(NumberOutput)
    else if name == "object" then Some(ObjectOutput)
    else if name == "quantity" then Some(QuantityOutput)
    else if name == "string" then Some(StringOutput)
    else if name == "unknown" then Some(UnknownOutput)
    else None
  }

  lemma TypeNameReadsBack(kind: OutputType)
    ensures TypeNamed(TypeName(kind)) == Some(kind)
  {
  }

  // ------------------------------------------------------------------ texts

  /** A text that the input pattern matches becomes a record that refers to the input, if it is declared. */
  lemma InputTextCompiles(text: string, name: string, definition: Definition)
    requires Bindings.InputPattern(text, name)
    ensures CompileText(text, definition)
         == if name !in definition.inputs then Err(MissingReference)
            else Ok(Record(map[
              "kind" := Str("binding"), "expression" := Str(text),
              "source" := Record(map["kind" := Str("workflow-input"), "input" := Str(name),
                                     "type" := Str(TypeName(definition.inputs[name]))])]))
  {
    Bindings.InputIffPattern(text, name);
  }

  function Texts(path: seq<string>): (values: seq<Value>)
    ensures |values| == |path| && forall i :: 0 <= i < |path| ==> values[i] == Str(path[i])
  {
    seq(|path|, i requires 0 <= i < |path| => Str(path[i]))
  }

  predicate IsDeclared(node: string, output: string, definition: Definition) {
    node in definition.nodes && output in definition.nodes[node].outputs
  }

  /** A text that only the output pattern matches becomes a record that refers to the output, if it is declared. */
  lemma OutputTextCompiles(text: string, node: string, output: string, path: seq<string>, definition: Definition)
    requires Bindings.MatchesOutput(text, node, output, path) && forall name :: !Bindings.InputPattern(text, name)
    ensures CompileText(text, definition)
         == if !IsDeclared(node, output, definition) then Err(MissingReference)
            else Ok(Record(map[
              "kind" := Str("binding"), "expression" := Str(text),
              "source" := Record(map["kind" := Str("node-output"), "nodeId" := Str(node), "output" := Str(output),
                                     "path" := List(Texts(path)),
                                     "type" := Str(TypeName(definition.nodes[node].outputs[output].kind))])]))
  {
    Bindings.OutputIffPattern(text, node, output, path);
    if IsDeclared(node, output, definition) {
      var items := seq(|path|, i requires 0 <= i < |path| => Str(path[i]));
      assert items == Texts(path);
    }
  }

  ghost predicate MatchesAnOutput(text: string) {
    exists node, output, path :: Bindings.MatchesOutput(text, node, output, path)
  }

  ghost predicate MatchesAnInput(text: string) {
    exists name :: Bindings.InputPattern(text, name)
  }

  /** Any other text stays as it is, unless it contains the opening of a binding. */
  lemma OtherTextCompiles(text: string, definition: Definition)
    requires !MatchesAnInput(text) && !MatchesAnOutput(text)
    ensures CompileText(text, definition) == if Contains(text, "${") then Err(Validation) else Ok(Str(text))
  {
    if Bindings.Read(text).Binding? {
      match Bindings.Read(text).source
      case Input(name) => Bindings.InputIffPattern(text, name);
      case Output(node, output, path) => Bindings.OutputIffPattern(text, node, output, path);
    }
  }

  // ----------------------------------------------------------------- faults

  /** The patterns match, but the input, the node or its output is not declared. */
  ghost predicate IsUndeclared(text: string, definition: Definition) {
    if MatchesAnInput(text) then exists name :: Bindings.InputPattern(text, name) && name !in definition.inputs
    else exists node, output, path ::
           Bindings.MatchesOutput(text, node, output, path) && !IsDeclared(node, output, definition)
  }

  /** No pattern matches, but the text contains the opening of a binding. */
  ghost predicate IsMalformed(text: string) {
    Contains(text, "${") && !MatchesAnInput(text) && !MatchesAnOutput(text)
  }

  ghost function TextFaults(text: string, definition: Definition): seq<WorkflowError> {
    (if IsUndeclared(text, definition) then [MissingReference] else []) + if IsMalformed(text) then [Validation] else []
  }

  /** All faults of a value, in the order in which its parts stand: items by index, fields by key. */
  ghost function Faults(value: Value, definition: Definition): seq<WorkflowError>
    decreases value
  {
    match value
    case NonFinite => [Validation]
    case Undefined => [Validation]
    case Str(text) => TextFaults(text, definition)
    case List(items) => ItemFaults(value, 0, definition)
    case Record(fields) => FieldFaults(value, Ascending(fields.Keys), 0, definition)
    case _ => []
  }

  ghost function ItemFaults(value: Value, start: nat, definition: Definition): seq<WorkflowError>
    requires value.List? && start <= |value.items|
    decreases value, |value.items| - start + 1
  {
    if start == |value.items| then []
    else Faults(value.items[start], definition) + ItemFaults(value, start + 1, definition)
  }

  ghost function FieldFaults(value: Value, keys: seq<string>, start: nat, definition: Definition): seq<WorkflowError>
    requires value.Record? && Elements(keys) <= value.fields.Keys && start <= |keys|
    decreases value, |keys| - start + 1
  {
    if start == |keys| then []
    else
      assert keys[start] in Elements(keys);
      Faults(value.fields[keys[start]], definition) + FieldFaults(value, keys, start + 1, definition)
  }

  /** The result fails exactly if there is a fault, and then with the first one. */
  ghost predicate FailsFirst<T>(result: Result<T, WorkflowError>, faults: seq<WorkflowError>) {
    if faults == [] then result.Ok? else result == Err(faults[0])
  }

  lemma TextFailsFirst(text: string, definition: Definition)
    ensures FailsFirst(CompileText(text, definition), TextFaults(text, definition))
  {
    if MatchesAnInput(text) {
      var name :| Bindings.InputPattern(text, name);
      InputTextCompiles(text, name, definition);
      OneInput(text, name, definition);
    } else if MatchesAnOutput(text) {
      var node, output, path :| Bindings.MatchesOutput(text, node, output, path);
      OutputTextCompiles(text, node, output, path, definition);
      OneOutput(text, node, output, path, definition);
    } else {
      OtherTextCompiles(text, definition);
    }
  }

  lemma OneInput(text: string, name: string, definition: Definition)
    requires Bindings.InputPattern(text, name)
    ensures IsUndeclared(text, definition) <==> name !in definition.inputs
  {
    forall other | Bindings.InputPattern(text, other)
      ensures other == name
    {
      Bindings.InputIffPattern(text, name);
      Bindings.InputIffPattern(text, other);
    }
  }

  lemma OneOutput(text: string, node: string, output: string, path: seq<string>, definition: Definition)
    requires !MatchesAnInput(text) && Bindings.MatchesOutput(text, node, output, path)
    ensures IsUndeclared(text, definition) <==> !IsDeclared(node, output, definition)
  {
    forall n, o, p | Bindings.MatchesOutput(text, n, o, p)
      ensures n == node && o == output
    {
      Bindings.OutputIffPattern(text, node, output, path);
      Bindings.OutputIffPattern(text, n, o, p);
    }
  }

  lemma {:induction false} FirstFaultDecides(value: Value, definition: Definition)
    ensures FailsFirst(CompileValue(value, definition), Faults(value, definition))
    decreases value
  {
    match value
    case Str(text) => TextFailsFirst(text, definition);
    case List(items) =>
      forall i | 0 <= i < |items|
        ensures PartFails(items[i], definition)
      {
        FirstFaultDecides(items[i], definition);
      }
      ItemsFailFirst(value, 0, definition);
    case Record(fields) =>
      forall k | k in fields
        ensures PartFails(fields[k], definition)
      {
        FirstFaultDecides(fields[k], definition);
      }
      FieldsFailFirst(value, Ascending(fields.Keys), 0, definition);
    case _ =>
  }

  ghost predicate PartFails(value: Value, definition: Definition) {
    FailsFirst(CompileValue(value, definition), Faults(value, definition))
  }

  lemma {:induction false} ItemsFailFirst(value: Value, start: nat, definition: Definition)
    requires value.List? && start <= |value.items|
    requires forall i :: 0 <= i < |value.items| ==> PartFails(value.items[i], definition)
    ensures FailsFirst(CompileItems(value, start, definition), ItemFaults(value, start, definition))
    decreases |value.items| - start
  {
    if start < |value.items| {
      assert PartFails(value.items[start], definition);
      ItemsFailFirst(value, start + 1, definition);
    }
  }

  lemma {:induction false} FieldsFailFirst(value: Value, keys: seq<string>, start: nat, definition: Definition)
    requires value.Record? && Elements(keys) <= value.fields.Keys && start <= |keys|
    requires forall k :: k in value.fields ==> PartFails(value.fields[k], definition)
    ensures FailsFirst(CompileFields(value, keys, start, definition), FieldFaults(value, keys, start, definition))
    decreases |keys| - start
  {
    if start < |keys| {
      ElementAt(keys, start, value.fields.Keys);
      assert PartFails(value.fields[keys[start]], definition);
      FieldsFailFirst(value, keys, start + 1, definition);
    }
  }

  /** The faults of a node: a need that is no node, then those of its arguments. */
  ghost function NodeFaults(id: string, definition: Definition): seq<WorkflowError>
    requires id in definition.nodes
  {
    var node := definition.nodes[id];
    (if exists need :: need in node.needs && need !in definition.nodes then [MissingReference] else [])
    + Faults(Record(node.arguments), definition)
  }

  lemma NodeFailsFirst(id: string, definition: Definition)
    requires id in definition.nodes
    ensures FailsFirst(CompileNode(id, definition), NodeFaults(id, definition))
  {
    FirstFaultDecides(Record(definition.nodes[id].arguments), definition);
  }

  /** The faults of all nodes, in the order of the ids. */
  ghost function AllFaults(definition: Definition, ids: seq<string>, start: nat): seq<WorkflowError>
    requires start <= |ids|
  {
    Gather(ids, start, (id: string) => FaultsOf(id, definition))
  }

  ghost function FaultsOf(id: string, definition: Definition): seq<WorkflowError> {
    if id in definition.nodes then NodeFaults(id, definition) else []
  }

  ghost function Gather<T, E>(items: seq<T>, start: nat, g: T -> seq<E>): seq<E>
    requires start <= |items|
    decreases |items| - start
  {
    if start == |items| then [] else g(items[start]) + Gather(items, start + 1, g)
  }

  /** Nothing where nothing is wrong, and otherwise the first fault. */
  predicate IsFirst<E(==)>(failure: Option<E>, faults: seq<E>) {
    failure == if faults == [] then None else Some(faults[0])
  }

  lemma {:induction false} FirstOfAll<T, E>(items: seq<T>, start: nat, f: T -> Option<E>, g: T -> seq<E>)
    requires start <= |items| && forall x :: x in items ==> IsFirst(f(x), g(x))
    ensures IsFirst(FirstSome(items, start, f), Gather(items, start, g))
    decreases |items| - start
  {
    if start < |items| {
      assert IsFirst(f(items[start]), g(items[start]));
      FirstOfAll(items, start + 1, f, g);
    }
  }

  lemma NodeFirst(id: string, definition: Definition)
    ensures IsFirst(FailureOf(id, definition), FaultsOf(id, definition))
  {
    if id in definition.nodes { NodeFailsFirst(id, definition); }
  }

  /** A definition is refused for the first of all its faults, node by node. */
  lemma FirstFailureIsFirstFault(definition: Definition, ids: seq<string>, start: nat)
    requires start <= |ids|
    ensures IsFirst(FirstFailure(definition, ids, start), AllFaults(definition, ids, start))
  {
    var f, g := (id: string) => FailureOf(id, definition), (id: string) => FaultsOf(id, definition);
    forall id | id in ids
      ensures IsFirst(f(id), g(id))
    {
      NodeFirst(id, definition);
    }
    FirstOfAll(ids, start, f, g);
  }
}
