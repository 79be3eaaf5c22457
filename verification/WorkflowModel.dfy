/** Authored and compiled workflow records. JS records are maps of their own keys. */
module WorkflowModel {
  import opened Text
  import opened JsonValues

  datatype OutputType =
    | ArrayOutput | ArtifactUriOutput | BooleanOutput | NumberOutput
    | ObjectOutput | QuantityOutput | StringOutput | UnknownOutput

  datatype OutputDefinition = OutputDefinition(select: string, kind: OutputType, minItems: Option<nat>)

  datatype NodeDefinition = NodeDefinition(
    server: string,
    tool: string,
    needs: seq<string>,
    arguments: map<string, Value>,
    outputs: map<string, OutputDefinition>)

  datatype Definition = Definition(inputs: map<string, OutputType>, nodes: map<string, NodeDefinition>)

  datatype CompiledNode = CompiledNode(
    id: string,
    server: string,
    tool: string,
    arguments: Value,
    outputs: map<string, OutputDefinition>,
    explicitDependencies: seq<string>,
    inferredDependencies: seq<string>,
    dependencies: seq<string>)

  datatype Workflow = Workflow(inputs: map<string, OutputType>, nodes: seq<CompiledNode>)

  datatype WorkflowError = Cycle(ids: seq<string>) | MissingReference | Validation
}
