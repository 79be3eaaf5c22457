# Verified model of the workflow compiler, the admission linker and their neighbours

A Dafny 4.11 model of the parts of the repository that decide something by themselves: they order, link, decode,
recognise, or guard an irreversible step. Check it with `dafny verify dfyconfig.toml`.

Three kinds of file stand side by side. A *specification* says what a result is (a topological order, a linked document,
a deck of sections). A *machine* is the algorithm as the source writes it: a loop, a class, a state that is updated.
*Laws* are all-inputs statements that connect the two or that relate several functions.

| topic | files |
|---|---|
| shared text, values, identifiers, bytes | `Text`, `JsonValues`, `Identifiers`, `Bytes`, `StableSort` |
| thread workflow: binding grammar, order, compiler, executor | `WorkflowModel`, `Bindings`, `TopologicalOrder`, `WorkflowCompiler`, `CompilationFaults`, `ResultPaths`, `WorkflowExecutor` |
| thread workflow: laws of runs, agreement of compiler and executor, forged bindings | `WorkflowRuns`, `WorkflowAgreement`, `ForgedBindings` |
| STEP timestamp, geometry bundle | `StampLocation`, `StepTimestamp`, `GeometryBundle`, `FrameRefusals` |
| admission: document, its entries, laws, closed sets, compiler | `Admission`, `AdmittedDocuments`, `AdmissionLaws`, `ClosedRequests`, `AdmissionCompiler` |
| line recognisers and paths | `BlockQuotes`, `FenceLines`, `LineMachine`, `MarkdownFences`, `FencedBlocks`, `TaskCatalog`, `RepoPaths`, `CodeReferences` |
| CalculiX source: grammar, deck, its lines, a whole deck, analysis bundle | `SectionGrammar`, `CalculixDeck`, `DeckLines`, `SupportDeck`, `SourceBundle`, `CalculixBundle` |
| protocols against an adversary | `Supervisor`, `SysonLifecycle` |

How the outside world enters: hashes, JSON parsing, the STEP envelope, the reference pattern of a Markdown line, upper
casing and the comparison of the review claim with the brief are function parameters about which nothing is assumed.
Tool calls, provider replies, pipe reads, exits, inventories, unlinks and writes are arbitrary values, so every statement
about a run holds whatever they are.

## What turned out different from what one would expect

* **Forged bindings.** The executor recognises a compiled binding by its shape, so an authored record of that shape is
  resolved as a binding that the compiler never checked. `MistakenIffForged` says exactly which authored records these
  are. One of them is no binding as authored: its `source` is a text that the compiler itself turns into a record
  (`TextSourceIsForged`, `TextSourceNeverResolves`). `ForgedReferenceCompiles` gives a definition that the compiler
  accepts and whose node `bb` reads `aa` without depending on it; two dependency orders of it disagree
  (`CompiledRunsDisagree`). The order is irrelevant as long as forged records look up nothing but ancestors of their node
  or ids of no node (`CompiledRunsAgree`); `LookedUp` reads these nodes off the authored arguments. The other agreement
  theorems hold for all arguments without a forged record.
* **A shadowed name.** `${inputs.x}` always reads as a workflow input; a node called `inputs` cannot be referred to with a
  plain output path. This is the only ambiguity (`RenderThenRead`).
* **Normalising a path twice.** `./C:/x` normalises to `C:/x`, which the guard against drive paths then rejects.
  `NormalizedTwice` reads off the segments of the target when this happens: the name that the path enters last from the
  root and never leaves is a letter and a colon, followed by a backslash or by a further name. In every other case the
  second pass changes nothing.
* **Links and code references.** A link resolves like the code reference that spells out the directory of its source,
  except that an absolute link is refused, an empty one leads to the file itself, and an absolute source makes the
  spelled-out form absolute. `LinkIsCodeReference` gives the exact cases.
* **Digits that are not ASCII.** The bundle decoder reads its length header with `int`, which also accepts other decimal
  digits. Accepted input is the canonical encoding exactly when the header is ASCII (`ReadableIsFramed`).
* **A quote that two timestamps share.** Matches of the quoted pattern do not overlap, so a second timestamp that starts with
  the quote at the end of the field's own is not counted, and such a header is accepted (`StampLocation.HeaderIff`).
* **A child that was not reaped** can write its output directory after the supervisor has cleaned it, so it is not true
  that no refusal leaves an output: `Supervisor.RefusalLeavesOutput` runs into one. With every unlink succeeding, a refused
  run leaves an output exactly if the child was started, no inventory after the kills was empty, and a survivor wrote one
  (`Machine.Supervise`). The supervisor's own files, the marker among them, are then gone after every run that is not `ok`.
* **A name too long for its dependency.** A CalculiX name may have 256 characters, but its id is also part of a dependency
  id with the same bound. A deck with a longer id than 236 characters is therefore refused, though only when its bundle is
  validated (`CalculixBundle.Analyze`).
* **Dead branches.** "has no successful outputs" for unforged arguments, the reread check after normalising, the
  per-slice truncation check, the demand for a named CalculiX set, and the `not-created` cleanup cannot be reached.

## Model

| member | source | states |
|---|---|---|
| `Bindings.ReadThenRender` | experiments/thread-workflow/compiler.ts:263-320 | printing the source that was read gives the authored expression back, character for character |
| `Bindings.RenderThenRead` | experiments/thread-workflow/compiler.ts:263-320 | reading a printed source gives it back exactly if it is not an output of a node called `inputs` without nested path; that one reads as the input |
| `Bindings.RenderIsUnambiguous` | experiments/thread-workflow/compiler.ts:16-17 | two sources with the same text are equal, apart from that shadowed pair |
| `Bindings.InputIffPattern` | experiments/thread-workflow/compiler.ts:16-17 | a text is read as an input exactly when the input pattern matches it with that name |
| `Bindings.OutputIffPattern` | experiments/thread-workflow/compiler.ts:16-17 | a text is read as an output exactly when the output pattern matches and the input pattern does not |
| `Text.LessIff` | experiments/thread-workflow/compiler.ts:374-378 | one id comes before another exactly if it has the smaller character where they first differ, or is a proper prefix |
| `TopologicalOrder.Order` | experiments/thread-workflow/compiler.ts:322-357 | the loop returns the lexicographically least of all topological orders; it fails exactly when there is a cycle, and then lists exactly the nodes with a dependency path into one, sorted |
| `TopologicalOrder.OrderReady` | experiments/thread-workflow/compiler.ts:337-348 | every node was the least available one when it was taken, dependencies come first, and nothing available is left |
| `TopologicalOrder.TakeLeast` | experiments/thread-workflow/compiler.ts:337-348 | one round keeps `ready` sorted and equal to the available nodes, and every count equal to the dependencies not yet ordered |
| `TopologicalOrder.CountDependencies` | experiments/thread-workflow/compiler.ts:323-335 | the tables hold the number of dependencies of each node and the sorted list of its dependants |
| `TopologicalOrder.Conclude` | experiments/thread-workflow/compiler.ts:349-356 | comparing the lengths tells an acyclic graph from one with a cycle, and the ids left over are those that reach one |
| `TopologicalOrder.InsertSorted` | experiments/thread-workflow/compiler.ts:374-378 | inserting a new value keeps the list strictly sorted and adds just this value |
| `TopologicalOrder.GreedyIsLexLeast` | experiments/thread-workflow/compiler.ts:337-348 | a greedy order is at most any other topological order (exchange argument) |
| `TopologicalOrder.LexLeastOrderIsUnique` | experiments/thread-workflow/compiler.ts:322-357 | there is one least order, so the listing of the nodes cannot matter |
| `TopologicalOrder.OrderedReachesNoCycle` | experiments/thread-workflow/compiler.ts:337-348 | no ordered node has a dependency path into a cycle |
| `TopologicalOrder.StuckReachesCycle` | experiments/thread-workflow/compiler.ts:349-355 | where every node waits for another one of the set, each has a path into a cycle (pigeonhole) |
| `TopologicalOrder.LeftOverReachesCycle` | experiments/thread-workflow/compiler.ts:349-355 | a node is left out exactly when it reaches a cycle |
| `WorkflowCompiler.CompileWorkflow` | experiments/thread-workflow/compiler.ts:94-147 | the first failing node in id order decides the error; otherwise it compiles exactly when the authored graph has no cycle, in the least order; every node carries the authored server, tool and outputs, its explicit dependencies are the sorted `needs`, and its inferred ones the sorted ids that some text at some depth of its arguments names as the node of an output |
| `WorkflowCompiler.CompileOne` | experiments/thread-workflow/compiler.ts:100-133 | the same for one node: `needs` are checked before the arguments, and the three lists of dependencies are the sorted `needs`, the sorted ids mentioned, and their sorted union |
| `WorkflowCompiler.Inferred.Compile` | experiments/thread-workflow/compiler.ts:234-261 | compiling adds to the shared set exactly the nodes that bindings at any depth name |
| `WorkflowCompiler.Inferred.CompileList` | experiments/thread-workflow/compiler.ts:234-261 | the same for the items of a list, in order, stopping at the first error |
| `WorkflowCompiler.Inferred.CompileKeys` | experiments/thread-workflow/compiler.ts:234-261 | the same for the fields of a record, in key order |
| `WorkflowCompiler.CompiledDependencies` | experiments/thread-workflow/compiler.ts:102-120 | the dependencies of a compiled node are sorted and are those of the authored graph |
| `WorkflowCompiler.NamedIffMentioned` | experiments/thread-workflow/compiler.ts:107-114 | a node is inferred exactly if some text at some depth matches the output pattern with that node and not the input pattern |
| `WorkflowCompiler.CompiledCarriesAuthored` | experiments/thread-workflow/compiler.ts:100-133 | what a compiled node holds of the authored one, list by list |
| `WorkflowCompiler.CompiledGraph` | experiments/thread-workflow/compiler.ts:135-146 | the compiled nodes carry exactly the authored dependency graph, which is closed |
| `WorkflowCompiler.NoCycleYet` | experiments/thread-workflow/compiler.ts:234-320 | only the ordering step reports a cycle |
| `WorkflowAgreement.CompilesIff` | experiments/thread-workflow/compiler.ts:234-320 | arguments compile exactly when at every depth texts refer to declared inputs and outputs and numbers are finite |
| `CompilationFaults.InputTextCompiles` | experiments/thread-workflow/compiler.ts:269-287 | a text that matches the input pattern compiles to the binding record of that input and its declared type, or is a missing reference |
| `CompilationFaults.OutputTextCompiles` | experiments/thread-workflow/compiler.ts:297-320 | one that matches the output pattern compiles to the binding record of node, output, nested path and declared type, or is a missing reference |
| `CompilationFaults.OtherTextCompiles` | experiments/thread-workflow/compiler.ts:288-296 | any other text stays as it is unless it contains the opening of a binding |
| `CompilationFaults.TypeNameReadsBack` | experiments/thread-workflow/compiler.ts:263-320 | the type names written into binding records are told apart |
| `CompilationFaults.FirstFaultDecides` | experiments/thread-workflow/compiler.ts:234-261 | compiling a value fails exactly if it has a fault at some depth, with the first one in the order of the items and the sorted fields |
| `CompilationFaults.FirstFailureIsFirstFault` | experiments/thread-workflow/compiler.ts:98-133 | the error of a definition is the first fault of its nodes in id order, unknown `needs` before those of the arguments |
| `WorkflowExecutor.Execute` | experiments/thread-workflow/executor.ts:63-107 | inputs are refused exactly when they do not fit; otherwise the final state is that of the run, and it succeeded exactly if every node did; what an attempt records is in `WorkflowRuns.AttemptedOutcome` |
| `WorkflowExecutor.CallNode` | experiments/thread-workflow/executor.ts:109-148 | one attempt: resolving, calling, selecting; the three ways to fail and what is recorded of each |
| `ResultPaths.FollowPath` | experiments/thread-workflow/executor.ts:232-247 | the loop returns a value exactly if a chain of values leads to it: each step is a record's field of that name, or the item of a list at the place that the digits of the segment denote, and nothing on the way is undefined |
| `ResultPaths.ReadIffLeads` | experiments/thread-workflow/executor.ts:232-247 | the same of the function that the semantics of runs uses |
| `ResultPaths.DecimalIsPlaceValue` | experiments/thread-workflow/executor.ts:235-236 | a segment of digits denotes the sum of its digits times their powers of ten |
| `WorkflowExecutor.SelectOutputs` | experiments/thread-workflow/executor.ts:207-230 | a selection is returned exactly if it holds, for each declared output and nothing else, the value that its path leads to, of the declared type and with enough items; otherwise none exists |
| `WorkflowExecutor.SelectedIffSelection` | experiments/thread-workflow/executor.ts:207-230 | the same of the function that the semantics of runs uses |
| `WorkflowExecutor.TypeFits` | experiments/thread-workflow/executor.ts:249-269 | which values an output type admits, type by type |
| `WorkflowRuns.CompilationIsScheduled` | experiments/thread-workflow/compiler.ts:135-146 | in a compiled workflow every node comes after its dependencies |
| `WorkflowRuns.BlockedByDependency` | experiments/thread-workflow/executor.ts:72-90 | a node is blocked exactly when one of its dependencies did not succeed, and it lists just these |
| `WorkflowRuns.AttemptedOutcome` | experiments/thread-workflow/executor.ts:109-148 | what is recorded of every attempted node: failed without a call if its arguments do not resolve; failed on a missing client, a throw or a selection that does not exist; otherwise succeeded with that selection |
| `WorkflowRuns.CalledIffReached` | experiments/thread-workflow/executor.ts:72-148 | a node's tool is called exactly if no dependency is unsuccessful, its arguments resolve and there is a client for its server |
| `WorkflowRuns.BlockedIffAncestorFailed` | experiments/thread-workflow/executor.ts:72-101 | in every run a node is blocked exactly when some strict transitive ancestor failed |
| `WorkflowRuns.SucceededIffNoneFailed` | experiments/thread-workflow/executor.ts:72-101 | every node succeeded exactly when none failed |
| `WorkflowRuns.RunCallsOrderly` | experiments/thread-workflow/executor.ts:72-101 | in every run each node is called at most once, with its recorded arguments, after all its dependencies were called and succeeded |
| `WorkflowRuns.ResolveLocal` | experiments/thread-workflow/executor.ts:161-191 | resolving depends only on the outputs of the nodes that the value refers to |
| `WorkflowRuns.RunSolves` | experiments/thread-workflow/executor.ts:63-107 | if tool calls are repeatable, a run solves the dataflow equations of its nodes |
| `WorkflowRuns.SolutionIsForced` | experiments/thread-workflow/executor.ts:63-107 | the equations have at most one solution: an execution is forced by those of the ancestors |
| `WorkflowRuns.RunsAgree` | experiments/thread-workflow/executor.ts:63-107 | any two dependency orders of the same nodes give every node the same status, arguments and outputs, as long as arguments look up only ancestors or ids of no node |
| `WorkflowAgreement.MistakenIffForged` | experiments/thread-workflow/executor.ts:277-280 | the executor takes a compiled record for a binding exactly when the authored record was forged |
| `WorkflowAgreement.MeaningPreserved` | experiments/thread-workflow/executor.ts:161-191 | for unforged arguments, resolving the compiled value is the authored value with each binding text replaced by what it stands for |
| `WorkflowAgreement.InferredIsReferenced` | experiments/thread-workflow/compiler.ts:107-120 | for unforged arguments the inferred dependencies are exactly the nodes the executor looks up |
| `WorkflowAgreement.LookedUpIsReferenced` | experiments/thread-workflow/executor.ts:161-205 | for every authored value, forged or not, the nodes the executor looks up are those read off the authored value |
| `WorkflowAgreement.NoLeftOverBinding` | experiments/thread-workflow/compiler.ts:263-320 | outside compiled bindings no compiled text contains the opening of a binding |
| `WorkflowAgreement.FailsOnlyOnNestedRead` | experiments/thread-workflow/executor.ts:161-191 | with the outputs it reads in place, resolving fails exactly on a missing nested path, with that error |
| `WorkflowAgreement.CompiledOutputsReady` | experiments/thread-workflow/executor.ts:161-191 | once the named nodes have succeeded, every output an argument reads is there |
| `WorkflowAgreement.AttemptedArgumentsResolve` | experiments/thread-workflow/executor.ts:109-191 | in every run of a compiled workflow an attempted node's arguments resolve to their authored meaning or fail on a nested path only; missing outputs are unreachable |
| `WorkflowAgreement.CompiledRunsAgree` | experiments/thread-workflow/compiler.ts:135-146 | any dependency order of a compiled workflow gives each node the execution of the compiled order, if what each authored node looks up is an ancestor or no node |
| `WorkflowAgreement.UnforgedLooksUpAncestors` | experiments/thread-workflow/compiler.ts:107-120 | a node without forged records looks up only its dependencies, so the condition on the order holds for it |
| `ForgedBindings.TextSourceNeverResolves` | experiments/thread-workflow/executor.ts:277-280 | a forged record whose source is a text is no binding as authored, and resolving it fails for want of outputs |
| `ForgedBindings.TextSourceIsForged` | experiments/thread-workflow/compiler.ts:234-320 | a record `{kind: "binding", expression, source}` whose source is any declared binding text compiles, and is forged |
| `ForgedBindings.ForgedReferenceDependsOnOrder` | experiments/thread-workflow/executor.ts:161-191 | with a forged reference both orders of two nodes are schedules, and they agree exactly if the other node does not succeed |
| `ForgedBindings.ForgedReferenceCompiles` | experiments/thread-workflow/compiler.ts:94-147 | an authored definition that compiles, in this order, to two nodes of which the second reads the first without depending on it |
| `ForgedBindings.CompiledRunsDisagree` | experiments/thread-workflow/executor.ts:63-107 | for it the opposite dependency order gives other executions whenever the tool answers with the output read |
| `ForgedBindings.CompilesToItself` | experiments/thread-workflow/compiler.ts:234-261 | a value without dollar signs compiles to itself and names no node |
| `StepTimestamp.Normalize` | images/build123d-module-assembler-worker/run-module-assembler.py:150-169 | in place: succeeds exactly on files whose header, between the first marks, holds one `FILE_NAME` token, one field and no other quoted timestamp; then just the 19 bytes of that field's timestamp become the epoch; refused files stay as they are, with the first fault as reason; the reread check never fires |
| `StampLocation.LocatedIsStamp` | images/build123d-module-assembler-worker/run-module-assembler.py:172-201 | what is located in the file is a timestamp |
| `StampLocation.FieldIffPattern` | images/build123d-module-assembler-worker/run-module-assembler.py:60-63 | a field is recognised at a place exactly if there stand `FILE_NAME`, a bracket, the quoted name of the modeller, a comma and a quoted timestamp, with white space between them; it captures this timestamp |
| `StampLocation.HeaderIff` | images/build123d-module-assembler-worker/run-module-assembler.py:183-200 | a header is accepted with a timestamp exactly if this is that of a field, its token is the only one, and no other quoted timestamp stands in it apart from one that shares its closing quote |
| `StampLocation.LocateIff` | images/build123d-module-assembler-worker/run-module-assembler.py:172-201 | a file is accepted at an offset exactly if its first `HEADER;` has an `ENDSEC;` behind it and the header between them holds such a field there |
| `StampLocation.LocateFault` | images/build123d-module-assembler-worker/run-module-assembler.py:172-201 | each reason for refusing a file, and when it is given |
| `StampLocation.WrittenIffOneField` | images/build123d-module-assembler-worker/run-module-assembler.py:172-201 | a file written as text, `HEADER;`, header, `ENDSEC;`, text, with these the first marks, is accepted exactly if the header holds one field, at its place in the file |
| `StepTimestamp.LocateShape` | images/build123d-module-assembler-worker/run-module-assembler.py:172-201 | locating depends only on the bytes up to which digit a digit is |
| `StepTimestamp.NormalizeIsStable` | images/build123d-module-assembler-worker/run-module-assembler.py:150-169 | the same field is located again at the same offset, and normalising twice is normalising once |
| `StepTimestamp.NormalFormsAgree` | images/build123d-module-assembler-worker/run-module-assembler.py:150-169 | two accepted files normalise to the same bytes exactly when they differ only in the timestamp |
| `StepTimestamp.OtherStampSameNormal` | images/build123d-module-assembler-worker/run-module-assembler.py:57-66 | an accepted file with another timestamp in the field is accepted and normalises alike |
| `StampLocation.ScanHits` | images/build123d-module-assembler-worker/run-module-assembler.py:57-66 | every position that the scan lists is one where the pattern matches |
| `StampLocation.ScanIsLeftmost` | images/build123d-module-assembler-worker/run-module-assembler.py:172-201 | the scan lists, in order, matches that do not overlap, and every match starts inside a listed one, as `finditer` finds them |
| `StepTimestamp.CanonicalText` | images/build123d-module-assembler-worker/run-module-assembler.py:57-66 | the canonical bytes spell the epoch |
| `GeometryBundle.UnframeFramed` | images/build123d-module-assembler-worker/geometry_module_bundle.py:33-75 | writing a frame and reading it gives its manifest and payload |
| `GeometryBundle.ReadableIsFramed` | images/build123d-module-assembler-worker/geometry_module_bundle.py:33-75 | accepted input is the canonical framing of its parts exactly when its length header is ASCII |
| `GeometryBundle.ValidateManifest` | images/build123d-module-assembler-worker/geometry_module_bundle.py:98-126 | accepts exactly 1 to 32 occurrences in ascending id order, densely packed, each within bounds; otherwise the first fault in the order of the checks is the reason |
| `GeometryBundle.SlicesTile` | images/build123d-module-assembler-worker/geometry_module_bundle.py:98-126 | packed slices lie in the payload, do not overlap and leave no gap |
| `GeometryBundle.ConcatIffSlices` | images/build123d-module-assembler-worker/geometry_module_bundle.py:206-225 | files concatenate to the payload exactly when each is its slice |
| `GeometryBundle.SliceSteps` | images/build123d-module-assembler-worker/geometry_module_bundle.py:206-225 | the loop returns the described files, which concatenate to the whole payload, or there are none, and the first slice that is not as described is the reason; the truncation check is dead |
| `GeometryBundle.ParseBundle` | images/build123d-module-assembler-worker/geometry_module_bundle.py:33-75 | accepts exactly the readable frames that contain a described bundle; otherwise the reason is that of the framing, of the manifest, or of the files |
| `FrameRefusals.RefusedIff` | images/build123d-module-assembler-worker/geometry_module_bundle.py:33-59 | each reason for refusing the framing, by the bytes at the start: size, words, extent of the header, its digits, the length they spell, bytes missing behind it |
| `FrameRefusals.FramedIff` | images/build123d-module-assembler-worker/geometry_module_bundle.py:33-60 | what is not refused starts with the words of the format, a line feed, a length of at most ten bytes and a line feed; the manifest is that long, and the payload is the rest |
| `GeometryBundle.EncodedIsAccepted` | images/build123d-module-assembler-worker/geometry_module_bundle.py:33-75 | the encoding of a bundle decodes to it |
| `GeometryBundle.AcceptedIffEncoded` | images/build123d-module-assembler-worker/geometry_module_bundle.py:33-75 | input with an ASCII header is accepted as a bundle exactly when it is an encoding of that bundle |
| `GeometryBundle.ContentsAreUnique` | images/build123d-module-assembler-worker/geometry_module_bundle.py:206-225 | a frame contains at most one bundle |
| `GeometryBundle.DecimalValue` | images/build123d-module-assembler-worker/geometry_module_bundle.py:33-75 | the decimal text of a length has that value, and no leading zero |
| `GeometryBundle.ValueDecimal` | images/build123d-module-assembler-worker/geometry_module_bundle.py:33-75 | canonical digits are the decimal text of their value |
| `AdmissionCompiler.Compile` | experiments/admission-compiler-spike/compiler.ts:192-398 | accepts exactly the admissible requests; the document holds, entry by entry, what `AdmittedDocuments.LinkedIsAdmitted` says |
| `AdmittedDocuments.LinkedIsAdmitted` | experiments/admission-compiler-spike/compiler.ts:297-397 | bindings in the order of source, symbol and id; each diagnostic one of a missing symbol or an unresolved construct, all of these and no others, in the order of source, symbol and id; references of each source in the order of the bindings; each projection with its source, the chosen profile and its readiness |
| `AdmissionCompiler.Parse` | experiments/admission-compiler-spike/compiler.ts:414-551 | the checks before linking: identifiers, closed sources, bindings, profiles, claim, anchor |
| `AdmissionCompiler.AcceptSources` | experiments/admission-compiler-spike/compiler.ts:456-490 | accepts exactly five sources with distinct roles and ids, each expected role in its language, all passed, all bytes matching |
| `AdmissionCompiler.AcceptProfiles` | experiments/admission-compiler-spike/compiler.ts:553-602 | accepts exactly three fitting profiles with distinct ids and targets |
| `ClosedRequests.SourcesClosedIff` | experiments/admission-compiler-spike/compiler.ts:161-169 | the accepted sources are exactly five, each of an expected role in the language of that role, passed, true to its bytes, and no two share a role or an id |
| `ClosedRequests.ProfilesClosedIff` | experiments/admission-compiler-spike/compiler.ts:178-183 | the accepted profiles are exactly three, each with the output contract of its target, and no two share a target or an id |
| `AdmissionCompiler.ExpectSymbols` | experiments/admission-compiler-spike/compiler.ts:255-268 | the table lists every symbol of the sources beside the anchor once, in order |
| `AdmissionCompiler.KeyIsKnown` | experiments/admission-compiler-spike/compiler.ts:258-268 | a table key is known exactly when some source beside the anchor offers its symbol |
| `AdmissionCompiler.LinkBindings` | experiments/admission-compiler-spike/compiler.ts:270-295 | linking succeeds exactly when every binding goes from an offered symbol to an anchor symbol and no symbol is bound twice |
| `AdmissionCompiler.ReportMissing` | experiments/admission-compiler-spike/compiler.ts:297-315 | one diagnostic for each listed symbol without a binding, in order |
| `AdmissionCompiler.MissingBySource` | experiments/admission-compiler-spike/compiler.ts:298-315 | going through the table reports the missing bindings source by source |
| `AdmissionCompiler.ReportUnresolved` | experiments/admission-compiler-spike/compiler.ts:316-331 | one diagnostic for each unresolved construct, after those before it |
| `AdmissionCompiler.MakeProjection` | experiments/admission-compiler-spike/compiler.ts:344-371 | succeeds exactly if the chosen profile is one of the target; readiness, references and profile of the projection |
| `Admission.KeyIsInjective` | experiments/admission-compiler-spike/compiler.ts:258-259 | ids without the separator make keys that stand for one symbol of one source |
| `Admission.DiagnosticIdIsSafe` | experiments/admission-compiler-spike/compiler.ts:772-775 | whatever the ids, a diagnostic gets a safe identifier |
| `AdmissionLaws.DocumentIgnoresOrder` | experiments/admission-compiler-spike/compiler.ts:297-397 | any reordering of sources, bindings and profiles of an accepted request is accepted with the same document |
| `AdmissionLaws.LinksConserved` | experiments/admission-compiler-spike/compiler.ts:260-315 | bindings plus missing-binding diagnostics are as many as the symbols of the sources beside the anchor |
| `AdmissionLaws.EveryBindingOnce` | experiments/admission-compiler-spike/compiler.ts:343-384 | each binding id occurs exactly once in the references of the brief and of the three projections |
| `AdmissionLaws.ResolvedIff` | experiments/admission-compiler-spike/compiler.ts:344-394 | the document is resolved exactly if its projections are, every brief symbol is bound and no source has an unresolved construct |
| `AdmissionLaws.OnlyExpectedRoles` | experiments/admission-compiler-spike/compiler.ts:161-169 | with five distinct roles covering the expected ones there is no sixth, so each source is the one of its role |
| `StableSort.SortDependsOnGroups` | experiments/admission-compiler-spike/compiler.ts:777-792 | lists whose groups occur in the same order sort stably to the same list |
| `StableSort.SortIgnoresOrder` | experiments/admission-compiler-spike/compiler.ts:777-792 | with distinct keys every permutation sorts to the same list |
| `StableSort.FilterSort` | experiments/admission-compiler-spike/compiler.ts:355-357 | keeping a part of a sorted list is sorting the part |
| `RepoPaths.WalkSegments` | scripts/gates/verify-doc-code-refs.ts:369-384 | the stack loop is the walk in the directory tree |
| `RepoPaths.RejectedIffBelowRoot` | scripts/gates/verify-doc-code-refs.ts:369-384 | rejected exactly when some prefix of the segments has more `..` than names; otherwise the depth is the difference |
| `RepoPaths.SurvivorIsKept` | scripts/gates/verify-doc-code-refs.ts:369-384 | the last way down to a depth is the name that the result holds there |
| `RepoPaths.SurvivorExists` | scripts/gates/verify-doc-code-refs.ts:369-384 | every name of the result was entered by such a segment |
| `RepoPaths.OnlyNamesRemain` | scripts/gates/verify-doc-code-refs.ts:369-384 | no empty, `.` or `..` segment remains, and nothing is invented |
| `RepoPaths.WalkIsStable` | scripts/gates/verify-doc-code-refs.ts:369-384 | a second pass over the segments of a result changes nothing |
| `RepoPaths.WalkOn` | scripts/gates/verify-doc-code-refs.ts:369-384 | a walk may stop anywhere and continue from the directory reached |
| `RepoPaths.NormalizeRepoPath` | scripts/gates/verify-doc-code-refs.ts:369-384 | absolute and drive paths are refused, anything else is walked |
| `RepoPaths.NormalizedTwice` | scripts/gates/verify-doc-code-refs.ts:369-384 | normalising a normalised path gives it back, and is refused exactly if the first name that the segments of the target come to and stay in looks like a drive |
| `RepoPaths.DriveIffEntry` | scripts/gates/verify-doc-code-refs.ts:369-384 | the result looks like a drive path exactly if the segment that enters its first name does |
| `RepoPaths.NormalizedOnceOnly` | scripts/gates/verify-doc-code-refs.ts:369-384 | an accepted path whose normal form is refused |
| `RepoPaths.ResolveTrackedPath` | scripts/gates/verify-doc-links.ts:198-219 | link resolution is the same walk over the segments of the source's directory and then the target's |
| `RepoPaths.LinkIsCodeReference` | scripts/gates/verify-doc-links.ts:198-219 | for every source and target: when the link and the code reference that spells out the source directory mean the same, sources at the root included |
| `CodeReferences.IndexByBasename` | scripts/gates/verify-doc-code-refs.ts:386-398 | the index lists, sorted, exactly the files of each base name that occurs |
| `CodeReferences.ResolveCodeRefPath` | scripts/gates/verify-doc-code-refs.ts:350-367 | a path with a slash is its normal form if that is tracked; another resolves if one file alone has that base name, and is ambiguous or missing otherwise |
| `CodeReferences.OneMeaning` | scripts/gates/verify-doc-code-refs.ts:350-367 | a reference has one meaning |
| `CodeReferences.BaseNameIsLastSegment` | scripts/gates/verify-doc-code-refs.ts:386-391 | the base name is the last segment of the path |
| `FenceLines.FenceShape` | scripts/gates/verify-doc-code-refs.ts:301-305 | a line of spaces, a run of markers and a rest is a fence exactly if there are at most three spaces, at least three markers and one line |
| `FenceLines.FenceHasShape` | scripts/gates/verify-doc-code-refs.ts:301-305 | every fence line has that shape |
| `FencedBlocks.MarkdownCodeRefs` | scripts/gates/verify-doc-code-refs.ts:227-309 | the scanner finds, in order and with their line numbers, exactly the references on the lines with text that are outside every block and open none, or are content of a block whose info string names no shell language; blocks are read off the lines alone, by quote depth, marker, length and rest |
| `MarkdownFences.Scanner.Visit` | scripts/gates/verify-doc-code-refs.ts:266-307 | one line: next state and references, for every combination of fence, quote and blank; `FencedBlocks.StateTells` says what the state means |
| `FencedBlocks.StateTells` | scripts/gates/verify-doc-code-refs.ts:227-309 | before every line the scanner remembers quote depth, marker, length and skipping of the fence that opened the one open block, or that none is open |
| `FencedBlocks.OneOpen` | scripts/gates/verify-doc-code-refs.ts:227-309 | no two blocks are open at a line |
| `FencedBlocks.ScannedIffLookedAt` | scripts/gates/verify-doc-code-refs.ts:266-307 | a line is scanned exactly if the blocks say that it is looked at |
| `FencedBlocks.CodeRefsAreReferences` | scripts/gates/verify-doc-code-refs.ts:227-309 | the references of the state machine are those of the lines looked at |
| `FencedBlocks.LeavingStartsAfresh` | scripts/gates/verify-doc-code-refs.ts:281-290 | if line `o` opened a block in a quote, the next line with text in fewer quotes and everything behind it are scanned as a text of their own |
| `FencedBlocks.ClosingStartsAfresh` | scripts/gates/verify-doc-code-refs.ts:269-300 | a line that closes the block of line `o`, after as many markers as that line has, makes everything behind it be scanned as a text of its own |
| `BlockQuotes.SplitBlockquotePrefix` | scripts/gates/verify-doc-code-refs.ts:316-329 | the loop gives the quote depth and the content |
| `BlockQuotes.MarkerShape` | scripts/gates/verify-doc-code-refs.ts:322-326 | a line starts with a quote marker exactly if it is at most three spaces, `>` and a rest, and one blank of the rest belongs to it |
| `BlockQuotes.PrefixAndContent` | scripts/gates/verify-doc-code-refs.ts:316-329 | the line is its quote prefix followed by its content |
| `BlockQuotes.DepthCountsMarkers` | scripts/gates/verify-doc-code-refs.ts:316-329 | the depth is the number of markers in the prefix |
| `BlockQuotes.ContentHasNoMarker` | scripts/gates/verify-doc-code-refs.ts:316-329 | no further marker can be removed from the content |
| `MarkdownFences.ScanComposes` | scripts/gates/verify-doc-code-refs.ts:227-309 | if a prefix ends outside every fence, the references of prefix and rest are those of the prefix and the line-shifted ones of the rest |
| `MarkdownFences.QuoteEndsFence` | scripts/gates/verify-doc-code-refs.ts:281-290 | from inside a quoted fence, once the next line with text is in fewer quotes, everything is scanned as from the initial state |
| `MarkdownFences.FenceLasts` | scripts/gates/verify-doc-code-refs.ts:269-300 | a fence lasts until a line closes it or leaves its quote; a skipped one yields nothing |
| `MarkdownFences.FenceEnds` | scripts/gates/verify-doc-code-refs.ts:269-300 | after the first line that ends a block the rest is scanned as from the initial state: from the line after it if it closes the fence, from that very line if it leaves the quote |
| `MarkdownFences.InFenceIff` | scripts/gates/verify-doc-code-refs.ts:266-307 | the scanner is inside a fence exactly if some line, read outside every open fence, opened it and no line since has closed it or left its quote |
| `MarkdownFences.MarkerKeepsUnquotedFence` | scripts/gates/verify-doc-code-refs.ts:269-280 | a quote marker never closes a fence outside every quote |
| `LineMachine.OutputComposes` | scripts/gates/verify-doc-code-refs.ts:266-307 | after a part that leads back to its starting state, the rest of a line machine's input is read as if it stood alone |
| `TaskCatalog.CollectCatalogTasks` | scripts/gates/verify-task-catalog.ts:86-131 | a name is collected exactly if it is the code span of the first cell of a row of some unfenced table with header and matching delimiter |
| `TaskCatalog.InBlockIff` | scripts/gates/verify-task-catalog.ts:95-113 | a line lies in the code block of an opening fence exactly if no line in between closes it |
| `TaskCatalog.TableOpens` | scripts/gates/verify-task-catalog.ts:114-126 | a table reaches a line exactly if it reached the line before, or header and delimiter just met |
| `TaskCatalog.NothingInside` | scripts/gates/verify-task-catalog.ts:95-113 | inside a code block both counters are zero |
| `TaskCatalog.TableTextIff` | scripts/gates/verify-task-catalog.ts:88 | a line is a table line with that text exactly if it is at most three spaces, the text on one line between bars, and blanks |
| `TaskCatalog.DelimiterIff` | scripts/gates/verify-task-catalog.ts:89 | a cell is a delimiter exactly if it is dashes, perhaps between colons, with blanks around |
| `TaskCatalog.CodeSpanIff` | scripts/gates/verify-task-catalog.ts:127-128 | a cell names a task exactly if it is one code span with blanks around; the name is its trimmed content |
| `TaskCatalog.LineReadsText` | scripts/gates/verify-task-catalog.ts:86-94 | each line is read by its text: a fence, a row with the cells between its bars, their number, whether all are delimiters and the name that the first one spells, or neither |
| `TaskCatalog.NamesIff` | scripts/gates/verify-task-catalog.ts:114-130 | a row of a table names a task exactly if the first cell of its text is that code span and some cell is no delimiter |
| `SectionGrammar.RecognisesIffAccepts` | experiments/admission-compiler-spike/mini-frontends.ts:202-261 | one pass over the lines recognises exactly the decks of complete sections in order |
| `SectionGrammar.DeckIsUnambiguous` | experiments/admission-compiler-spike/mini-frontends.ts:202-261 | a deck splits into its sections in one way only |
| `CalculixDeck.ParseCalculix` | experiments/admission-compiler-spike/mini-frontends.ts:186-266 | accepts exactly the decks of ten sections; the symbols are the named ids, each where it occurs first; what the bundle validation then refuses is in `CalculixBundle.Analyze` |
| `CalculixBundle.Analyze` | experiments/admission-compiler-spike/mini-frontends.ts:57-71 | an unsafe source id or an empty text throws; otherwise the bundle passes exactly for decks whose ids have at most 236 characters; it lists the root, named after the source, and a component for each named id with what stands behind the colon, and one incidence from each of these to the root, each list strictly in id order |
| `CalculixBundle.RefusedForLengthOnly` | experiments/admission-compiler-spike/mini-frontends.ts:235-250 | of all that the validation checks, only the length of an id can refuse the bundle of a deck |
| `CalculixBundle.NamedShape` | experiments/admission-compiler-spike/mini-frontends.ts:235-243 | every id a deck names is a category, a colon and a name |
| `SourceBundle.Validate` | src/domain/compile/source/source-analysis.ts:188-250 | accepts exactly bundles with safe and distinct ids whose dependencies join two different symbols of theirs; the result has the same records, strictly in id order |
| `SourceBundle.ValidatedIsStable` | src/domain/compile/source/source-analysis.ts:188-250 | a validated bundle is valid, and validating it again changes nothing |
| `SourceBundle.ValidatedIsWellFormed` | experiments/admission-compiler-spike/compiler.ts:442-455 | what the linker takes for granted of a source follows from the validation: symbols strictly in id order, no separator in an id |
| `CalculixDeck.VisitDirective` | experiments/admission-compiler-spike/mini-frontends.ts:213-234 | a directive is taken exactly if the section before it is complete, it is the next one, and its parameters fit |
| `CalculixDeck.VisitData` | experiments/admission-compiler-spike/mini-frontends.ts:205-212 | a data line is taken exactly if it fits the active section |
| `CalculixDeck.AddSymbols` | experiments/admission-compiler-spike/mini-frontends.ts:235-250 | every named field must have a safe name; its id is added unless seen |
| `CalculixDeck.DeckNamesASet` | experiments/admission-compiler-spike/mini-frontends.ts:262-266 | a deck names a node set, so the final check never refuses one |
| `CalculixDeck.SafeIffShort` | experiments/admission-compiler-spike/mini-frontends.ts:236-239 | a name that matches its pattern is refused only for its length |
| `CalculixDeck.EachIdOnce` | experiments/admission-compiler-spike/mini-frontends.ts:240-243 | the symbols are exactly the named ids, without repetition |
| `CalculixDeck.NumberIff` | experiments/admission-compiler-spike/mini-frontends.ts:360-362 | a number is exactly an optional sign, digits on one side of an optional point at least, and an optional exponent |
| `CalculixDeck.IntegerIff` | experiments/admission-compiler-spike/mini-frontends.ts:360-362 | an integer is exactly an optional sign and digits |
| `DeckLines.NodeLineIff` | experiments/admission-compiler-spike/mini-frontends.ts:366 | a node line is an integer and three numbers between commas |
| `DeckLines.ElementLineIff` | experiments/admission-compiler-spike/mini-frontends.ts:367 | an element line is five integers |
| `DeckLines.ElasticLineIff` | experiments/admission-compiler-spike/mini-frontends.ts:368 | the elastic constants are two numbers |
| `DeckLines.BoundaryLineIff` | experiments/admission-compiler-spike/mini-frontends.ts:369 | a boundary line is a set or a node, two integers and a number |
| `DeckLines.LoadLineIff` | experiments/admission-compiler-spike/mini-frontends.ts:370 | a load line is a set or a node, an integer and a number |
| `DeckLines.StaticLineIff` | experiments/admission-compiler-spike/mini-frontends.ts:371 | the line of a static step is one number to four |
| `DeckLines.HeadingLineIff` | experiments/admission-compiler-spike/mini-frontends.ts:365 | the heading is 1 to 120 printable characters |
| `DeckLines.BoundsIff` | experiments/admission-compiler-spike/mini-frontends.ts:328-352 | how many data lines each section may have |
| `DeckLines.NodeParametersIff` | experiments/admission-compiler-spike/mini-frontends.ts:290-326 | the nodes are named, once at least, and have no other parameter |
| `DeckLines.ElementParametersIff` | experiments/admission-compiler-spike/mini-frontends.ts:290-326 | the elements have their one solid type and the name of their set, each once at least, and no other parameter |
| `DeckLines.MaterialParametersIff` | experiments/admission-compiler-spike/mini-frontends.ts:290-326 | the material is named, once at least, and has no other parameter |
| `DeckLines.FieldsAre` | experiments/admission-compiler-spike/mini-frontends.ts:213-214 | a directive is read as the fields between its commas |
| `DeckLines.SymbolIff` | experiments/admission-compiler-spike/mini-frontends.ts:235-240 | which parameters name a symbol, and its id: the word in lower case, a colon, and the name as written |
| `SupportDeck.SectionsAreAccepted` | experiments/admission-compiler-spike/mini-frontends.ts:186-266 | the text that joins the lines of ten fitting sections is accepted |
| `SupportDeck.SupportIsAccepted` | experiments/admission-compiler-spike/compiler_test.ts:457-477 | the deck of the support block is accepted, whatever its title |
| `Supervisor.BoundedCapture.Observe` | images/build123d-microsandbox-worker/run-build123d.py:46-54 | for any chunking the capture is the first `limit` bytes, the digest has taken in just these, and it is truncated exactly if there was more |
| `Supervisor.Reader.Read` | images/build123d-microsandbox-worker/run-build123d.py:323-336 | one ready pipe: blocked, broken, ended or a chunk, and what is captured of it |
| `Supervisor.Reader.Drain` | images/build123d-microsandbox-worker/run-build123d.py:314-348 | over any interleaving the loop ends exactly after the first round with a terminal status or both streams ended; without terminal status both were read to their end |
| `Supervisor.ReadPipes` | images/build123d-microsandbox-worker/run-build123d.py:303-348 | the loop ends at the first round that ends it; the status is `WallTimeExceeded` or `LogLimitExceeded` by what the rounds up to there show, and none exactly if the time did not run out and no stream was longer than its limit; then the captures are the whole streams |
| `Supervisor.TerminateAndReap` | images/build123d-microsandbox-worker/run-build123d.py:146-166 | closed exactly if some inventory after the kills is empty before one is unreadable, unreadable exactly if one is before any is empty |
| `Supervisor.Machine.ValidateOutput` | images/build123d-microsandbox-worker/run-build123d.py:251-270 | valid exactly if the directory holds just the expected regular file of admitted size |
| `Supervisor.Machine.WriteAtomic` | images/build123d-microsandbox-worker/run-build123d.py:185-211 | the target holds the payload if it was put in place, a failure before that leaves it as it was, a temporary stays only then, and nothing else changes |
| `Supervisor.Machine.RemoveUntrustedOutput` | images/build123d-microsandbox-worker/run-build123d.py:169-182 | the loop over the fixed paths leaves exactly what was there and refuses to be unlinked, and touches nothing else |
| `Supervisor.EveryPathIsListed` | images/build123d-microsandbox-worker/run-build123d.py:169-182 | the fixed paths are the output, and target and temporary of each file of the supervisor |
| `Supervisor.Machine.Conclude` | images/build123d-microsandbox-worker/run-build123d.py:360-386 | the status, whichever comes first: unreadable inventory, drained status, no empty inventory, exit code not 0, nothing listable or an invalid output, a failed write, or done; the exit number of each; a refused run leaves no file of the supervisor, and an output exactly if no inventory was empty and a survivor wrote one |
| `Supervisor.Machine.Supervise` | images/build123d-microsandbox-worker/run-build123d.py:273-386 | the status and the exit number 0, 66, 70, 74 or 75 of every run, by its surroundings alone: the three refusals before the start, then those of `Conclude`; an `ok` exit attests whole streams in the captures, exit code 0, reaped descendants, the validated output and the marker; every other run leaves no marker; a refusal leaves an output exactly if the child was started, never reaped, and a survivor wrote one; an undisturbed run is `ok` |
| `Supervisor.RefusalLeavesOutput` | images/build123d-microsandbox-worker/run-build123d.py:360-386 | a refused run, with every unlink succeeding, that leaves an output |
| `SysonLifecycle.CleanEphemeralProject` | experiments/admission-compiler-spike/syson-smoke.ts:516-580 | the delete follows a matching readback directly, is never retried, and absence is claimed only if listed |
| `SysonLifecycle.CleanupIsSafe` | experiments/admission-compiler-spike/syson-smoke.ts:516-580 | after any opening a cleanup is safe, deletes exactly if the read just before confirms the project, counts its deletes rightly, names what it leaves behind, and claims absence exactly when it is proven |
| `SysonLifecycle.CreatedIff` | experiments/admission-compiler-spike/syson-smoke.ts:582-604 | a creation is trusted exactly if its reply is the record of a UUID, the generated name and a context that is not blank |
| `SysonLifecycle.ReadbackIff` | experiments/admission-compiler-spike/syson-smoke.ts:606-621 | a read confirms a project exactly if its reply is the record of its three texts and a list of natures |
| `SysonLifecycle.AcknowledgementIff` | experiments/admission-compiler-spike/syson-smoke.ts:956-966 | a deletion is acknowledged by one record alone |
| `SysonLifecycle.AbsenceIff` | experiments/admission-compiler-spike/syson-smoke.ts:968-1013 | absence is listed exactly by a complete page with the right count on which every project is another one |
| `SysonLifecycle.OtherIff` | experiments/admission-compiler-spike/syson-smoke.ts:968-1013 | another project is a record of an id, a name and natures, and differs in id and in name |
| `SysonLifecycle.Consume` | experiments/admission-compiler-spike/syson-smoke.ts:250-319 | between creation and cleanup nothing is created or deleted, and a value comes back exactly if the consumer finished |
| `SysonLifecycle.WithEphemeralAnchor` | experiments/admission-compiler-spike/syson-smoke.ts:215-363 | exactly one create, at most one delete, of the id that create returned under the generated name, issued exactly if the read just before confirms the project; reported attempts, verified pre-read and residual project are those of the trace; a value is returned exactly if the consumer finished and absence was proven |

## Left out

- Workflow definitions: the flat shape checks of `validateThreadWorkflow` and the YAML loader; a definition is a typed record here.
- Executions: clocks, durations, run ids and error message texts; an error is its kind.
- Execute: a property that JavaScript records inherit (`constructor` and its like) is not found in a record here; names are own keys.
- Resolve: a forged record whose node, output or path is not text fails like one that names nothing; the coercions of JavaScript are not modelled.
- Execute: `structuredClone` and the freezing of results; values are immutable here.
- Admissible: the comparison of the review claim with the native brief (ids, revisions, fingerprints, instants) is one predicate over the claim and the brief; of a validated bundle only the symbol ids and the unresolved constructs enter.
- Compile: errors carry no text; a refused request has no document.
- Text.Less: comparison is by UTF-16 code unit, which a Dafny `char` orders alike except beyond the basic plane; the ids compared are ASCII.
- StampLocation.Locate: regular expressions are hand-written predicates over bytes, and so are those over text in the other recognisers.
- ValidateManifest: the records inside the manifest other than ids, offsets, sizes and hashes; JSON and its duplicate keys are parsed outside.
- ParseBundle: a length header with digits that are not ASCII is read by an unknown function; error messages are kinds.
- MarkdownCodeRefs: the reference pattern within a line and the set of illustrative shell languages are parameters; locators are part of the target text, and whether the lines they name exist is not asked.
- CollectCatalogTasks: the comparison of the collected names with those in `deno.json`.
- ParseCalculix: `toUpperCase` is any function; carriage returns are removed by trimming each line rather than by the split; the Modelica front end.
- Validate: kinds, spans, policy findings, unresolved constructs, fingerprints and the schema of the bundle are typed or left out.
- Supervise: signals, resource limits, user ids, file modes and `/proc` are outcomes of calls; a write is complete or fails; a second failing wait, a broken pipe read and an unfinished run end without status, as in the source, and leave the output as it is.
- WithEphemeralAnchor: the calls that build and check the model inside the project are an arbitrary list of calls that neither create nor delete a project, with an arbitrary result.
- Provider, HTTP, MCP framing, the desktop and server wiring, release scripts, probes, Build123d geometry: nothing of them is modelled.
