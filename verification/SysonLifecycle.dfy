/** The life of an ephemeral project at an untrusted provider: created once, deleted at most once, and only when recognised. */
module SysonLifecycle {
  import opened Text
  import opened JsonValues

  // ----------------------------------------------------------- the provider

  /** The calls between creation and cleanup: they build and read the model inside the project. */
  datatype WorkTool = ModelCreate | ElementGet | InsertSysml | ElementChildren | QueryAql

  datatype Call =
    | Create(name: string)
    | Get(projectId: string)
    | Delete(projectId: string)
    | ListNamed(filter: string)
    | Work(tool: WorkTool)

  /** A call fails, or gives a record. */
  datatype Reply = Threw | Answered(content: map<string, Value>)

  /** A provider that may answer the n-th call in any way; the calls made so far are its trace. */
  class Provider {
    const answers: nat -> Reply
    var trace: seq<Call>

    constructor (answers: nat -> Reply)
      ensures this.answers == answers && trace == []
    {
      this.answers := answers;
      trace := [];
    }

    method CallTool(call: Call) returns (reply: Reply)
      modifies this
      ensures trace == old(trace) + [call] && reply == answers(|old(trace)|)
    {
      trace := trace + [call];
      reply := answers(|trace| - 1);
    }
  }

  // -------------------------------------------------------- checks of replies

  datatype Identity = Identity(id: string, name: string, editingContextId: string)

  function TextAt(content: map<string, Value>, key: string): Option<string> {
    if key in content && content[key].Str? then Some(content[key].text) else None
  }

  predicate IsNonEmptyText(text: Option<string>) {
    text.Some? && !IsBlank(text.value)
  }

  predicate IsHex(c: char) {
    '0' <= c <= '9' || 'a' <= c <= 'f' || 'A' <= c <= 'F'
  }

  /** `/^[0-9a-f]{8}-[0-9a-f]{4}-[1-8][0-9a-f]{3}-[89ab][0-9a-f]{3}-[0-9a-f]{12}$/i` */
  predicate IsUuid(text: string) {
    && |text| == 36
    && (forall i :: 0 <= i < 36 ==> if i in {8, 13, 18, 23} then text[i] == '-' else IsHex(text[i]))
    && '1' <= text[14] <= '8'
    && text[19] in {'8', '9', 'a', 'b', 'A', 'B'}
  }

  /** `parseCreatedProject`: an exact record, a UUID, and the name that was asked for. */
  function CreatedProject(content: map<string, Value>, expectedName: string): Option<Identity> {
    var id, name, context := TextAt(content, "id"), TextAt(content, "name"), TextAt(content, "editingContextId");
    if content.Keys == {"id", "name", "editingContextId"} && IsNonEmptyText(id) && IsUuid(id.value)
       && IsNonEmptyText(name) && IsNonEmptyText(context) && name.value == expectedName
    then Some(Identity(id.value, name.value, context.value)) else None
  }

  /** `assertProjectReadback` */
  predicate IsReadback(content: map<string, Value>, expected: Identity) {
    && content.Keys == {"id", "name", "natures", "editingContextId"}
    && content["id"] == Str(expected.id) && content["name"] == Str(expected.name)
    && content["editingContextId"] == Str(expected.editingContextId) && content["natures"].List?
  }

  /** `assertDeleteAcknowledgement` */
  predicate IsAcknowledgement(content: map<string, Value>, projectId: string) {
    && content.Keys == {"deleted", "projectId"}
    && content["deleted"] == Bool(true) && content["projectId"] == Str(projectId)
  }

  predicate IsListed(candidate: Value) {
    && candidate.Record? && candidate.fields.Keys == {"id", "name", "natures"}
    && IsNonEmptyText(TextAt(candidate.fields, "id")) && IsNonEmptyText(TextAt(candidate.fields, "name"))
    && candidate.fields["natures"].List?
  }

  predicate IsOther(candidate: Value, identity: Identity) {
    && IsListed(candidate)
    && candidate.fields["id"] != Str(identity.id) && candidate.fields["name"] != Str(identity.name)
  }

  /** `assertProjectAbsent`: one complete page of well-formed projects, none of them this one. */
  predicate IsAbsence(content: map<string, Value>, identity: Identity) {
    && content.Keys == {"projects", "pageInfo"} && content["projects"].List? && content["pageInfo"].Record?
    && var projects, page := content["projects"].items, content["pageInfo"].fields;
    && "count" in page && page["count"] == Number(|projects| as real)
    && "hasNextPage" in page && page["hasNextPage"] == Bool(false)
    && forall i :: 0 <= i < |projects| ==> IsOther(projects[i], identity)
  }

  // ----------------------------------------------- the accepted replies, in full

  /** A project is read back exactly by the record of its three texts and a list of natures. */
  lemma ReadbackIff(content: map<string, Value>, project: Identity)
    ensures IsReadback(content, project)
       <==> exists natures ::
              content == map["id" := Str(project.id), "name" := Str(project.name), "natures" := List(natures),
                             "editingContextId" := Str(project.editingContextId)]
  {
    if IsReadback(content, project) {
      assert content == map["id" := Str(project.id), "name" := Str(project.name), "natures" := List(content["natures"].items),
                            "editingContextId" := Str(project.editingContextId)];
    }
  }

  /** A deletion is acknowledged by one record alone. */
  lemma AcknowledgementIff(content: map<string, Value>, projectId: string)
    ensures IsAcknowledgement(content, projectId)
       <==> content == map["deleted" := Bool(true), "projectId" := Str(projectId)]
  {
  }

  /** A listed project: its id, its name and its natures, neither text blank. */
  ghost predicate IsProjectRecord(candidate: Value, id: string, name: string) {
    && Trim(id) != "" && Trim(name) != ""
    && exists natures :: candidate == Record(map["id" := Str(id), "name" := Str(name), "natures" := List(natures)])
  }

  lemma ListedIff(candidate: Value)
    ensures IsListed(candidate) <==> exists id, name :: IsProjectRecord(candidate, id, name)
  {
    if IsListed(candidate) {
      var id, name := candidate.fields["id"].text, candidate.fields["name"].text;
      BlankIffTrimmed(id);
      BlankIffTrimmed(name);
      assert candidate.fields == map["id" := Str(id), "name" := Str(name), "natures" := List(candidate.fields["natures"].items)];
      assert IsProjectRecord(candidate, id, name);
    }
    if id, name :| IsProjectRecord(candidate, id, name) {
      BlankIffTrimmed(id);
      BlankIffTrimmed(name);
    }
  }

  /** Another project differs in its id and in its name. */
  lemma OtherIff(candidate: Value, project: Identity)
    ensures IsOther(candidate, project)
       <==> exists id, name :: IsProjectRecord(candidate, id, name) && id != project.id && name != project.name
  {
    ListedIff(candidate);
  }

  ghost predicate IsCompletePage(content: map<string, Value>, projects: seq<Value>, page: map<string, Value>) {
    && content == map["projects" := List(projects), "pageInfo" := Record(page)]
    && "count" in page && page["count"] == Number(|projects| as real)
    && "hasNextPage" in page && page["hasNextPage"] == Bool(false)
  }

  /** Absence is listed by a complete page on which every project is another one. */
  lemma AbsenceIff(content: map<string, Value>, project: Identity)
    ensures IsAbsence(content, project)
       <==> exists projects, page ::
              IsCompletePage(content, projects, page) && forall i :: 0 <= i < |projects| ==> IsOther(projects[i], project)
  {
    if IsAbsence(content, project) {
      assert content == map["projects" := List(content["projects"].items), "pageInfo" := Record(content["pageInfo"].fields)];
      assert IsCompletePage(content, content["projects"].items, content["pageInfo"].fields);
    }
  }

  /** A project is created exactly by the record of a UUID, the name that was asked for and a context. */
  lemma CreatedIff(content: map<string, Value>, name: string, project: Identity)
    ensures CreatedProject(content, name) == Some(project)
       <==> && content == map["id" := Str(project.id), "name" := Str(project.name),
                              "editingContextId" := Str(project.editingContextId)]
            && project.name == name && IsUuid(project.id) && Trim(name) != "" && Trim(project.editingContextId) != ""
  {
    BlankIffTrimmed(project.name);
    BlankIffTrimmed(project.editingContextId);
    UuidIsNotBlank(project.id);
    if CreatedProject(content, name) == Some(project) {
      assert content == map["id" := Str(project.id), "name" := Str(project.name),
                            "editingContextId" := Str(project.editingContextId)];
    }
  }

  lemma UuidIsNotBlank(id: string)
    ensures IsUuid(id) ==> !IsBlank(id)
  {
    if IsUuid(id) { assert IsHex(id[0]) && !IsSpace(id[0]); }
  }

  predicate Confirms(reply: Reply, identity: Identity) {
    reply.Answered? && IsReadback(reply.content, identity)
  }

  predicate Acknowledges(reply: Reply, identity: Identity) {
    reply.Answered? && IsAcknowledgement(reply.content, identity.id)
  }

  predicate ProvesAbsence(reply: Reply, identity: Identity) {
    reply.Answered? && IsAbsence(reply.content, identity)
  }

  function Established(reply: Reply, name: string): Option<Identity> {
    if reply.Threw? then None else CreatedProject(reply.content, name)
  }

  // --------------------------------------------------------------- a run

  datatype Cleanup =
    | NotCreated
    | IdentityUntrusted
    | DeletedAndAbsent
    | CleanupFailed(deleteAttempts: nat, preReadVerified: bool, residual: Identity)

  function DeleteAttempts(cleanup: Cleanup): nat {
    match cleanup
    case DeletedAndAbsent => 1
    case CleanupFailed(attempts, _, _) => attempts
    case _ => 0
  }

  /** The calls of the middle part, and whether they established the anchor. */
  datatype Evidence = Evidence(calls: seq<WorkTool>, established: bool)

  /** The consumer of the anchor returns a value or fails. */
  datatype Use<+T> = Returned(value: T) | Failed

  datatype Run<+T> = Run(passed: bool, projectName: string, project: Option<Identity>, cleanup: Cleanup, useResult: Option<T>)

  const PROJECT_NAME_PREFIX := "admission-syson-smoke-"

  /** The three ways a cleanup may go, by what the provider answers. */
  ghost predicate Cleaned(before: seq<Call>, after: seq<Call>, answers: nat -> Reply, identity: Identity, cleanup: Cleanup) {
    var n := |before|;
    if !Confirms(answers(n), identity) then
      after == before + [Get(identity.id)] && cleanup == CleanupFailed(0, false, identity)
    else if !Acknowledges(answers(n + 1), identity) then
      after == before + [Get(identity.id), Delete(identity.id)] && cleanup == CleanupFailed(1, true, identity)
    else
      && after == before + [Get(identity.id), Delete(identity.id), ListNamed(identity.name)]
      && cleanup == if ProvesAbsence(answers(n + 2), identity) then DeletedAndAbsent else CleanupFailed(1, true, identity)
  }

  /** Deletes the project only if a read just before shows exactly this project; never retries. */
  method CleanEphemeralProject(client: Provider, identity: Identity) returns (cleanup: Cleanup)
    modifies client
    ensures Cleaned(old(client.trace), client.trace, client.answers, identity, cleanup)
  {
    var beforeDelete := client.CallTool(Get(identity.id));
    if !Confirms(beforeDelete, identity) { return CleanupFailed(0, false, identity); }
    var deleted := client.CallTool(Delete(identity.id));
    if !Acknowledges(deleted, identity) { return CleanupFailed(1, true, identity); }
    var listed := client.CallTool(ListNamed(identity.name));
    if !ProvesAbsence(listed, identity) { return CleanupFailed(1, true, identity); }
    return DeletedAndAbsent;
  }

  function WorkCalls(tools: seq<WorkTool>): (calls: seq<Call>)
    ensures |calls| == |tools| && forall i :: 0 <= i < |calls| ==> calls[i].Work?
  {
    seq(|tools|, i requires 0 <= i < |tools| => Work(tools[i]))
  }

  method DoWork(client: Provider, tools: seq<WorkTool>)
    modifies client
    ensures client.trace == old(client.trace) + WorkCalls(tools)
  {
    for i := 0 to |tools|
      invariant client.trace == old(client.trace) + WorkCalls(tools)[..i]
    {
      var reply := client.CallTool(Work(tools[i]));
      assert WorkCalls(tools)[..i + 1] == WorkCalls(tools)[..i] + [Work(tools[i])];
    }
    assert WorkCalls(tools)[..|tools|] == WorkCalls(tools);
  }

  // ------------------------------------------------------------ safe traces

  /** Exactly one call creates a project, it is the first, and it asks for the generated name. */
  ghost predicate CreatesOnce(trace: seq<Call>, name: string) {
    trace != [] && trace[0] == Create(name) && forall i :: 0 < i < |trace| ==> !trace[i].Create?
  }

  /** The call deletes the project that the first call established, right after a read that shows exactly it. */
  ghost predicate IsAuthorised(trace: seq<Call>, answers: nat -> Reply, name: string, i: nat)
    requires i < |trace| && trace[i].Delete?
  {
    var project := Established(answers(0), name);
    && i > 1 && project.Some? && project.value.name == name && trace[i] == Delete(project.value.id)
    && trace[i - 1] == Get(project.value.id) && Confirms(answers(i - 1), project.value)
  }

  ghost predicate DeletesSafely(trace: seq<Call>, answers: nat -> Reply, name: string) {
    && (forall i :: 0 <= i < |trace| && trace[i].Delete? ==> IsAuthorised(trace, answers, name, i))
    && (forall i, j :: 0 <= i < j < |trace| ==> !(trace[i].Delete? && trace[j].Delete?))
  }

  function Deletes(trace: seq<Call>): nat {
    if trace == [] then 0 else Deletes(trace[..|trace| - 1]) + if trace[|trace| - 1].Delete? then 1 else 0
  }

  lemma {:induction false} NoDeletes(trace: seq<Call>)
    requires forall i :: 0 <= i < |trace| ==> !trace[i].Delete?
    ensures Deletes(trace) == 0
  {
    if trace != [] { NoDeletes(trace[..|trace| - 1]); }
  }

  lemma DeletesNext(trace: seq<Call>, call: Call)
    ensures Deletes(trace + [call]) == Deletes(trace) + if call.Delete? then 1 else 0
  {
    assert (trace + [call])[..|trace|] == trace;
  }

  /** The provider acknowledged the deletion and then listed one complete page without the project. */
  ghost predicate AbsenceProven(trace: seq<Call>, answers: nat -> Reply, name: string) {
    var n, project := |trace|, Established(answers(0), name);
    && n >= 4 && project.Some?
    && trace[n - 2] == Delete(project.value.id) && Acknowledges(answers(n - 2), project.value)
    && trace[n - 1] == ListNamed(name) && ProvesAbsence(answers(n - 1), project.value)
  }

  /** The consumer was reached and returned. */
  ghost predicate ConsumerFinished<T>(answers: nat -> Reply, name: string, work: Identity -> Evidence, use: Identity -> Use<T>) {
    var project := Established(answers(0), name);
    && project.Some? && Confirms(answers(1), project.value)
    && work(project.value).established && use(project.value).Returned?
  }

  // ---------------------------------------------------------------- the run

  /** The calls before the cleanup of an established project. */
  ghost predicate IsOpening(head: seq<Call>, name: string) {
    |head| >= 2 && head[0] == Create(name) && forall i :: 0 < i < |head| ==> !head[i].Create? && !head[i].Delete?
  }

  lemma NothingDeleted(trace: seq<Call>, answers: nat -> Reply, name: string)
    requires trace != [] && trace[0] == Create(name) && forall i :: 0 < i < |trace| ==> !trace[i].Create? && !trace[i].Delete?
    ensures CreatesOnce(trace, name) && DeletesSafely(trace, answers, name) && Deletes(trace) == 0
  {
    NoDeletes(trace);
  }

  lemma DeletesOf(head: seq<Call>, id: string, rest: seq<Call>)
    requires (forall i :: 0 <= i < |head| ==> !head[i].Delete?) && forall i :: 0 <= i < |rest| ==> !rest[i].Delete?
    ensures Deletes(head + [Delete(id)] + rest) == 1
    decreases |rest|
  {
    if rest == [] {
      NoDeletes(head);
      DeletesNext(head, Delete(id));
      assert head + [Delete(id)] + rest == head + [Delete(id)];
    } else {
      var init := rest[..|rest| - 1];
      DeletesOf(head, id, init);
      DeletesNext(head + [Delete(id)] + init, rest[|rest| - 1]);
      assert head + [Delete(id)] + rest == head + [Delete(id)] + init + [rest[|rest| - 1]];
    }
  }

  /** A trace whose one deletion, at `n`, is authorised. */
  lemma OneDeletion(trace: seq<Call>, n: nat, answers: nat -> Reply, name: string)
    requires n < |trace| && trace[n].Delete? && IsAuthorised(trace, answers, name, n)
    requires trace[0] == Create(name) && forall i :: 0 < i < |trace| && i != n ==> !trace[i].Create? && !trace[i].Delete?
    ensures CreatesOnce(trace, name) && DeletesSafely(trace, answers, name)
  {
    forall i | 0 <= i < |trace| && trace[i].Delete?
      ensures i == n
    {
    }
  }

  lemma OneDeleted(head: seq<Call>, rest: seq<Call>, answers: nat -> Reply, name: string, project: Identity)
    requires IsOpening(head, name) && Established(answers(0), name) == Some(project) && Confirms(answers(|head|), project)
    requires rest == [] || rest == [ListNamed(project.name)]
    ensures var trace := head + [Get(project.id), Delete(project.id)] + rest;
            CreatesOnce(trace, name) && DeletesSafely(trace, answers, name) && Deletes(trace) == 1
  {
    var upTo, n := head + [Get(project.id)], |head|;
    var trace := upTo + [Delete(project.id)] + rest;
    assert trace == head + [Get(project.id), Delete(project.id)] + rest;
    DeletesOf(upTo, project.id, rest);
    assert trace[n] == Get(project.id) && trace[n + 1] == Delete(project.id) && trace[0] == head[0];
    forall i | 0 < i < |trace| && i != n + 1
      ensures !trace[i].Create? && !trace[i].Delete?
    {
      assert trace[i] == if i < n then head[i] else if i == n then Get(project.id) else rest[i - n - 2];
    }
    OneDeletion(trace, n + 1, answers, name);
  }

  /** A cleanup after an opening is safe, counts its deletes rightly, and claims absence exactly when it is proven. */
  lemma CleanupIsSafe(head: seq<Call>, trace: seq<Call>, answers: nat -> Reply, name: string, project: Identity, cleanup: Cleanup)
    requires IsOpening(head, name) && Established(answers(0), name) == Some(project)
    requires Cleaned(head, trace, answers, project, cleanup)
    ensures CreatesOnce(trace, name) && DeletesSafely(trace, answers, name)
    ensures DeleteAttempts(cleanup) == Deletes(trace)
    ensures Deletes(trace) == 1 <==> Confirms(answers(|head|), project)
    ensures cleanup.CleanupFailed? ==> cleanup.residual == project && (cleanup.preReadVerified <==> Deletes(trace) == 1)
    ensures cleanup == DeletedAndAbsent <==> AbsenceProven(trace, answers, name)
  {
    CleanupCounts(head, trace, answers, name, project, cleanup);
    CleanupTellsAbsence(head, trace, answers, name, project, cleanup);
  }

  lemma CleanupCounts(head: seq<Call>, trace: seq<Call>, answers: nat -> Reply, name: string, project: Identity, cleanup: Cleanup)
    requires IsOpening(head, name) && Established(answers(0), name) == Some(project)
    requires Cleaned(head, trace, answers, project, cleanup)
    ensures CreatesOnce(trace, name) && DeletesSafely(trace, answers, name)
    ensures DeleteAttempts(cleanup) == Deletes(trace) && (Deletes(trace) == 1 <==> Confirms(answers(|head|), project))
  {
    if !Confirms(answers(|head|), project) {
      NothingDeleted(trace, answers, name);
    } else if !Acknowledges(answers(|head| + 1), project) {
      assert trace == head + [Get(project.id), Delete(project.id)] + [];
      OneDeleted(head, [], answers, name, project);
    } else {
      assert trace == head + [Get(project.id), Delete(project.id)] + [ListNamed(project.name)];
      OneDeleted(head, [ListNamed(project.name)], answers, name, project);
    }
  }

  lemma CleanupTellsAbsence(head: seq<Call>, trace: seq<Call>, answers: nat -> Reply, name: string, project: Identity,
                            cleanup: Cleanup)
    requires IsOpening(head, name) && Established(answers(0), name) == Some(project)
    requires Cleaned(head, trace, answers, project, cleanup)
    ensures cleanup == DeletedAndAbsent <==> AbsenceProven(trace, answers, name)
  {
    var n := |head|;
    if !Confirms(answers(n), project) {
      assert trace[|trace| - 1] == Get(project.id);
    } else if !Acknowledges(answers(n + 1), project) {
      assert trace[|trace| - 1] == Delete(project.id);
    } else {
      assert trace[n + 1] == Delete(project.id) && trace[n + 2] == ListNamed(name);
    }
  }

  /** The run ends in the cleanup: the project is deleted exactly if the read just before confirms it, and what is left
      behind is named when absence is not proven. */
  ghost predicate EndsInCleanup(trace: seq<Call>, answers: nat -> Reply, name: string, project: Identity, cleanup: Cleanup) {
    && (exists head :: IsOpening(head, name) && IsCleanupFrom(head, trace, answers, project))
    && (cleanup == DeletedAndAbsent <==> AbsenceProven(trace, answers, name))
    && (cleanup != DeletedAndAbsent ==> cleanup == CleanupFailed(Deletes(trace), Deletes(trace) == 1, project))
  }

  /** After `head`: a read, a delete if it confirms the project, a list if the delete is acknowledged. */
  ghost predicate IsCleanupFrom(head: seq<Call>, trace: seq<Call>, answers: nat -> Reply, project: Identity) {
    var n := |head|;
    && n < |trace| && trace[..n] == head && trace[n] == Get(project.id)
    && (|trace| > n + 1 <==> Confirms(answers(n), project)) && (|trace| > n + 1 ==> trace[n + 1] == Delete(project.id))
    && (|trace| > n + 2 <==> Confirms(answers(n), project) && Acknowledges(answers(n + 1), project))
    && (|trace| > n + 2 ==> trace[n + 2..] == [ListNamed(project.name)])
  }

  lemma CleanedFrom(head: seq<Call>, trace: seq<Call>, answers: nat -> Reply, project: Identity, cleanup: Cleanup)
    requires Cleaned(head, trace, answers, project, cleanup)
    ensures IsCleanupFrom(head, trace, answers, project)
    ensures cleanup.DeletedAndAbsent? || cleanup.CleanupFailed?
  {
  }

  /** Everything that holds of a run, whatever the provider answers. */
  ghost predicate IsSafeRun<T>(run: Run<T>, trace: seq<Call>, answers: nat -> Reply, uuid: string,
                               work: Identity -> Evidence, use: Identity -> Use<T>) {
    var name := PROJECT_NAME_PREFIX + uuid;
    var project := Established(answers(0), name);
    && run.projectName == name && run.project == project
    && CreatesOnce(trace, name) && DeletesSafely(trace, answers, name)
    && DeleteAttempts(run.cleanup) == Deletes(trace)
    && (project.Some? ==> EndsInCleanup(trace, answers, name, project.value, run.cleanup))
    && (run.useResult.Some? <==> ConsumerFinished(answers, name, work, use) && AbsenceProven(trace, answers, name))
    && (run.useResult.Some? ==> use(project.value) == Returned(run.useResult.value))
    && run.passed == run.useResult.Some?
    && run.cleanup != NotCreated && (run.cleanup == IdentityUntrusted <==> project.None?)
  }

  /** What happens between the creation and the cleanup. */
  method Consume<T>(client: Provider, name: string, project: Identity, work: Identity -> Evidence, use: Identity -> Use<T>)
    returns (useResult: Option<T>)
    requires client.trace == [Create(name)] && Established(client.answers(0), name) == Some(project)
    modifies client
    ensures IsOpening(client.trace, name)
    ensures useResult.Some? <==> ConsumerFinished(client.answers, name, work, use)
    ensures useResult.Some? ==> use(project) == Returned(useResult.value)
  {
    var readback := client.CallTool(Get(project.id));
    if !Confirms(readback, project) { return None; }
    var evidence := work(project);
    DoWork(client, evidence.calls);
    if !evidence.established { return None; }
    var used := use(project);
    return if used.Returned? then Some(used.value) else None;
  }

  /** Input validation fails before any call; otherwise one run, whatever the provider answers. */
  method WithEphemeralAnchor<T>(client: Provider, admitted: bool, uuid: string, work: Identity -> Evidence, use: Identity -> Use<T>)
    returns (run: Option<Run<T>>)
    requires client.trace == []
    modifies client
    ensures run.Some? <==> admitted && IsUuid(uuid)
    ensures run.None? ==> client.trace == []
    ensures run.Some? ==> IsSafeRun(run.value, client.trace, client.answers, uuid, work, use)
  {
    if !admitted || !IsUuid(uuid) { return None; }
    var projectName := PROJECT_NAME_PREFIX + uuid;
    var createDispatched := false;
    createDispatched := true;
    var created := client.CallTool(Create(projectName));
    var project := Established(created, projectName);
    if project.None? {
      NothingDeleted(client.trace, client.answers, projectName);
      return Some(Run(false, projectName, None, if createDispatched then IdentityUntrusted else NotCreated, None));
    }
    var useResult := Consume(client, projectName, project.value, work, use);
    ghost var head := client.trace;
    var cleanup := CleanEphemeralProject(client, project.value);
    CleanupIsSafe(head, client.trace, client.answers, projectName, project.value, cleanup);
    CleanedFrom(head, client.trace, client.answers, project.value, cleanup);
    var failed := useResult.None? || cleanup != DeletedAndAbsent;
    return Some(Run(!failed, projectName, project, cleanup, if failed then None else useResult));
  }
}
