/** What an admitted document holds, entry by entry, in terms of the request alone. */
module AdmittedDocuments {
  import opened Text
  import opened Identifiers
  import opened StableSort
  import opened Admission
  import opened AdmissionLaws

  // --------------------------------------------------------------- orders

  /** By source, then by symbol, then by id. */
  predicate InOrder3(source: string, symbol: string, id: string, source': string, symbol': string, id': string) {
    if source != source' then Less(source, source')
    else if symbol != symbol' then Less(symbol, symbol')
    else id == id' || Less(id, id')
  }

  predicate BindingsInOrder(x: Binding, y: Binding) {
    InOrder3(x.sourceId, x.symbolId, x.id, y.sourceId, y.symbolId, y.id)
  }

  predicate DiagnosticsInOrder(x: Diagnostic, y: Diagnostic) {
    InOrder3(x.sourceId, x.symbolId, x.id, y.sourceId, y.symbolId, y.id)
  }

  ghost predicate AreOrdered(bindings: seq<Binding>, diagnostics: seq<Diagnostic>, refs: seq<SourceRef>) {
    && (forall i, j :: 0 <= i < j < |bindings| ==> BindingsInOrder(bindings[i], bindings[j]))
    && (forall i, j :: 0 <= i < j < |diagnostics| ==> DiagnosticsInOrder(diagnostics[i], diagnostics[j]))
    && (forall i, j :: 0 <= i < j < |refs| ==> AtMost(refs[i].sourceId, refs[j].sourceId))
  }

  // --------------------------------------------------------------- entries

  /** The ids of the bindings from one source, in the order of the bindings: `ks` are their places. */
  ghost predicate PicksFrom(ks: seq<nat>, refs: seq<string>, bindings: seq<Binding>, sourceId: string) {
    && |ks| == |refs| && (forall i, j :: 0 <= i < j < |ks| ==> ks[i] < ks[j])
    && (forall i :: 0 <= i < |ks| ==> ks[i] < |bindings| && bindings[ks[i]].sourceId == sourceId && bindings[ks[i]].id == refs[i])
    && forall k: nat :: k < |bindings| && bindings[k].sourceId == sourceId ==> k in ks
  }

  ghost predicate ListsBindingsOf(refs: seq<string>, bindings: seq<Binding>, sourceId: string) {
    exists ks :: PicksFrom(ks, refs, bindings, sourceId)
  }

  ghost predicate NamesBrief(request: Request, document: Document) {
    exists s :: s in request.sources && s.role == Brief && document.briefId == s.id && document.briefFingerprint == s.fingerprint
                && ListsBindingsOf(document.briefRefs, document.bindings, s.id)
  }

  ghost predicate NamesAnchor(request: Request, document: Document) {
    exists s :: s in request.sources && s.role == SysmlModel && document.anchorId == s.id
                && document.anchorFingerprint == s.fingerprint
  }

  predicate RefersToSource(ref: SourceRef, s: Source, outside: Outside) {
    && ref.sourceId == s.id && ref.role == s.role && ref.language == s.language && ref.fingerprint == s.fingerprint
    && ref.analysis == outside.analysis(s)
  }

  /** The id is the text, cut off at 256 characters, with a hyphen for each character that no id may have. */
  predicate IsCleaned(id: string, raw: string) {
    && |id| == (if |raw| <= 256 then |raw| else 256)
    && forall i :: 0 <= i < |id| ==> id[i] == if IsSafeChar(raw[i]) then raw[i] else '-'
  }

  /** A symbol beside the anchor that no binding starts from. */
  ghost predicate ReportsMissing(d: Diagnostic, request: Request) {
    exists s, symbol :: IsMissingAt(d, request, s, symbol)
  }

  ghost predicate IsMissingAt(d: Diagnostic, request: Request, s: Source, symbol: string) {
    && s in request.sources && s.role != SysmlModel && symbol in s.symbols
    && (forall b :: b in request.bindings ==> b.sourceId != s.id || b.symbolId != symbol)
    && d.code == MissingBinding && d.sourceId == s.id && d.symbolId == symbol && d.message == MISSING_MESSAGE
    && IsCleaned(d.id, "missing-explicit-binding" + (":" + s.id + ":" + symbol))
  }

  ghost predicate ReportsUnresolved(d: Diagnostic, request: Request) {
    exists s, construct :: IsUnresolvedAt(d, request, s, construct)
  }

  ghost predicate IsUnresolvedAt(d: Diagnostic, request: Request, s: Source, construct: Construct) {
    && s in request.sources && construct in s.unresolved
    && d.code == UnresolvedConstruct && d.sourceId == s.id && d.symbolId == "" && d.message == construct.message
    && IsCleaned(d.id, "source-unresolved-construct" + (":" + s.id + ":" + construct.id))
  }

  ghost predicate EverythingIsReported(request: Request, document: Document) {
    && (forall s, symbol ::
          s in request.sources && s.role != SysmlModel && symbol in s.symbols
          && (forall b :: b in request.bindings ==> b.sourceId != s.id || b.symbolId != symbol)
          ==> exists d :: d in document.diagnostics && IsMissingAt(d, request, s, symbol))
    && (forall s, construct :: s in request.sources && construct in s.unresolved
          ==> exists d :: d in document.diagnostics && IsUnresolvedAt(d, request, s, construct))
  }

  /** The projection of the source in this role, with the profile that the request chose for the target. */
  ghost predicate IsProjection(projection: Projection, target: Target, role: Role, chosen: string, request: Request,
                               profiles: seq<Profile>, bindings: seq<Binding>)
  {
    exists s, p :: IsProjectionOf(projection, target, role, chosen, request, profiles, bindings, s, p)
  }

  ghost predicate IsProjectionOf(projection: Projection, target: Target, role: Role, chosen: string, request: Request,
                                 profiles: seq<Profile>, bindings: seq<Binding>, s: Source, p: Profile)
  {
    && s in request.sources && s.role == role && p in profiles && p.id == chosen && p.target == target
    && projection.target == target && projection.sourceId == s.id && projection.fingerprint == s.fingerprint
    && projection.profile == p.id && projection.version == p.version && projection.contract == p.contract
    && ListsBindingsOf(projection.bindingRefs, bindings, s.id)
    && (projection.resolved <==>
          s.unresolved == []
          && forall symbol :: symbol in s.symbols ==>
               exists b :: b in request.bindings && b.sourceId == s.id && b.symbolId == symbol)
  }

  ghost predicate AreProjections(projections: seq<Projection>, request: Request, profiles: seq<Profile>, bindings: seq<Binding>) {
    && |projections| == 3
    && IsProjection(projections[0], ToBuild123d, CadScript, request.build123dProfile, request, profiles, bindings)
    && IsProjection(projections[1], ToModelica, ModelicaModel, request.modelicaProfile, request, profiles, bindings)
    && IsProjection(projections[2], ToCalculix, CalculixInput, request.calculixProfile, request, profiles, bindings)
  }

  ghost predicate IsAdmitted(request: Request, profiles: seq<Profile>, outside: Outside, document: Document) {
    && document.compilationId == request.compilationId && document.claim == request.claim
    && NamesBrief(request, document) && NamesAnchor(request, document)
    && multiset(document.bindings) == multiset(request.bindings)
    && |document.sourceRefs| == |request.sources|
    && (forall s :: s in request.sources ==> exists ref :: ref in document.sourceRefs && RefersToSource(ref, s, outside))
    && (forall d :: d in document.diagnostics ==> ReportsMissing(d, request) || ReportsUnresolved(d, request))
    && EverythingIsReported(request, document) && AreOrdered(document.bindings, document.diagnostics, document.sourceRefs)
    && (document.resolved <==> document.diagnostics == [])
    && AreProjections(document.projections, request, profiles, document.bindings)
  }

  // ----------------------------------------------------------------- proofs

  lemma RefsToNext(bindings: seq<Binding>, sourceId: string)
    requires bindings != []
    ensures var init, last := bindings[..|bindings| - 1], bindings[|bindings| - 1];
            RefsTo(bindings, sourceId) == if last.sourceId == sourceId then RefsTo(init, sourceId) + [last.id] else RefsTo(init, sourceId)
  {
    var init, last := bindings[..|bindings| - 1], bindings[|bindings| - 1];
    var p := InGroup(FromSource, sourceId);
    assert bindings == init + [last];
    FilterAppend(init, [last], p);
    assert Filter([last], p) == if last.sourceId == sourceId then [last] else [];
    IdsAppend(Filter(init, p), Filter([last], p));
  }

  lemma {:induction false} FilterPicks(bindings: seq<Binding>, sourceId: string) returns (ks: seq<nat>)
    ensures PicksFrom(ks, RefsTo(bindings, sourceId), bindings, sourceId)
  {
    if bindings == [] {
      ks := [];
    } else {
      var before := FilterPicks(bindings[..|bindings| - 1], sourceId);
      ks := PicksNext(before, bindings, sourceId);
    }
  }

  lemma PicksNext(before: seq<nat>, bindings: seq<Binding>, sourceId: string) returns (ks: seq<nat>)
    requires bindings != []
    requires PicksFrom(before, RefsTo(bindings[..|bindings| - 1], sourceId), bindings[..|bindings| - 1], sourceId)
    ensures PicksFrom(ks, RefsTo(bindings, sourceId), bindings, sourceId)
  {
    var n := |bindings| - 1;
    RefsToNext(bindings, sourceId);
    if bindings[n].sourceId == sourceId {
      PicksMore(before, RefsTo(bindings[..n], sourceId), bindings, sourceId);
      ks := before + [n];
    } else {
      PicksSame(before, RefsTo(bindings[..n], sourceId), bindings, sourceId);
      ks := before;
    }
  }

  lemma PicksMore(ks: seq<nat>, refs: seq<string>, bindings: seq<Binding>, sourceId: string)
    requires bindings != [] && PicksFrom(ks, refs, bindings[..|bindings| - 1], sourceId)
    requires bindings[|bindings| - 1].sourceId == sourceId
    ensures PicksFrom(ks + [|bindings| - 1], refs + [bindings[|bindings| - 1].id], bindings, sourceId)
  {
    var n := |bindings| - 1;
    var more := ks + [n];
    forall k: nat | k < |bindings| && bindings[k].sourceId == sourceId
      ensures k in more
    {
      if k < n {
        assert bindings[..n][k] == bindings[k];
      } else {
        assert more[|ks|] == k;
      }
    }
  }

  lemma PicksSame(ks: seq<nat>, refs: seq<string>, bindings: seq<Binding>, sourceId: string)
    requires bindings != [] && PicksFrom(ks, refs, bindings[..|bindings| - 1], sourceId)
    requires bindings[|bindings| - 1].sourceId != sourceId
    ensures PicksFrom(ks, refs, bindings, sourceId)
  {
    var n := |bindings| - 1;
    forall k: nat | k < |bindings| && bindings[k].sourceId == sourceId
      ensures k in ks
    {
      assert bindings[..n][k] == bindings[k];
    }
  }

  lemma RefsAreListed(bindings: seq<Binding>, sourceId: string)
    ensures ListsBindingsOf(RefsTo(bindings, sourceId), bindings, sourceId)
  {
    var ks := FilterPicks(bindings, sourceId);
  }

  lemma SanitizedIsCleaned(raw: string)
    ensures IsCleaned(Sanitized(raw), raw)
  {
  }

  lemma {:induction false} MissingInSource(s: Source, symbols: seq<string>, request: Request)
    requires s in request.sources && s.role != SysmlModel && forall i :: 0 <= i < |symbols| ==> symbols[i] in s.symbols
    ensures forall d :: d in MissingSymbols(s.id, symbols, request.bindings) ==> ReportsMissing(d, request)
  {
    if symbols != [] {
      MissingInSource(s, symbols[1..], request);
      SanitizedIsCleaned("missing-explicit-binding" + (":" + s.id + ":" + symbols[0]));
      if !IsBound(request.bindings, s.id, symbols[0]) {
        assert IsMissingAt(MissingDiagnostic(s.id, symbols[0]), request, s, symbols[0]);
      }
    }
  }

  lemma UnresolvedInSource(s: Source, request: Request)
    requires s in request.sources
    ensures forall d :: d in UnresolvedIn(s) ==> ReportsUnresolved(d, request)
  {
    forall d | d in UnresolvedIn(s)
      ensures ReportsUnresolved(d, request)
    {
      var i :| 0 <= i < |s.unresolved| && d == UnresolvedDiagnostic(s.id, s.unresolved[i]);
      SanitizedIsCleaned("source-unresolved-construct" + (":" + s.id + ":" + s.unresolved[i].id));
      assert IsUnresolvedAt(d, request, s, s.unresolved[i]);
    }
  }

  lemma EveryDiagnosticReports(request: Request)
    ensures forall d :: d in AllDiagnostics(request) ==> ReportsMissing(d, request) || ReportsUnresolved(d, request)
  {
    GatherMembers(request.sources, MissingIn(request.bindings));
    GatherMembers(request.sources, UnresolvedIn);
    forall s | s in request.sources
      ensures forall d :: d in MissingIn(request.bindings)(s) ==> ReportsMissing(d, request)
      ensures forall d :: d in UnresolvedIn(s) ==> ReportsUnresolved(d, request)
    {
      if s.role != SysmlModel { MissingInSource(s, s.symbols, request); }
      UnresolvedInSource(s, request);
    }
  }

  lemma {:induction false} MissingIsReported(s: Source, symbols: seq<string>, symbol: string, request: Request)
    requires symbol in symbols && forall b :: b in request.bindings ==> b.sourceId != s.id || b.symbolId != symbol
    ensures MissingDiagnostic(s.id, symbol) in MissingSymbols(s.id, symbols, request.bindings)
  {
    if symbols[0] != symbol { MissingIsReported(s, symbols[1..], symbol, request); }
  }

  lemma MissingDiagnosticIsThere(request: Request, s: Source, symbol: string)
    requires s in request.sources && s.role != SysmlModel && symbol in s.symbols
    requires forall b :: b in request.bindings ==> b.sourceId != s.id || b.symbolId != symbol
    ensures MissingDiagnostic(s.id, symbol) in AllDiagnostics(request)
    ensures IsMissingAt(MissingDiagnostic(s.id, symbol), request, s, symbol)
  {
    MissingIsReported(s, s.symbols, symbol, request);
    GatherMembers(request.sources, MissingIn(request.bindings));
    assert MissingDiagnostic(s.id, symbol) in MissingIn(request.bindings)(s);
    SanitizedIsCleaned("missing-explicit-binding" + (":" + s.id + ":" + symbol));
  }

  lemma UnresolvedDiagnosticIsThere(request: Request, s: Source, construct: Construct)
    requires s in request.sources && construct in s.unresolved
    ensures UnresolvedDiagnostic(s.id, construct) in AllDiagnostics(request)
    ensures IsUnresolvedAt(UnresolvedDiagnostic(s.id, construct), request, s, construct)
  {
    GatherMembers(request.sources, UnresolvedIn);
    var i :| 0 <= i < |s.unresolved| && s.unresolved[i] == construct;
    assert UnresolvedIn(s)[i] == UnresolvedDiagnostic(s.id, construct);
    SanitizedIsCleaned("source-unresolved-construct" + (":" + s.id + ":" + construct.id));
  }

  lemma ReportsEverything(request: Request, document: Document)
    requires forall d :: d in document.diagnostics <==> d in AllDiagnostics(request)
    ensures EverythingIsReported(request, document)
  {
    forall s, symbol |
      s in request.sources && s.role != SysmlModel && symbol in s.symbols
      && (forall b :: b in request.bindings ==> b.sourceId != s.id || b.symbolId != symbol)
      ensures exists d :: d in document.diagnostics && IsMissingAt(d, request, s, symbol)
    {
      MissingDiagnosticIsThere(request, s, symbol);
    }
    forall s, construct | s in request.sources && construct in s.unresolved
      ensures exists d :: d in document.diagnostics && IsUnresolvedAt(d, request, s, construct)
    {
      UnresolvedDiagnosticIsThere(request, s, construct);
    }
  }

  lemma SortedMembers<T(!new)>(s: seq<T>, le: (T, T) -> bool)
    ensures |Sort(s, le)| == |s| && multiset(Sort(s, le)) == multiset(s) && forall x :: x in Sort(s, le) <==> x in s
  {
    SortMultiset(s, le);
    assert |multiset(Sort(s, le))| == |multiset(s)|;
    forall x
      ensures x in Sort(s, le) <==> x in s
    {
      InMultiset(Sort(s, le), s, x);
    }
  }

  lemma AtMost3IsInOrder(a: (string, string, string), b: (string, string, string))
    requires AtMost3(a, b)
    ensures InOrder3(a.0, a.1, a.2, b.0, b.1, b.2)
  {
    LessIsAsymmetric(a.0, b.0);
    LessIsAsymmetric(a.1, b.1);
  }

  lemma SortedBindings(bindings: seq<Binding>)
    ensures var sorted := Sort(bindings, BindingLe);
            forall i, j :: 0 <= i < j < |sorted| ==> BindingsInOrder(sorted[i], sorted[j])
  {
    BindingOrder();
    SortSorted(bindings, BindingLe);
    forall x: Binding, y: Binding | BindingLe(x, y)
      ensures BindingsInOrder(x, y)
    {
      AtMost3IsInOrder((x.sourceId, x.symbolId, x.id), (y.sourceId, y.symbolId, y.id));
    }
  }

  lemma SortedDiagnostics(diagnostics: seq<Diagnostic>)
    ensures var sorted := Sort(diagnostics, DiagnosticLe);
            forall i, j :: 0 <= i < j < |sorted| ==> DiagnosticsInOrder(sorted[i], sorted[j])
  {
    DiagnosticOrder();
    SortSorted(diagnostics, DiagnosticLe);
    forall x: Diagnostic, y: Diagnostic | DiagnosticLe(x, y)
      ensures DiagnosticsInOrder(x, y)
    {
      AtMost3IsInOrder((x.sourceId, x.symbolId, x.id), (y.sourceId, y.symbolId, y.id));
    }
  }

  lemma SortedRefs(refs: seq<SourceRef>)
    ensures var sorted := Sort(refs, SourceRefLe);
            forall i, j :: 0 <= i < j < |sorted| ==> AtMost(sorted[i].sourceId, sorted[j].sourceId)
  {
    SourceRefOrder();
    SortSorted(refs, SourceRefLe);
  }

  lemma SortedAreOrdered(bindings: seq<Binding>, diagnostics: seq<Diagnostic>, refs: seq<SourceRef>)
    ensures AreOrdered(Sort(bindings, BindingLe), Sort(diagnostics, DiagnosticLe), Sort(refs, SourceRefLe))
  {
    SortedBindings(bindings);
    SortedDiagnostics(diagnostics);
    SortedRefs(refs);
  }

  lemma {:induction false} OneRefEach(sources: seq<Source>, outside: Outside)
    ensures |Gather(sources, RefOf(outside))| == |sources|
  {
    if sources != [] { OneRefEach(sources[..|sources| - 1], outside); }
  }

  lemma EverySourceHasARef(request: Request, outside: Outside)
    ensures forall s :: s in request.sources ==>
              exists ref :: ref in Sort(Gather(request.sources, RefOf(outside)), SourceRefLe) && RefersToSource(ref, s, outside)
  {
    var refs := Gather(request.sources, RefOf(outside));
    GatherMembers(request.sources, RefOf(outside));
    SortedMembers(refs, SourceRefLe);
    forall s | s in request.sources
      ensures exists ref :: ref in Sort(refs, SourceRefLe) && RefersToSource(ref, s, outside)
    {
      var ref := RefOf(outside)(s)[0];
      assert ref in RefOf(outside)(s) && ref in refs && RefersToSource(ref, s, outside);
    }
  }

  lemma ProjectsAsChosen(request: Request, profiles: seq<Profile>, bindings: seq<Binding>, target: Target)
    requires WithRole(request.sources, RoleOf(target)).Some? && ProfileSelected(request, profiles, target)
    ensures IsProjection(Project(request, profiles, bindings, target), target, RoleOf(target), ChosenProfile(request, target),
                         request, profiles, bindings)
  {
    var s := WithRole(request.sources, RoleOf(target)).value;
    var p := WithProfileId(profiles, ChosenProfile(request, target)).value;
    RefsAreListed(bindings, s.id);
    assert IsProjectionOf(Project(request, profiles, bindings, target), target, RoleOf(target), ChosenProfile(request, target),
                          request, profiles, bindings, s, p);
  }

  lemma NamesItsSources(request: Request, profiles: seq<Profile>, outside: Outside)
    requires Admissible(request, profiles, outside)
    ensures NamesBrief(request, Linked(request, profiles, outside)) && NamesAnchor(request, Linked(request, profiles, outside))
  {
    var brief := WithRole(request.sources, Brief).value;
    RefsAreListed(Sort(request.bindings, BindingLe), brief.id);
  }

  lemma ProjectedAsChosen(request: Request, profiles: seq<Profile>, bindings: seq<Binding>)
    requires forall target :: WithRole(request.sources, RoleOf(target)).Some? && ProfileSelected(request, profiles, target)
    ensures AreProjections([Project(request, profiles, bindings, ToBuild123d), Project(request, profiles, bindings, ToModelica),
                            Project(request, profiles, bindings, ToCalculix)], request, profiles, bindings)
  {
    ProjectsAsChosen(request, profiles, bindings, ToBuild123d);
    ProjectsAsChosen(request, profiles, bindings, ToModelica);
    ProjectsAsChosen(request, profiles, bindings, ToCalculix);
  }

  lemma EveryTargetSelected(request: Request, profiles: seq<Profile>, outside: Outside)
    requires Admissible(request, profiles, outside)
    ensures forall target :: WithRole(request.sources, RoleOf(target)).Some? && ProfileSelected(request, profiles, target)
  {
    HasEveryRole(request.sources, outside);
    forall target: Target
      ensures WithRole(request.sources, RoleOf(target)).Some? && ProfileSelected(request, profiles, target)
    {
      match target
      case ToBuild123d =>
      case ToModelica =>
      case ToCalculix =>
    }
  }

  /** The document of an admissible request holds just these entries. */
  lemma LinkedIsAdmitted(request: Request, profiles: seq<Profile>, outside: Outside)
    requires Admissible(request, profiles, outside)
    ensures IsAdmitted(request, profiles, outside, Linked(request, profiles, outside))
  {
    NamesItsSources(request, profiles, outside);
    EveryTargetSelected(request, profiles, outside);
    ProjectedAsChosen(request, profiles, Sort(request.bindings, BindingLe));
    SortedAreOrdered(request.bindings, AllDiagnostics(request), Gather(request.sources, RefOf(outside)));
    SortedMembers(request.bindings, BindingLe);
    SortedMembers(AllDiagnostics(request), DiagnosticLe);
    SortedMembers(Gather(request.sources, RefOf(outside)), SourceRefLe);
    OneRefEach(request.sources, outside);
    EverySourceHasARef(request, outside);
    EveryDiagnosticReports(request);
    ReportsEverything(request, Linked(request, profiles, outside));
  }
}
