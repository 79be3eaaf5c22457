/** The compiler of admission requests: it parses, links and sorts step by step. */
module AdmissionCompiler {
  import opened Text
  import opened Identifiers
  import opened StableSort
  import opened Admission
  import opened AdmissionLaws
  import opened AdmittedDocuments

  // ------------------------------------------------------------- parsing

  lemma ExpectedLanguage(sources: seq<Source>, role: Role, language: Language)
    requires DistinctGroups(sources, SourceRole)
    ensures HasSource(sources, role, language)
            <==> WithRole(sources, role).Some? && WithRole(sources, role).value.language == language
  {
    if HasSource(sources, role, language) {
      var s :| s in sources && s.role == role && s.language == language;
      OneOfGroup(sources, SourceRole, s, WithRole(sources, role).value);
    }
  }

  method AcceptSources(sources: seq<Source>, outside: Outside) returns (accepted: bool)
    ensures accepted <==> SourcesClosed(sources, outside)
  {
    if |sources| != |EXPECTED| { return false; }
    var roles := Distinct(sources, SourceRole);
    if !roles { return false; }
    var ids := Distinct(sources, SourceId);
    if !ids { return false; }
    for i := 0 to |EXPECTED|
      invariant forall k :: 0 <= k < i ==> HasSource(sources, EXPECTED[k].0, EXPECTED[k].1)
    {
      ExpectedLanguage(sources, EXPECTED[i].0, EXPECTED[i].1);
      var source := WithRole(sources, EXPECTED[i].0);
      if source.None? || source.value.language != EXPECTED[i].1 { return false; }
    }
    for i := 0 to |sources|
      invariant forall s :: s in sources[..i] ==> s.passed && outside.digest(s.text) == s.fingerprint
    {
      assert sources[i] in sources;
      if !sources[i].passed { return false; }
      if outside.digest(sources[i].text) != sources[i].fingerprint { return false; }
    }
    assert sources == sources[..|sources|];
    return true;
  }

  method AcceptProfiles(profiles: seq<Profile>) returns (accepted: bool)
    ensures accepted <==> ProfilesClosed(profiles)
  {
    for i := 0 to |profiles|
      invariant forall p :: p in profiles[..i] ==> ProfileFits(p)
    {
      assert profiles[i] in profiles;
      if !ProfileFits(profiles[i]) { return false; }
    }
    assert profiles == profiles[..|profiles|];
    var ids := Distinct(profiles, ProfileId);
    if !ids { return false; }
    var targets := Distinct(profiles, TargetName);
    return targets && |profiles| == 3;
  }

  method AcceptBindings(bindings: seq<Binding>) returns (accepted: bool)
    ensures accepted <==> (forall b :: b in bindings ==> BindingFits(b)) && DistinctGroups(bindings, BindingId)
  {
    for i := 0 to |bindings|
      invariant forall b :: b in bindings[..i] ==> BindingFits(b)
    {
      assert bindings[i] in bindings;
      if !BindingFits(bindings[i]) { return false; }
    }
    assert bindings == bindings[..|bindings|];
    accepted := Distinct(bindings, BindingId);
  }

  // ------------------------------------------------------------- linking

  function PairsOf(source: Source): seq<(string, string)> {
    if source.role == SysmlModel then [] else PairList(source.id, source.symbols)
  }

  function PairList(sourceId: string, symbols: seq<string>): seq<(string, string)> {
    seq(|symbols|, i requires 0 <= i < |symbols| => (sourceId, symbols[i]))
  }

  function KeysOf(source: Source): set<string> {
    if source.role == SysmlModel then {} else SomeKeys(source.id, source.symbols)
  }

  function SomeKeys(sourceId: string, symbols: seq<string>): set<string> {
    set x | x in symbols :: SymbolKey(sourceId, x)
  }

  function ExpectedKeys(sources: seq<Source>): set<string> {
    if sources == [] then {} else ExpectedKeys(sources[..|sources| - 1]) + KeysOf(sources[|sources| - 1])
  }

  ghost predicate AllWellFormed(sources: seq<Source>) {
    forall s :: s in sources ==> WellFormed(s)
  }

  predicate Offers(sources: seq<Source>, sourceId: string, symbolId: string) {
    exists s :: s in sources && s.id == sourceId && s.role != SysmlModel && symbolId in s.symbols
  }

  lemma KeyOf(source: Source, sourceId: string, symbolId: string)
    requires WellFormed(source) && NUL !in sourceId
    ensures SymbolKey(sourceId, symbolId) in KeysOf(source)
            <==> source.id == sourceId && source.role != SysmlModel && symbolId in source.symbols
  {
    if SymbolKey(sourceId, symbolId) in KeysOf(source) {
      var x :| x in source.symbols && SymbolKey(source.id, x) == SymbolKey(sourceId, symbolId);
      KeyIsInjective(source.id, x, sourceId, symbolId);
    }
  }

  /** A key is known exactly when some source beside the anchor offers its symbol. */
  lemma {:induction false} KeyIsKnown(sources: seq<Source>, sourceId: string, symbolId: string)
    requires AllWellFormed(sources) && NUL !in sourceId
    ensures SymbolKey(sourceId, symbolId) in ExpectedKeys(sources) <==> Offers(sources, sourceId, symbolId)
  {
    if sources != [] {
      var init, last := sources[..|sources| - 1], sources[|sources| - 1];
      assert last in sources && forall s :: s in sources <==> s in init || s == last;
      KeyIsKnown(init, sourceId, symbolId);
      KeyOf(last, sourceId, symbolId);
    }
  }

  lemma NewSource(sources: seq<Source>, i: nat, symbolId: string)
    requires i < |sources| && DistinctGroups(sources, SourceId) && AllWellFormed(sources)
    ensures SymbolKey(sources[i].id, symbolId) !in ExpectedKeys(sources[..i])
  {
    assert sources[i] in sources && AllWellFormed(sources[..i]);
    KeyIsKnown(sources[..i], sources[i].id, symbolId);
    forall s | s in sources[..i]
      ensures s.id != sources[i].id
    {
      DistinctSlice(sources, SourceId, 0, i);
      assert sources[0..i] == sources[..i] && SourceId(s) != SourceId(sources[i]);
    }
  }

  lemma NewSymbol(source: Source, j: nat)
    requires WellFormed(source) && j < |source.symbols|
    ensures SymbolKey(source.id, source.symbols[j]) !in SomeKeys(source.id, source.symbols[..j])
  {
    var key := SymbolKey(source.id, source.symbols[j]);
    if key in SomeKeys(source.id, source.symbols[..j]) {
      var x :| x in source.symbols[..j] && SymbolKey(source.id, x) == key;
      KeyIsInjective(source.id, x, source.id, source.symbols[j]);
      var k :| 0 <= k < j && source.symbols[k] == x;
      SortedIsDistinct(source.symbols, k, j);
    }
  }

  /** Inserts the symbols of one source; the table lists its keys in the order of their insertion. */
  method AddSymbols(source: Source, pairs: seq<(string, string)>, keys: set<string>)
    returns (pairs': seq<(string, string)>, keys': set<string>)
    requires WellFormed(source) && source.role != SysmlModel && keys !! KeysOf(source)
    ensures pairs' == pairs + PairsOf(source) && keys' == keys + KeysOf(source)
  {
    pairs', keys' := pairs, keys;
    for j := 0 to |source.symbols|
      invariant pairs' == pairs + PairsOf(source)[..j]
      invariant keys' == keys + SomeKeys(source.id, source.symbols[..j])
    {
      var key := SymbolKey(source.id, source.symbols[j]);
      NewSymbol(source, j);
      assert key in KeysOf(source);
      if key !in keys' {
        pairs' := pairs' + [(source.id, source.symbols[j])];
      }
      keys' := keys' + {key};
      assert source.symbols[..j + 1] == source.symbols[..j] + [source.symbols[j]];
    }
    assert source.symbols[..|source.symbols|] == source.symbols;
  }

  lemma GatherStep<T>(sources: seq<Source>, i: nat, part: Source -> seq<T>)
    requires i < |sources|
    ensures Gather(sources[..i + 1], part) == Gather(sources[..i], part) + part(sources[i])
  {
    assert sources[..i + 1][..i] == sources[..i];
  }

  lemma KeysStep(sources: seq<Source>, i: nat)
    requires i < |sources|
    ensures ExpectedKeys(sources[..i + 1]) == ExpectedKeys(sources[..i]) + KeysOf(sources[i])
  {
    assert sources[..i + 1][..i] == sources[..i];
  }

  method ExpectSymbols(sources: seq<Source>) returns (pairs: seq<(string, string)>, keys: set<string>)
    requires DistinctGroups(sources, SourceId) && AllWellFormed(sources)
    ensures pairs == Gather(sources, PairsOf) && keys == ExpectedKeys(sources)
  {
    pairs, keys := [], {};
    for i := 0 to |sources|
      invariant pairs == Gather(sources[..i], PairsOf) && keys == ExpectedKeys(sources[..i])
    {
      GatherStep(sources, i, PairsOf);
      KeysStep(sources, i);
      assert sources[i] in sources;
      if sources[i].role != SysmlModel {
        forall x | x in sources[i].symbols
          ensures SymbolKey(sources[i].id, x) !in keys
        {
          NewSource(sources, i, x);
        }
        pairs, keys := AddSymbols(sources[i], pairs, keys);
      }
    }
    assert sources[..|sources|] == sources;
  }

  function WithId(sources: seq<Source>, id: string): Option<Source> {
    FindFirst(sources, (s: Source) => s.id == id)
  }

  lemma SafeHasNoSeparator(s: string)
    requires SafeId(s)
    ensures NUL !in s
  {
  }

  /** What the three look-ups of the linking loop establish. */
  lemma LinkChecks(binding: Binding, sources: seq<Source>, anchor: Source)
    requires DistinctGroups(sources, SourceId) && AllWellFormed(sources) && BindingFits(binding)
    ensures Links(binding, sources, anchor)
            <==> && WithId(sources, binding.sourceId).Some? && WithId(sources, binding.sourceId).value.role != SysmlModel
                 && BindingKey(binding) in ExpectedKeys(sources) && binding.target in anchor.symbols
  {
    SafeHasNoSeparator(binding.sourceId);
    KeyIsKnown(sources, binding.sourceId, binding.symbolId);
    if Offers(sources, binding.sourceId, binding.symbolId) {
      var s :| s in sources && s.id == binding.sourceId && s.role != SysmlModel && binding.symbolId in s.symbols;
      OneOfGroup(sources, SourceId, s, WithId(sources, binding.sourceId).value);
    }
  }

  function BindingKeys(bindings: seq<Binding>): set<string> {
    set b | b in bindings :: BindingKey(b)
  }

  lemma KeysGrow(bindings: seq<Binding>, i: nat)
    requires i < |bindings|
    ensures BindingKeys(bindings[..i + 1]) == BindingKeys(bindings[..i]) + {BindingKey(bindings[i])}
    ensures DistinctGroups(bindings[..i + 1], BindingKey)
            <==> DistinctGroups(bindings[..i], BindingKey) && BindingKey(bindings[i]) !in BindingKeys(bindings[..i])
  {
    var longer := bindings[..i + 1];
    assert longer == bindings[..i] + [bindings[i]];
    if DistinctGroups(longer, BindingKey) {
      DistinctInit(longer, BindingKey);
      assert longer[..i] == bindings[..i];
    }
    if DistinctGroups(bindings[..i], BindingKey) && BindingKey(bindings[i]) !in BindingKeys(bindings[..i]) {
      forall a, b | 0 <= a < b < |longer|
        ensures GroupsDiffer(longer, BindingKey, a, b)
      {
        assert b < i ==> GroupsDiffer(bindings[..i], BindingKey, a, b);
        assert bindings[..i][a] in bindings[..i];
      }
    }
  }

  lemma DistinctPrefix(bindings: seq<Binding>, i: nat)
    requires i <= |bindings|
    ensures DistinctGroups(bindings, BindingKey) ==> DistinctGroups(bindings[..i], BindingKey)
  {
    if DistinctGroups(bindings, BindingKey) {
      DistinctSlice(bindings, BindingKey, 0, i);
      assert bindings[0..i] == bindings[..i];
    }
  }

  /** One binding: its source is there and not the anchor, its symbol is offered, and its target is one of the anchor. */
  method CheckBinding(binding: Binding, sources: seq<Source>, anchor: Source, keys: set<string>) returns (links: bool)
    requires DistinctGroups(sources, SourceId) && AllWellFormed(sources) && keys == ExpectedKeys(sources)
    requires BindingFits(binding)
    ensures links <==> Links(binding, sources, anchor)
  {
    LinkChecks(binding, sources, anchor);
    var source := WithId(sources, binding.sourceId);
    if source.None? || source.value.role == SysmlModel { return false; }
    assert SymbolKey(binding.sourceId, binding.symbolId) == BindingKey(binding);
    if SymbolKey(binding.sourceId, binding.symbolId) !in keys { return false; }
    return binding.target in anchor.symbols;
  }

  /** Links every binding, at most one to a symbol; `bound` maps the key of a symbol to its binding. */
  method LinkBindings(bindings: seq<Binding>, sources: seq<Source>, anchor: Source, keys: set<string>)
    returns (linked: bool, bound: map<string, Binding>)
    requires DistinctGroups(sources, SourceId) && AllWellFormed(sources) && keys == ExpectedKeys(sources)
    requires forall b :: b in bindings ==> BindingFits(b)
    ensures linked <==> (forall b :: b in bindings ==> Links(b, sources, anchor)) && DistinctGroups(bindings, BindingKey)
    ensures linked ==> bound.Keys == BindingKeys(bindings)
  {
    bound := map[];
    for i := 0 to |bindings|
      invariant forall b :: b in bindings[..i] ==> Links(b, sources, anchor)
      invariant DistinctGroups(bindings[..i], BindingKey)
      invariant bound.Keys == BindingKeys(bindings[..i])
    {
      assert bindings[i] in bindings;
      var links := CheckBinding(bindings[i], sources, anchor, keys);
      if !links { return false, bound; }
      KeysGrow(bindings, i);
      DistinctPrefix(bindings, i + 1);
      var key := SymbolKey(bindings[i].sourceId, bindings[i].symbolId);
      assert key == BindingKey(bindings[i]);
      if key in bound { return false, bound; }
      bound := bound[key := bindings[i]];
    }
    assert bindings[..|bindings|] == bindings;
    return true, bound;
  }

  // ---------------------------------------------------------- diagnostics

  function MissingPairs(pairs: seq<(string, string)>, bindings: seq<Binding>): seq<Diagnostic> {
    if pairs == [] then []
    else
      var last := pairs[|pairs| - 1];
      MissingPairs(pairs[..|pairs| - 1], bindings)
      + if IsBound(bindings, last.0, last.1) then [] else [MissingDiagnostic(last.0, last.1)]
  }

  lemma {:induction false} MissingPairsAppend(a: seq<(string, string)>, b: seq<(string, string)>, bindings: seq<Binding>)
    ensures MissingPairs(a + b, bindings) == MissingPairs(a, bindings) + MissingPairs(b, bindings)
  {
    if b == [] {
      assert a + b == a;
    } else {
      var init := b[..|b| - 1];
      assert (a + b)[..|a + b| - 1] == a + init;
      MissingPairsAppend(a, init, bindings);
    }
  }

  lemma {:induction false} MissingOfSource(sourceId: string, symbols: seq<string>, bindings: seq<Binding>)
    ensures MissingPairs(PairList(sourceId, symbols), bindings) == MissingSymbols(sourceId, symbols, bindings)
  {
    if symbols != [] {
      var rest := symbols[1..];
      var first := [(sourceId, symbols[0])];
      assert PairList(sourceId, symbols) == first + PairList(sourceId, rest);
      MissingPairsAppend(first, PairList(sourceId, rest), bindings);
      assert first[..0] == [];
      MissingOfSource(sourceId, rest, bindings);
    }
  }

  /** Going through the table of symbols reports the missing bindings source by source. */
  lemma {:induction false} MissingBySource(sources: seq<Source>, bindings: seq<Binding>)
    ensures MissingPairs(Gather(sources, PairsOf), bindings) == Gather(sources, MissingIn(bindings))
  {
    if sources != [] {
      var init, last := sources[..|sources| - 1], sources[|sources| - 1];
      MissingBySource(init, bindings);
      MissingPairsAppend(Gather(init, PairsOf), PairsOf(last), bindings);
      if last.role != SysmlModel {
        MissingOfSource(last.id, last.symbols, bindings);
      }
    }
  }

  lemma BoundByKey(bindings: seq<Binding>, sourceId: string, symbolId: string)
    requires NUL !in sourceId && forall b :: b in bindings ==> BindingFits(b)
    ensures SymbolKey(sourceId, symbolId) in BindingKeys(bindings) <==> IsBound(bindings, sourceId, symbolId)
  {
    if SymbolKey(sourceId, symbolId) in BindingKeys(bindings) {
      var b :| b in bindings && BindingKey(b) == SymbolKey(sourceId, symbolId);
      SafeHasNoSeparator(b.sourceId);
      KeyIsInjective(b.sourceId, b.symbolId, sourceId, symbolId);
    }
    if IsBound(bindings, sourceId, symbolId) {
      var b :| b in bindings && b.sourceId == sourceId && b.symbolId == symbolId;
      assert BindingKey(b) in BindingKeys(bindings);
    }
  }

  method ReportMissing(pairs: seq<(string, string)>, bindings: seq<Binding>, bound: map<string, Binding>)
    returns (diagnostics: seq<Diagnostic>)
    requires forall p :: p in pairs ==> NUL !in p.0
    requires bound.Keys == BindingKeys(bindings) && forall b :: b in bindings ==> BindingFits(b)
    ensures diagnostics == MissingPairs(pairs, bindings)
  {
    diagnostics := [];
    for i := 0 to |pairs|
      invariant diagnostics == MissingPairs(pairs[..i], bindings)
    {
      var expected := pairs[i];
      assert pairs[..i + 1][..i] == pairs[..i] && expected in pairs;
      BoundByKey(bindings, expected.0, expected.1);
      if SymbolKey(expected.0, expected.1) !in bound {
        diagnostics := diagnostics + [MissingDiagnostic(expected.0, expected.1)];
      }
    }
    assert pairs[..|pairs|] == pairs;
  }

  method ReportConstructs(source: Source, before: seq<Diagnostic>) returns (diagnostics: seq<Diagnostic>)
    ensures diagnostics == before + UnresolvedIn(source)
  {
    diagnostics := before;
    for j := 0 to |source.unresolved|
      invariant diagnostics == before + UnresolvedIn(source)[..j]
    {
      diagnostics := diagnostics + [UnresolvedDiagnostic(source.id, source.unresolved[j])];
    }
    assert UnresolvedIn(source)[..|source.unresolved|] == UnresolvedIn(source);
  }

  method ReportUnresolved(sources: seq<Source>, before: seq<Diagnostic>) returns (diagnostics: seq<Diagnostic>)
    ensures diagnostics == before + Gather(sources, UnresolvedIn)
  {
    diagnostics := before;
    for i := 0 to |sources|
      invariant diagnostics == before + Gather(sources[..i], UnresolvedIn)
    {
      diagnostics := ReportConstructs(sources[i], diagnostics);
      GatherStep(sources, i, UnresolvedIn);
      Regroup(before, Gather(sources[..i], UnresolvedIn), UnresolvedIn(sources[i]));
    }
    assert sources[..|sources|] == sources;
  }

  // ---------------------------------------------------------- projections

  lemma BoundSource(source: Source, bindings: seq<Binding>, bound: map<string, Binding>)
    requires WellFormed(source) && bound.Keys == BindingKeys(bindings) && forall b :: b in bindings ==> BindingFits(b)
    ensures (forall x :: x in source.symbols ==> SymbolKey(source.id, x) in bound) <==> AllBound(source, bindings)
  {
    forall x
      ensures SymbolKey(source.id, x) in bound <==> IsBound(bindings, source.id, x)
    {
      BoundByKey(bindings, source.id, x);
    }
  }

  method MakeProjection(request: Request, profiles: seq<Profile>, sorted: seq<Binding>, bound: map<string, Binding>, target: Target)
    returns (r: Option<Projection>)
    requires WithRole(request.sources, RoleOf(target)).Some? && AllWellFormed(request.sources)
    requires bound.Keys == BindingKeys(request.bindings) && forall b :: b in request.bindings ==> BindingFits(b)
    ensures r.Some? <==> ProfileSelected(request, profiles, target)
    ensures r.Some? ==> r.value == Project(request, profiles, sorted, target)
  {
    var source := WithRole(request.sources, RoleOf(target)).value;
    var profile := WithProfileId(profiles, ChosenProfile(request, target));
    if profile.None? || profile.value.target != target { return None; }
    var bindingRefs := RefsTo(sorted, source.id);
    BoundSource(source, request.bindings, bound);
    var missing := exists x :: x in source.symbols && SymbolKey(source.id, x) !in bound;
    return Some(Projection(target, source.id, source.fingerprint, profile.value.id, profile.value.version,
                           profile.value.contract, bindingRefs, !missing && source.unresolved == []));
  }

  lemma PairsAreSafe(sources: seq<Source>)
    requires AllWellFormed(sources)
    ensures forall p :: p in Gather(sources, PairsOf) ==> NUL !in p.0
  {
    GatherMembers(sources, PairsOf);
  }

  // ------------------------------------------------------------- compile

  method Diagnose(request: Request, pairs: seq<(string, string)>, bound: map<string, Binding>)
    returns (diagnostics: seq<Diagnostic>)
    requires AllWellFormed(request.sources) && pairs == Gather(request.sources, PairsOf)
    requires bound.Keys == BindingKeys(request.bindings) && forall b :: b in request.bindings ==> BindingFits(b)
    ensures diagnostics == Sort(AllDiagnostics(request), DiagnosticLe)
  {
    PairsAreSafe(request.sources);
    MissingBySource(request.sources, request.bindings);
    diagnostics := ReportMissing(pairs, request.bindings, bound);
    diagnostics := ReportUnresolved(request.sources, diagnostics);
    diagnostics := Sort(diagnostics, DiagnosticLe);
  }

  /** Parsing and the checks of the claim and of the anchor; gives the brief and the anchor. */
  method Parse(request: Request, profiles: seq<Profile>, outside: Outside) returns (r: Option<(Source, Source)>)
    ensures r.Some? <==> Parsed(request, profiles, outside)
    ensures r.Some? ==> r.value == (WithRole(request.sources, Brief).value, WithRole(request.sources, SysmlModel).value)
  {
    if !IdentifiersFit(request) { return None; }
    var closed := AcceptSources(request.sources, outside);
    if !closed { return None; }
    var fit := AcceptBindings(request.bindings);
    if !fit { return None; }
    var owned := AcceptProfiles(profiles);
    if !owned { return None; }
    HasEveryRole(request.sources, outside);
    var brief, anchor := WithRole(request.sources, Brief).value, WithRole(request.sources, SysmlModel).value;
    if !outside.claimHolds(request.claim, brief) { return None; }
    if request.anchorId != anchor.id || request.anchorFingerprint != anchor.fingerprint { return None; }
    return Some((brief, anchor));
  }

  ghost predicate Parsed(request: Request, profiles: seq<Profile>, outside: Outside) {
    && IdentifiersFit(request) && SourcesClosed(request.sources, outside) && ProfilesClosed(profiles)
    && (forall b :: b in request.bindings ==> BindingFits(b)) && DistinctGroups(request.bindings, BindingId)
    && WithRole(request.sources, Brief).Some? && outside.claimHolds(request.claim, WithRole(request.sources, Brief).value)
    && WithRole(request.sources, SysmlModel).Some?
    && request.anchorId == WithRole(request.sources, SysmlModel).value.id
    && request.anchorFingerprint == WithRole(request.sources, SysmlModel).value.fingerprint
  }

  method SourceRefs(sources: seq<Source>, outside: Outside) returns (refs: seq<SourceRef>)
    ensures refs == Sort(Gather(sources, RefOf(outside)), SourceRefLe)
  {
    refs := [];
    for i := 0 to |sources|
      invariant refs == Gather(sources[..i], RefOf(outside))
    {
      var s := sources[i];
      GatherStep(sources, i, RefOf(outside));
      refs := refs + [SourceRef(s.id, s.role, s.language, s.fingerprint, outside.analysis(s))];
    }
    assert sources[..|sources|] == sources;
    refs := Sort(refs, SourceRefLe);
  }

  ghost predicate Selected(request: Request, profiles: seq<Profile>) {
    ProfileSelected(request, profiles, ToBuild123d) && ProfileSelected(request, profiles, ToModelica)
    && ProfileSelected(request, profiles, ToCalculix)
  }

  method MakeProjections(request: Request, profiles: seq<Profile>, sorted: seq<Binding>, bound: map<string, Binding>)
    returns (r: Option<seq<Projection>>)
    requires WithRole(request.sources, CadScript).Some? && WithRole(request.sources, ModelicaModel).Some?
    requires WithRole(request.sources, CalculixInput).Some? && AllWellFormed(request.sources)
    requires bound.Keys == BindingKeys(request.bindings) && forall b :: b in request.bindings ==> BindingFits(b)
    ensures r.Some? <==> Selected(request, profiles)
    ensures r.Some? ==> r.value == [
      Project(request, profiles, sorted, ToBuild123d), Project(request, profiles, sorted, ToModelica),
      Project(request, profiles, sorted, ToCalculix)]
  {
    var build123d := MakeProjection(request, profiles, sorted, bound, ToBuild123d);
    if build123d.None? { return None; }
    var modelica := MakeProjection(request, profiles, sorted, bound, ToModelica);
    if modelica.None? { return None; }
    var calculix := MakeProjection(request, profiles, sorted, bound, ToCalculix);
    if calculix.None? { return None; }
    return Some([build123d.value, modelica.value, calculix.value]);
  }

  lemma AdmissibleSteps(request: Request, profiles: seq<Profile>, outside: Outside)
    ensures Admissible(request, profiles, outside)
            <==> && Parsed(request, profiles, outside)
                 && (forall b :: b in request.bindings ==> Links(b, request.sources, WithRole(request.sources, SysmlModel).value))
                 && DistinctGroups(request.bindings, BindingKey)
                 && Selected(request, profiles)
  {
  }

  lemma ParsedIsClosed(request: Request, profiles: seq<Profile>, outside: Outside)
    requires Parsed(request, profiles, outside)
    ensures OnePerRole(request.sources) && forall b :: b in request.bindings ==> BindingFits(b)
  {
    ClosedIsOnePerRole(request.sources, outside);
  }

  method Link(request: Request, profiles: seq<Profile>, anchor: Source) returns (r: Option<(seq<Diagnostic>, seq<Projection>)>)
    requires OnePerRole(request.sources) && AllWellFormed(request.sources)
    requires forall b :: b in request.bindings ==> BindingFits(b)
    ensures r.Some? <==> && (forall b :: b in request.bindings ==> Links(b, request.sources, anchor))
                         && DistinctGroups(request.bindings, BindingKey) && Selected(request, profiles)
    ensures r.Some? ==> var sorted := Sort(request.bindings, BindingLe);
      && r.value.0 == Sort(AllDiagnostics(request), DiagnosticLe)
      && r.value.1 == [Project(request, profiles, sorted, ToBuild123d), Project(request, profiles, sorted, ToModelica),
                       Project(request, profiles, sorted, ToCalculix)]
  {
    var pairs, keys := ExpectSymbols(request.sources);
    var linked, bound := LinkBindings(request.bindings, request.sources, anchor, keys);
    if !linked { return None; }
    var diagnostics := Diagnose(request, pairs, bound);
    var projections := MakeProjections(request, profiles, Sort(request.bindings, BindingLe), bound);
    if projections.None? { return None; }
    return Some((diagnostics, projections.value));
  }

  /** Accepts exactly the admissible requests, and compiles each to its linked document. */
  method Compile(request: Request, profiles: seq<Profile>, outside: Outside) returns (r: Option<Document>)
    requires AllWellFormed(request.sources)
    ensures r.Some? <==> Admissible(request, profiles, outside)
    ensures r.Some? ==> r.value == Linked(request, profiles, outside)
    ensures r.Some? ==> IsAdmitted(request, profiles, outside, r.value)
  {
    if Admissible(request, profiles, outside) { LinkedIsAdmitted(request, profiles, outside); }
    AdmissibleSteps(request, profiles, outside);
    var parsed := Parse(request, profiles, outside);
    if parsed.None? { return None; }
    var (brief, anchor) := parsed.value;
    ParsedIsClosed(request, profiles, outside);
    var parts := Link(request, profiles, anchor);
    if parts.None? { return None; }
    var (diagnostics, projections) := parts.value;
    var sourceRefs := SourceRefs(request.sources, outside);
    var bindings := Sort(request.bindings, BindingLe);
    return Some(Document(
      request.compilationId, request.claim, brief.id, brief.fingerprint, RefsTo(bindings, brief.id),
      anchor.id, anchor.fingerprint, sourceRefs, bindings, diagnostics == [], diagnostics, projections));
  }
}
