/** The admission linker: five analysed sources, explicit bindings to one SysML anchor, one document. */
module Admission {
  import opened Text
  import opened Identifiers
  import opened StableSort

  // ----------------------------------------------------------------- records

  datatype Role = Brief | SysmlModel | CadScript | ModelicaModel | SpiceCircuit | CalculixInput

  datatype Language = PlainText | SysmlV2 | Python | TypeScript | Modelica | Spice | CalculixInp

  datatype Construct = Construct(id: string, message: string)

  /** A native source with its validated analysis bundle. */
  datatype Source = Source(
    id: string, role: Role, language: Language, text: string, fingerprint: string,
    passed: bool, symbols: seq<string>, unresolved: seq<Construct>)

  datatype Binding = Binding(id: string, sourceId: string, symbolId: string, target: string)

  datatype Target = ToBuild123d | ToModelica | ToCalculix

  datatype Profile = Profile(id: string, version: string, target: Target, contract: string)

  datatype Request = Request(
    compilationId: string, claim: string, anchorId: string, anchorFingerprint: string,
    sources: seq<Source>, bindings: seq<Binding>,
    build123dProfile: string, modelicaProfile: string, calculixProfile: string)

  datatype Code = MissingBinding | UnresolvedConstruct

  /** `symbolId` is empty for an unresolved construct. Every diagnostic blocks. */
  datatype Diagnostic = Diagnostic(id: string, code: Code, sourceId: string, symbolId: string, message: string)

  datatype SourceRef = SourceRef(sourceId: string, role: Role, language: Language, fingerprint: string, analysis: string)

  datatype Projection = Projection(
    target: Target, sourceId: string, fingerprint: string, profile: string, version: string, contract: string,
    bindingRefs: seq<string>, resolved: bool)

  datatype Document = Document(
    compilationId: string, claim: string, briefId: string, briefFingerprint: string, briefRefs: seq<string>,
    anchorId: string, anchorFingerprint: string,
    sourceRefs: seq<SourceRef>, bindings: seq<Binding>, resolved: bool, diagnostics: seq<Diagnostic>,
    projections: seq<Projection>)

  /** Hashes, and the comparison of the review claim with the native brief. */
  datatype Outside = Outside(digest: string -> string, analysis: Source -> string, claimHolds: (string, Source) -> bool)

  // ------------------------------------------------------------- identifiers

  const NUL: char := 0 as char

  /** The map key of a symbol of a source. */
  function SymbolKey(sourceId: string, symbolId: string): string {
    sourceId + [NUL] + symbolId
  }

  /** Safe identifiers contain no separator, so a key stands for one symbol of one source. */
  lemma {:induction false} KeyIsInjective(a: string, x: string, b: string, y: string)
    requires NUL !in a && NUL !in b && SymbolKey(a, x) == SymbolKey(b, y)
    ensures a == b && x == y
  {
    var s, t := SymbolKey(a, x), SymbolKey(b, y);
    assert s[|a|] == NUL && t[|b|] == NUL;
    if |a| == |b| {
      assert a == s[..|a|] && b == t[..|b|] && x == s[|a| + 1..] && y == t[|b| + 1..];
    }
  }

  /** What the bundle validation guarantees. */
  predicate WellFormed(source: Source) {
    NUL !in source.id && StrictlySorted(source.symbols) && forall i :: 0 <= i < |source.symbols| ==> NUL !in source.symbols[i]
  }

  // -------------------------------------------------------------- acceptance

  function RoleName(role: Role): string {
    match role
    case Brief => "brief"
    case SysmlModel => "sysml-model"
    case CadScript => "cad-script"
    case ModelicaModel => "modelica-model"
    case SpiceCircuit => "spice-circuit"
    case CalculixInput => "calculix-input"
  }

  function SourceRole(source: Source): string { RoleName(source.role) }

  function SourceId(source: Source): string { source.id }

  function BindingId(binding: Binding): string { binding.id }

  function BindingKey(binding: Binding): string { SymbolKey(binding.sourceId, binding.symbolId) }

  function ProfileId(profile: Profile): string { profile.id }

  function TargetName(profile: Profile): string {
    match profile.target case ToBuild123d => "build123d" case ToModelica => "modelica" case ToCalculix => "calculix"
  }

  function RoleOf(target: Target): Role {
    match target case ToBuild123d => CadScript case ToModelica => ModelicaModel case ToCalculix => CalculixInput
  }

  function ContractOf(target: Target): string {
    match target
    case ToBuild123d => "spike-only/build123d-projection/0.1"
    case ToModelica => "spike-only/modelica-conformance-projection/0.1"
    case ToCalculix => "spike-only/calculix-deck-projection/0.1"
  }

  function ChosenProfile(request: Request, target: Target): string {
    match target
    case ToBuild123d => request.build123dProfile
    case ToModelica => request.modelicaProfile
    case ToCalculix => request.calculixProfile
  }

  const EXPECTED: seq<(Role, Language)> := [
    (Brief, PlainText), (SysmlModel, SysmlV2), (CadScript, Python), (ModelicaModel, Modelica), (CalculixInput, CalculixInp)]

  predicate HasSource(sources: seq<Source>, role: Role, language: Language) {
    exists s :: s in sources && s.role == role && s.language == language
  }

  ghost predicate SourcesClosed(sources: seq<Source>, outside: Outside) {
    && |sources| == 5
    && DistinctGroups(sources, SourceRole) && DistinctGroups(sources, SourceId)
    && (forall i :: 0 <= i < |EXPECTED| ==> HasSource(sources, EXPECTED[i].0, EXPECTED[i].1))
    && (forall s :: s in sources ==> s.passed && outside.digest(s.text) == s.fingerprint)
  }

  predicate ProfileFits(profile: Profile) {
    SafeId(profile.id) && IsTrimmedText(profile.version) && profile.contract == ContractOf(profile.target)
  }

  ghost predicate ProfilesClosed(profiles: seq<Profile>) {
    && |profiles| == 3
    && (forall p :: p in profiles ==> ProfileFits(p))
    && DistinctGroups(profiles, ProfileId) && DistinctGroups(profiles, TargetName)
  }

  /** The source with a role; there is at most one. */
  function WithRole(sources: seq<Source>, role: Role): (r: Option<Source>)
    ensures r.Some? ==> r.value in sources && r.value.role == role
    ensures r.None? ==> forall s :: s in sources ==> s.role != role
  {
    FindFirst(sources, (s: Source) => s.role == role)
  }

  function WithProfileId(profiles: seq<Profile>, id: string): (r: Option<Profile>)
    ensures r.Some? ==> r.value in profiles && r.value.id == id
    ensures r.None? ==> forall p :: p in profiles ==> p.id != id
  {
    FindFirst(profiles, (p: Profile) => p.id == id)
  }

  predicate BindingFits(binding: Binding) {
    SafeId(binding.id) && SafeId(binding.sourceId) && SafeId(binding.symbolId) && SafeId(binding.target)
  }

  /** The binding goes from a symbol of a source that is not the anchor to a symbol of the anchor. */
  predicate Links(binding: Binding, sources: seq<Source>, anchor: Source) {
    && (exists s :: s in sources && s.id == binding.sourceId && s.role != SysmlModel && binding.symbolId in s.symbols)
    && binding.target in anchor.symbols
  }

  ghost predicate BindingsLink(bindings: seq<Binding>, sources: seq<Source>, anchor: Source) {
    && (forall b :: b in bindings ==> BindingFits(b) && Links(b, sources, anchor))
    && DistinctGroups(bindings, BindingId) && DistinctGroups(bindings, BindingKey)
  }

  predicate ProfileSelected(request: Request, profiles: seq<Profile>, target: Target) {
    var profile := WithProfileId(profiles, ChosenProfile(request, target));
    profile.Some? && profile.value.target == target
  }

  predicate IdentifiersFit(request: Request) {
    SafeId(request.compilationId) && SafeId(request.anchorId)
    && SafeId(request.build123dProfile) && SafeId(request.modelicaProfile) && SafeId(request.calculixProfile)
  }

  ghost predicate Admissible(request: Request, profiles: seq<Profile>, outside: Outside) {
    && IdentifiersFit(request)
    && SourcesClosed(request.sources, outside)
    && ProfilesClosed(profiles)
    && WithRole(request.sources, Brief).Some? && outside.claimHolds(request.claim, WithRole(request.sources, Brief).value)
    && WithRole(request.sources, SysmlModel).Some?
    && request.anchorId == WithRole(request.sources, SysmlModel).value.id
    && request.anchorFingerprint == WithRole(request.sources, SysmlModel).value.fingerprint
    && BindingsLink(request.bindings, request.sources, WithRole(request.sources, SysmlModel).value)
    && ProfileSelected(request, profiles, ToBuild123d)
    && ProfileSelected(request, profiles, ToModelica)
    && ProfileSelected(request, profiles, ToCalculix)
  }

  // ------------------------------------------------------------ the document

  predicate IsBound(bindings: seq<Binding>, sourceId: string, symbolId: string) {
    exists b :: b in bindings && b.sourceId == sourceId && b.symbolId == symbolId
  }

  /** Outside `[A-Za-z0-9._:-]` every character becomes a hyphen, and 256 characters are kept. */
  function Sanitized(raw: string): string {
    var sanitized := seq(|raw|, i requires 0 <= i < |raw| => if IsSafeChar(raw[i]) then raw[i] else '-');
    if |sanitized| <= 256 then sanitized else sanitized[..256]
  }

  function CodeName(code: Code): string {
    if code.MissingBinding? then "missing-explicit-binding" else "source-unresolved-construct"
  }

  function DiagnosticId(code: Code, sourceId: string, itemId: string): string {
    Sanitized(CodeName(code) + (":" + sourceId + ":" + itemId))
  }

  lemma SanitizedIsSafe(raw: string)
    requires raw != "" && IsAlphanumeric(raw[0])
    ensures SafeId(Sanitized(raw))
  {
  }

  /** Whatever the ids, a diagnostic gets a safe identifier. */
  lemma DiagnosticIdIsSafe(code: Code, sourceId: string, itemId: string)
    ensures SafeId(DiagnosticId(code, sourceId, itemId))
  {
    var name := CodeName(code);
    assert name != "" && IsAlphanumeric(name[0]);
    assert (name + (":" + sourceId + ":" + itemId))[0] == name[0];
    SanitizedIsSafe(name + (":" + sourceId + ":" + itemId));
  }

  const MISSING_MESSAGE :=
    "The source symbol has no reviewed explicit binding to the SysML anchor; name matching is never inferred."

  function MissingDiagnostic(sourceId: string, symbolId: string): Diagnostic {
    Diagnostic(DiagnosticId(MissingBinding, sourceId, symbolId), MissingBinding, sourceId, symbolId, MISSING_MESSAGE)
  }

  function UnresolvedDiagnostic(sourceId: string, construct: Construct): Diagnostic {
    Diagnostic(DiagnosticId(UnresolvedConstruct, sourceId, construct.id), UnresolvedConstruct, sourceId, "", construct.message)
  }

  function MissingSymbols(sourceId: string, symbols: seq<string>, bindings: seq<Binding>): seq<Diagnostic> {
    if symbols == [] then []
    else
      (if IsBound(bindings, sourceId, symbols[0]) then [] else [MissingDiagnostic(sourceId, symbols[0])])
      + MissingSymbols(sourceId, symbols[1..], bindings)
  }

  /** One error for each symbol of a source that no binding names; the anchor's own symbols need none. */
  function MissingIn(bindings: seq<Binding>): Source -> seq<Diagnostic> {
    (source: Source) => if source.role == SysmlModel then [] else MissingSymbols(source.id, source.symbols, bindings)
  }

  function UnresolvedIn(source: Source): seq<Diagnostic> {
    seq(|source.unresolved|, i requires 0 <= i < |source.unresolved| => UnresolvedDiagnostic(source.id, source.unresolved[i]))
  }

  function Gather<T>(sources: seq<Source>, part: Source -> seq<T>): seq<T> {
    if sources == [] then [] else Gather(sources[..|sources| - 1], part) + part(sources[|sources| - 1])
  }

  function AllDiagnostics(request: Request): seq<Diagnostic> {
    Gather(request.sources, MissingIn(request.bindings)) + Gather(request.sources, UnresolvedIn)
  }

  predicate AtMost3(a: (string, string, string), b: (string, string, string)) {
    Less(a.0, b.0) || (a.0 == b.0 && (Less(a.1, b.1) || (a.1 == b.1 && AtMost(a.2, b.2))))
  }

  /** `compareDiagnostic(left, right) <= 0` */
  predicate DiagnosticLe(left: Diagnostic, right: Diagnostic) {
    AtMost3((left.sourceId, left.symbolId, left.id), (right.sourceId, right.symbolId, right.id))
  }

  /** `compareBinding(left, right) <= 0` */
  predicate BindingLe(left: Binding, right: Binding) {
    AtMost3((left.sourceId, left.symbolId, left.id), (right.sourceId, right.symbolId, right.id))
  }

  predicate SourceRefLe(left: SourceRef, right: SourceRef) {
    AtMost(left.sourceId, right.sourceId)
  }

  function RefOf(outside: Outside): Source -> seq<SourceRef> {
    (s: Source) => [SourceRef(s.id, s.role, s.language, s.fingerprint, outside.analysis(s))]
  }

  function Ids(bindings: seq<Binding>): (ids: seq<string>)
    ensures |ids| == |bindings|
  {
    seq(|bindings|, i requires 0 <= i < |bindings| => bindings[i].id)
  }

  function FromSource(binding: Binding): string { binding.sourceId }

  function RefsTo(bindings: seq<Binding>, sourceId: string): seq<string> {
    Ids(Filter(bindings, InGroup(FromSource, sourceId)))
  }

  predicate AllBound(source: Source, bindings: seq<Binding>) {
    forall symbol :: symbol in source.symbols ==> IsBound(bindings, source.id, symbol)
  }

  function Project(request: Request, profiles: seq<Profile>, bindings: seq<Binding>, target: Target): Projection
    requires WithRole(request.sources, RoleOf(target)).Some? && ProfileSelected(request, profiles, target)
  {
    var source := WithRole(request.sources, RoleOf(target)).value;
    var profile := WithProfileId(profiles, ChosenProfile(request, target)).value;
    Projection(target, source.id, source.fingerprint, profile.id, profile.version, profile.contract,
               RefsTo(bindings, source.id), AllBound(source, request.bindings) && source.unresolved == [])
  }

  lemma HasEveryRole(sources: seq<Source>, outside: Outside)
    requires SourcesClosed(sources, outside)
    ensures WithRole(sources, Brief).Some? && WithRole(sources, SysmlModel).Some? && WithRole(sources, CadScript).Some?
    ensures WithRole(sources, ModelicaModel).Some? && WithRole(sources, CalculixInput).Some?
  {
    assert HasSource(sources, EXPECTED[0].0, EXPECTED[0].1) && HasSource(sources, EXPECTED[1].0, EXPECTED[1].1);
    assert HasSource(sources, EXPECTED[2].0, EXPECTED[2].1) && HasSource(sources, EXPECTED[3].0, EXPECTED[3].1);
    assert HasSource(sources, EXPECTED[4].0, EXPECTED[4].1);
  }

  /** The document an admissible request compiles to. */
  ghost function Linked(request: Request, profiles: seq<Profile>, outside: Outside): Document
    requires Admissible(request, profiles, outside)
  {
    HasEveryRole(request.sources, outside);
    var brief := WithRole(request.sources, Brief).value;
    var anchor := WithRole(request.sources, SysmlModel).value;
    var bindings := Sort(request.bindings, BindingLe);
    var diagnostics := Sort(AllDiagnostics(request), DiagnosticLe);
    Document(
      request.compilationId, request.claim, brief.id, brief.fingerprint, RefsTo(bindings, brief.id),
      anchor.id, anchor.fingerprint,
      Sort(Gather(request.sources, RefOf(outside)), SourceRefLe),
      bindings, diagnostics == [], diagnostics,
      [Project(request, profiles, bindings, ToBuild123d), Project(request, profiles, bindings, ToModelica),
       Project(request, profiles, bindings, ToCalculix)])
  }

  // -------------------------------------------------------------- orderings

  lemma AtMost3IsOrder(a: (string, string, string), b: (string, string, string), c: (string, string, string))
    ensures AtMost3(a, b) || AtMost3(b, a)
    ensures AtMost3(a, b) && AtMost3(b, c) ==> AtMost3(a, c)
    ensures AtMost3(a, b) && AtMost3(b, a) ==> a == b
  {
    LessIsTotal(a.0, b.0);
    LessIsTotal(a.1, b.1);
    LessIsTotal(a.2, b.2);
    LessIsAsymmetric(a.0, b.0);
    LessIsAsymmetric(a.1, b.1);
    LessIsAsymmetric(a.2, b.2);
    if Less(a.0, b.0) && Less(b.0, c.0) { LessIsTransitive(a.0, b.0, c.0); }
    if Less(a.1, b.1) && Less(b.1, c.1) { LessIsTransitive(a.1, b.1, c.1); }
    if Less(a.2, b.2) && Less(b.2, c.2) { LessIsTransitive(a.2, b.2, c.2); }
  }

  function DiagnosticSource(d: Diagnostic): string { d.sourceId }

  function RefSource(r: SourceRef): string { r.sourceId }

  lemma DiagnosticOrder()
    ensures TotalPreorder(DiagnosticLe) && Separates(DiagnosticLe, DiagnosticSource)
  {
    forall x: Diagnostic, y: Diagnostic, z: Diagnostic
      ensures DiagnosticLe(x, y) || DiagnosticLe(y, x)
      ensures DiagnosticLe(x, y) && DiagnosticLe(y, z) ==> DiagnosticLe(x, z)
      ensures DiagnosticLe(x, y) && DiagnosticLe(y, x) ==> DiagnosticSource(x) == DiagnosticSource(y)
    {
      AtMost3IsOrder((x.sourceId, x.symbolId, x.id), (y.sourceId, y.symbolId, y.id), (z.sourceId, z.symbolId, z.id));
    }
  }

  lemma BindingOrder()
    ensures TotalPreorder(BindingLe) && Separates(BindingLe, BindingId)
  {
    forall x: Binding, y: Binding, z: Binding
      ensures BindingLe(x, y) || BindingLe(y, x)
      ensures BindingLe(x, y) && BindingLe(y, z) ==> BindingLe(x, z)
      ensures BindingLe(x, y) && BindingLe(y, x) ==> BindingId(x) == BindingId(y)
    {
      AtMost3IsOrder((x.sourceId, x.symbolId, x.id), (y.sourceId, y.symbolId, y.id), (z.sourceId, z.symbolId, z.id));
    }
  }

  lemma SourceRefOrder()
    ensures TotalPreorder(SourceRefLe) && Separates(SourceRefLe, RefSource)
  {
    forall x: SourceRef, y: SourceRef, z: SourceRef
      ensures SourceRefLe(x, y) || SourceRefLe(y, x)
      ensures SourceRefLe(x, y) && SourceRefLe(y, z) ==> SourceRefLe(x, z)
      ensures SourceRefLe(x, y) && SourceRefLe(y, x) ==> RefSource(x) == RefSource(y)
    {
      LessIsTotal(x.sourceId, y.sourceId);
      LessIsAsymmetric(x.sourceId, y.sourceId);
      if Less(x.sourceId, y.sourceId) && Less(y.sourceId, z.sourceId) {
        LessIsTransitive(x.sourceId, y.sourceId, z.sourceId);
      }
    }
  }
}
