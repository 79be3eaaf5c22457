/** The closed sets of an admissible request: five sources, three profiles, each as its table says. */
module ClosedRequests {
  import opened Text
  import opened Identifiers
  import opened StableSort
  import opened Admission
  import opened AdmissionLaws

  // ---------------------------------------------------------------- sources

  /** Each expected role comes in one language. */
  predicate IsExpected(s: Source) {
    || (s.role == Brief && s.language == PlainText)
    || (s.role == SysmlModel && s.language == SysmlV2)
    || (s.role == CadScript && s.language == Python)
    || (s.role == ModelicaModel && s.language == Modelica)
    || (s.role == CalculixInput && s.language == CalculixInp)
  }

  predicate Differ(sources: seq<Source>, i: nat, j: nat)
    requires i < j < |sources|
  {
    sources[i].role != sources[j].role && sources[i].id != sources[j].id
  }

  /** Five sources, each expected, admitted by its policy and true to its bytes, no two of a role or an id. */
  ghost predicate AreFiveSources(sources: seq<Source>, outside: Outside) {
    && |sources| == 5
    && (forall s :: s in sources ==> IsExpected(s) && s.passed && outside.digest(s.text) == s.fingerprint)
    && forall i, j :: 0 <= i < j < 5 ==> Differ(sources, i, j)
  }

  lemma RoleNamesDiffer(a: Role, b: Role)
    ensures RoleName(a) == RoleName(b) <==> a == b
  {
    assert RoleName(a)[0] == RoleName(b)[0] && RoleName(a)[1] == RoleName(b)[1] && |RoleName(a)| == |RoleName(b)| ==> a == b;
  }

  lemma DifferIff(sources: seq<Source>)
    ensures DistinctGroups(sources, SourceRole) && DistinctGroups(sources, SourceId)
       <==> forall i, j :: 0 <= i < j < |sources| ==> Differ(sources, i, j)
  {
    forall i, j | 0 <= i < j < |sources|
      ensures Differ(sources, i, j) <==> GroupsDiffer(sources, SourceRole, i, j) && GroupsDiffer(sources, SourceId, i, j)
    {
      RoleNamesDiffer(sources[i].role, sources[j].role);
    }
  }

  function RolesOf(sources: seq<Source>): (roles: seq<Role>)
    ensures |roles| == |sources| && forall i :: 0 <= i < |sources| ==> roles[i] == sources[i].role
  {
    seq(|sources|, i requires 0 <= i < |sources| => sources[i].role)
  }

  const FIVE: set<Role> := {Brief, SysmlModel, CadScript, ModelicaModel, CalculixInput}

  lemma FiveRoles(sources: seq<Source>)
    requires |sources| == 5 && forall i, j :: 0 <= i < j < 5 ==> Differ(sources, i, j)
    requires Elements(RolesOf(sources)) <= FIVE
    ensures Elements(RolesOf(sources)) == FIVE
  {
    var roles := RolesOf(sources);
    DistinctIffCounted(roles);
    forall i, j | 0 <= i < j < 5
      ensures roles[i] != roles[j]
    {
      assert Differ(sources, i, j);
    }
    SameSizeSubset(Elements(roles), FIVE);
  }

  lemma HasSourceAt(sources: seq<Source>, role: Role, language: Language)
    requires Elements(RolesOf(sources)) == FIVE && role in FIVE
    requires forall s :: s in sources && s.role == role ==> s.language == language
    ensures HasSource(sources, role, language)
  {
    assert role in RolesOf(sources);
    var i :| 0 <= i < |sources| && RolesOf(sources)[i] == role;
    assert sources[i] in sources;
  }

  lemma RolesAreExpected(sources: seq<Source>)
    requires forall s :: s in sources ==> IsExpected(s)
    ensures Elements(RolesOf(sources)) <= FIVE
  {
    forall role | role in RolesOf(sources)
      ensures role in FIVE
    {
      var i :| 0 <= i < |sources| && RolesOf(sources)[i] == role;
      assert sources[i] in sources;
    }
  }

  lemma FiveAreExpected(sources: seq<Source>, outside: Outside)
    requires AreFiveSources(sources, outside)
    ensures SourcesClosed(sources, outside)
  {
    DifferIff(sources);
    RolesAreExpected(sources);
    FiveRoles(sources);
    HasSourceAt(sources, Brief, PlainText);
    HasSourceAt(sources, SysmlModel, SysmlV2);
    HasSourceAt(sources, CadScript, Python);
    HasSourceAt(sources, ModelicaModel, Modelica);
    HasSourceAt(sources, CalculixInput, CalculixInp);
    assert EXPECTED[0] == (Brief, PlainText) && EXPECTED[1] == (SysmlModel, SysmlV2) && EXPECTED[2] == (CadScript, Python);
    assert EXPECTED[3] == (ModelicaModel, Modelica) && EXPECTED[4] == (CalculixInput, CalculixInp);
  }

  lemma OneRoleOneSource(sources: seq<Source>, s: Source, t: Source)
    requires DistinctGroups(sources, SourceRole) && s in sources && t in sources && s.role == t.role
    ensures s == t
  {
    var i :| 0 <= i < |sources| && sources[i] == s;
    var j :| 0 <= j < |sources| && sources[j] == t;
    assert i < j ==> GroupsDiffer(sources, SourceRole, i, j);
    assert j < i ==> GroupsDiffer(sources, SourceRole, j, i);
  }

  lemma ExpectedLanguage(sources: seq<Source>, s: Source, role: Role, language: Language)
    requires DistinctGroups(sources, SourceRole) && HasSource(sources, role, language) && s in sources && s.role == role
    ensures s.language == language
  {
    var t :| t in sources && t.role == role && t.language == language;
    OneRoleOneSource(sources, s, t);
  }

  lemma ClosedIsExpected(sources: seq<Source>, outside: Outside, s: Source)
    requires SourcesClosed(sources, outside) && s in sources
    ensures IsExpected(s)
  {
    ClosedIsOnePerRole(sources, outside);
    OnlyExpectedRoles(sources, s);
    assert HasSource(sources, EXPECTED[0].0, EXPECTED[0].1) && HasSource(sources, EXPECTED[1].0, EXPECTED[1].1);
    assert HasSource(sources, EXPECTED[2].0, EXPECTED[2].1) && HasSource(sources, EXPECTED[3].0, EXPECTED[3].1);
    assert HasSource(sources, EXPECTED[4].0, EXPECTED[4].1);
    match s.role
    case Brief => ExpectedLanguage(sources, s, Brief, PlainText);
    case SysmlModel => ExpectedLanguage(sources, s, SysmlModel, SysmlV2);
    case CadScript => ExpectedLanguage(sources, s, CadScript, Python);
    case ModelicaModel => ExpectedLanguage(sources, s, ModelicaModel, Modelica);
    case CalculixInput => ExpectedLanguage(sources, s, CalculixInput, CalculixInp);
    case SpiceCircuit => assert false;
  }

  /** The sources of a request are closed exactly if they are these five. */
  lemma SourcesClosedIff(sources: seq<Source>, outside: Outside)
    ensures SourcesClosed(sources, outside) <==> AreFiveSources(sources, outside)
  {
    if SourcesClosed(sources, outside) {
      DifferIff(sources);
      forall s | s in sources
        ensures IsExpected(s)
      {
        ClosedIsExpected(sources, outside, s);
      }
    }
    if AreFiveSources(sources, outside) {
      FiveAreExpected(sources, outside);
    }
  }

  // --------------------------------------------------------------- profiles

  /** Each target has one output contract. */
  predicate IsServed(p: Profile) {
    && SafeId(p.id) && p.version != "" && Trim(p.version) == p.version
    && (p.target == ToBuild123d ==> p.contract == "spike-only/build123d-projection/0.1")
    && (p.target == ToModelica ==> p.contract == "spike-only/modelica-conformance-projection/0.1")
    && (p.target == ToCalculix ==> p.contract == "spike-only/calculix-deck-projection/0.1")
  }

  predicate ProfilesDiffer(profiles: seq<Profile>, i: nat, j: nat)
    requires i < j < |profiles|
  {
    profiles[i].target != profiles[j].target && profiles[i].id != profiles[j].id
  }

  /** Three profiles, each with the contract of its target, no two of a target or an id. */
  ghost predicate AreThreeProfiles(profiles: seq<Profile>) {
    && |profiles| == 3 && (forall p :: p in profiles ==> IsServed(p))
    && forall i, j :: 0 <= i < j < 3 ==> ProfilesDiffer(profiles, i, j)
  }

  lemma TargetNamesDiffer(a: Profile, b: Profile)
    ensures TargetName(a) == TargetName(b) <==> a.target == b.target
  {
    assert TargetName(a) == TargetName(b) ==> TargetName(a)[0] == TargetName(b)[0];
  }

  lemma TrimmedIff(text: string)
    ensures IsTrimmedText(text) <==> text != "" && Trim(text) == text
  {
    var head, tail := StripSplits(text, IsSpace);
    if IsTrimmedText(text) {
      StripOf("", text, "", IsSpace);
      assert "" + text + "" == text;
    }
  }

  lemma ServedIff(p: Profile)
    ensures ProfileFits(p) <==> IsServed(p)
  {
    TrimmedIff(p.version);
  }

  /** The profiles of the server are closed exactly if they are these three. */
  lemma ProfilesClosedIff(profiles: seq<Profile>)
    ensures ProfilesClosed(profiles) <==> AreThreeProfiles(profiles)
  {
    forall p | p in profiles
      ensures ProfileFits(p) <==> IsServed(p)
    {
      ServedIff(p);
    }
    forall i, j | 0 <= i < j < |profiles|
      ensures ProfilesDiffer(profiles, i, j)
         <==> GroupsDiffer(profiles, TargetName, i, j) && GroupsDiffer(profiles, ProfileId, i, j)
    {
      TargetNamesDiffer(profiles[i], profiles[j]);
    }
  }
}
